/** `Text` (Sources/Text/Text.swift): a UTF-8 string paired with the runs
    that attribute its bytes.

    Positions are byte offsets into the string; the character-indexed
    overloads of the source only translate a character index to a string
    index before calling these. Grapheme boundaries come from a
    `BoundaryOracle` parameter. Mutating methods of the source become
    functions returning the new text together with their result. */
module AttributedText {
  import opened RunBasics
  import opened RunList
  import opened Graphemes

  datatype Text = Text(bytes: seq<byte>, runs: Runs)

  /** The record an edit returns: where it happened (in characters), the
      text it removed and the text it inserted. */
  datatype Replaced = Replaced(at: nat, replaced: Text, inserted: Text)

  /** The runs cover exactly the string, and rich text has no empty run. */
  predicate Valid(t: Text)
  {
    Length(t.runs) == |t.bytes| && (t.runs.Rich? ==> NoEmpty(t.runs.rs))
  }

  /** The attribute map of every byte of the text. */
  function Attrs(t: Text): seq<Attributes>
  {
    AttrsOf(t.runs)
  }

  // ---------------------------------------------------------------------
  // Construction and kind

  /** `init(_:)`: plain text. */
  function Init(bytes: seq<byte>): (t: Text)
    ensures Valid(t) && t.runs.Plain? && t.bytes == bytes
    ensures Attrs(t) == Repeat(map[], |bytes|)
  {
    Text(bytes, Plain(|bytes|))
  }

  /** `init(_:attributes:)`: rich text with one run carrying `attrs`, or no
      run at all when the string is empty. */
  function InitWithAttributes(bytes: seq<byte>, attrs: Attributes): (t: Text)
    ensures Valid(t) && t.runs.Rich? && t.bytes == bytes
    ensures |t.runs.rs| == if bytes == [] then 0 else 1
    ensures Attrs(t) == Repeat(attrs, |bytes|)
  {
    if bytes == [] then Text(bytes, Rich([]))
    else
      ExpandSingle(Run(|bytes|, attrs));
      Text(bytes, Rich([Run(|bytes|, attrs)]))
  }

  predicate IsEmpty(t: Text) { |t.bytes| == 0 }

  predicate IsPlain(t: Text) { t.runs.Plain? }

  predicate IsRich(t: Text) { t.runs.Rich? }

  /** `hasAttributes`: rich text with a non-empty run. The attribute maps
      are not looked at, so rich text whose every map is empty counts. */
  function HasAttributes(t: Text): (b: bool)
    ensures b <==> IsRich(t) && Length(t.runs) > 0
  {
    match t.runs
    case Plain(_) => false
    case Rich(rs) =>
      TotalPositive(rs);
      exists i :: 0 <= i < |rs| && !IsEmptyRun(rs[i])
  }

  /** `asPlain`: rich text drops its runs. */
  function AsPlain(t: Text): (p: Text)
    ensures p.bytes == t.bytes && IsPlain(p)
    ensures IsPlain(t) ==> p == t
    ensures IsRich(t) ==> Valid(p)
  {
    if IsRich(t) then Init(t.bytes) else t
  }

  /** `asRich`: plain text becomes one run with no attributes, which keeps
      the attributes of every byte. */
  function AsRich(t: Text): (r: Text)
    ensures r.bytes == t.bytes && IsRich(r)
    ensures IsRich(t) ==> r == t
    ensures Valid(t) ==> Valid(r) && Attrs(r) == Attrs(t)
  {
    if IsPlain(t) then InitWithAttributes(t.bytes, map[]) else t
  }

  // ---------------------------------------------------------------------
  // split and subscript

  /** `split(_:)` cuts the string at `k` (a position in the string) and
      traps where the run split does. */
  predicate SplitTextDefined(t: Text, k: nat)
  {
    k <= |t.bytes| && (k == |t.bytes| || k == 0 || SplitDefined(t.runs, k))
  }

  /** `split(_:)`: the receiver keeps the text before `k` and the text
      from `k` on is returned. At the end nothing moves; at the start the
      whole text moves and the receiver becomes empty plain text. */
  function SplitText(t: Text, k: nat): (res: (Text, Text))
    requires SplitTextDefined(t, k)
    ensures res.0.bytes == t.bytes[..k] && res.1.bytes == t.bytes[k..]
    ensures k == |t.bytes| ==> res.0 == t && res.1 == Init([])
    ensures 0 == k < |t.bytes| ==> res.0 == Init([]) && res.1 == t
    ensures IsPlain(t) && Valid(t) ==> res == (Init(t.bytes[..k]), Init(t.bytes[k..]))
    ensures IsRich(t) ==> (IsRich(res.0) || res.0 == Init([])) && (IsRich(res.1) || res.1 == Init([]))
  {
    if k == |t.bytes| then (t, Init([]))
    else if k == 0 then (Init([]), t)
    else
      var (p, s) := Split(t.runs, k);
      (Text(t.bytes[..k], p), Text(t.bytes[k..], s))
  }

  /** Cutting a valid text where no run is cut in two gives two valid
      texts whose attributes, put together, are those of the text. */
  lemma SplitTextValid(t: Text, k: nat)
    requires Valid(t) && SplitTextDefined(t, k)
    requires IsPlain(t) || !Straddles(t.runs.rs, k)
    ensures var (p, s) := SplitText(t, k);
      Valid(p) && Valid(s) && Attrs(p) == Attrs(t)[..k] && Attrs(s) == Attrs(t)[k..]
  {
    if 0 < k < |t.bytes| {
      match t.runs
      case Plain(n) =>
        RepeatSplit(map[], k, n - k);
      case Rich(rs) =>
        SplitAtBoundary(t.runs, k);
    }
  }

  predicate SliceDefined(t: Text, lo: nat, hi: nat)
  {
    lo <= hi && SplitTextDefined(t, hi) && SplitTextDefined(SplitText(t, hi).0, lo)
  }

  /** `subscript(_: Range<Index>)`: split a copy at `hi`, keep the prefix,
      then return what splitting it at `lo` removes. */
  function Slice(t: Text, lo: nat, hi: nat): (r: Text)
    requires SliceDefined(t, lo, hi)
    ensures r.bytes == t.bytes[lo..hi]
  {
    var copy := SplitText(t, hi).0;
    SplitText(copy, lo).1
  }

  /** Where no run is cut in two, a slice of a valid text is valid and
      carries the attributes of its bytes. */
  lemma SliceValid(t: Text, lo: nat, hi: nat)
    requires Valid(t) && SliceDefined(t, lo, hi)
    requires IsPlain(t) || (!Straddles(t.runs.rs, lo) && !Straddles(t.runs.rs, hi))
    ensures Valid(Slice(t, lo, hi)) && Attrs(Slice(t, lo, hi)) == Attrs(t)[lo..hi]
  {
    var copy := SplitText(t, hi).0;
    SplitTextValid(t, hi);
    if IsRich(t) && 0 < hi < |t.bytes| {
      var (p, s) := Split(t.runs, hi);
      assert p.rs + s.rs == t.runs.rs;
      StraddlesAppend(p.rs, s.rs, lo);
    }
    SplitTextValid(copy, lo);
  }

  // ---------------------------------------------------------------------
  // append

  /** The seam repair `append(_:)` runs after concatenating. */
  function SeamRepaired(isB: BoundaryOracle, t: Text, o: Text): Runs
    requires AppendDefined(t.runs, o.runs)
    requires FixDefined(Append(t.runs, o.runs), |t.bytes|, |RunsOf(t.runs)|,
                        Overrun(isB, t.bytes + o.bytes, |t.bytes|))
  {
    FixRunBoundariesAfterAppending(Append(t.runs, o.runs), |t.bytes|, |RunsOf(t.runs)|,
                                   Overrun(isB, t.bytes + o.bytes, |t.bytes|))
  }

  /** `append(_:)` traps where the run append or the seam repair does. */
  predicate AppendTextDefined(isB: BoundaryOracle, t: Text, o: Text)
  {
    IsEmpty(o) ||
    (&& AppendDefined(t.runs, o.runs)
     && FixDefined(Append(t.runs, o.runs), |t.bytes|, |RunsOf(t.runs)|,
                   Overrun(isB, t.bytes + o.bytes, |t.bytes|)))
  }

  /** `append(_:)`: nothing happens when `o` is empty; otherwise the strings
      and the runs are concatenated and the seam repaired, using the byte
      length and run count the receiver had before. The record says the
      text was inserted at the receiver's character count, as rich text. */
  function AppendText(isB: BoundaryOracle, t: Text, o: Text): (res: (Text, Replaced))
    requires AppendTextDefined(isB, t, o)
    ensures res.0.bytes == t.bytes + o.bytes
    ensures res.1 == Replaced(CharCount(isB, t.bytes, |t.bytes|), Init([]), AsRich(o))
    ensures IsEmpty(o) ==> res.0 == t
    ensures !IsEmpty(o) ==> (IsRich(res.0) <==> IsRich(t) || IsRich(o))
    ensures IsPlain(t) && IsPlain(o) && Valid(t) && Valid(o) ==> res.0 == Init(t.bytes + o.bytes)
  {
    var replaced := Replaced(CharCount(isB, t.bytes, |t.bytes|), Init([]), AsRich(o));
    if IsEmpty(o) then (t, replaced)
    else
      assert t.bytes + o.bytes == t.bytes + o.bytes;
      (Text(t.bytes + o.bytes, SeamRepaired(isB, t, o)), replaced)
  }

  /** `appending(_:)`: `append` on a copy. */
  function Appending(isB: BoundaryOracle, t: Text, o: Text): (r: Text)
    requires AppendTextDefined(isB, t, o)
    ensures r.bytes == t.bytes + o.bytes
  {
    AppendText(isB, t, o).0
  }

  /** The run index recorded before the append still starts at the seam
      after the run append, so the repair grows the run before the seam. */
  predicate SeamRunKept(t: Text, o: Text)
    requires AppendDefined(t.runs, o.runs)
  {
    var rs := RunsOf(Append(t.runs, o.runs));
    0 < |RunsOf(t.runs)| <= |rs| && Start(rs, |RunsOf(t.runs)|) == |t.bytes|
  }

  /** Appending valid texts gives a valid text when the seam is a grapheme
      boundary, or when the recorded run index still starts at the seam. */
  lemma AppendTextValid(isB: BoundaryOracle, t: Text, o: Text)
    requires Valid(t) && Valid(o) && AppendTextDefined(isB, t, o)
    requires IsEmpty(o) || IsBoundary(isB, t.bytes + o.bytes, |t.bytes|) || SeamRunKept(t, o)
    ensures Valid(AppendText(isB, t, o).0)
  {
    if !IsEmpty(o) {
      var bytes := t.bytes + o.bytes;
      var c := Overrun(isB, bytes, |t.bytes|);
      var joined := Append(t.runs, o.runs);
      if joined.Rich? && |t.bytes| != 0 && c != 0 {
        FixAttrs(joined, |t.bytes|, |RunsOf(t.runs)|, c);
      }
    }
  }

  /** The run cases that keep the recorded run index at the seam: rich
      followed by rich text when no fold happens, and non-empty plain text
      followed by rich text whose first run has attributes. */
  lemma SeamRunKeptCases(t: Text, o: Text)
    requires Valid(t) && Valid(o) && !IsEmpty(t) && !IsEmpty(o) && AppendDefined(t.runs, o.runs)
    requires || (IsRich(t) && IsRich(o) && !LastRunsMatch(t.runs.rs, o.runs.rs))
             || (IsPlain(t) && IsRich(o) && o.runs.rs[0].attrs != map[])
    ensures SeamRunKept(t, o)
  {
    match t.runs
    case Rich(r1) =>
      StartIsPrefixTotal(r1 + o.runs.rs, |r1|);
      assert (r1 + o.runs.rs)[..|r1|] == r1;
    case Plain(n) =>
      assert Start([Run(n, map[])] + o.runs.rs, 1) == n;
  }

  /** Appending at a grapheme boundary concatenates the attributes of the
      two texts, except that plain bytes after rich text take the attributes
      of its last run and a fold may recolour the last run of the receiver. */
  lemma AppendTextAttrs(isB: BoundaryOracle, t: Text, o: Text)
    requires Valid(t) && Valid(o) && AppendTextDefined(isB, t, o) && !IsEmpty(o)
    requires IsBoundary(isB, t.bytes + o.bytes, |t.bytes|)
    requires !(IsRich(t) && IsPlain(o)) && !FoldMisattributes(t.runs, o.runs)
    ensures Attrs(AppendText(isB, t, o).0) == Attrs(t) + Attrs(o)
  {
    AppendAttrs(t.runs, o.runs);
  }

  /** The seam repair on the clean path: the bytes of the cluster that runs
      past the seam take the attributes of the receiver's last run, and the
      run boundary that was at the seam moves to the next grapheme boundary. */
  lemma AppendTextRepairsSeam(isB: BoundaryOracle, t: Text, o: Text)
    requires Valid(t) && Valid(o) && AppendTextDefined(isB, t, o)
    requires !IsEmpty(t) && !IsEmpty(o) && IsRich(t) && IsRich(o)
    requires !LastRunsMatch(t.runs.rs, o.runs.rs)
    ensures var bytes := t.bytes + o.bytes;
      var c := Overrun(isB, bytes, |t.bytes|);
      var r := AppendText(isB, t, o).0;
      && IsBoundary(isB, bytes, |t.bytes| + c)
      && Attrs(r) == Attrs(t) + Repeat(t.runs.rs[|t.runs.rs| - 1].attrs, c) + Attrs(o)[c..]
  {
    var r1 := t.runs.rs;
    var r2 := o.runs.rs;
    var c := Overrun(isB, t.bytes + o.bytes, |t.bytes|);
    SeamRunKeptCases(t, o);
    assert Append(t.runs, o.runs) == Rich(r1 + r2);
    assert (r1 + r2)[|r1| - 1] == r1[|r1| - 1];
    RepairConcat(r1, r2, c);
  }

  /** The seam repair on two concatenated run lists, byte by byte. */
  lemma RepairConcat(r1: seq<Run>, r2: seq<Run>, c: nat)
    requires |r1| > 0 && 0 < Total(r1) && c <= Total(r2)
    ensures var r := FixRunBoundariesAfterAppending(Rich(r1 + r2), Total(r1), |r1|, c);
      AttrsOf(r) == Expand(r1) + Repeat(r1[|r1| - 1].attrs, c) + Expand(r2)[c..]
  {
    if c > 0 {
      ExpandConcatSlices(r1, r2, c);
      RepairConcatFix(r1, r2, c);
    } else {
      ExpandAppend(r1, r2);
      assert Expand(r2)[c..] == Expand(r2);
    }
  }

  /** The per-byte views of `r1` and of `r2` less its first `c` bytes, as
      slices of the per-byte view of `r1 + r2`. */
  lemma ExpandConcatSlices(r1: seq<Run>, r2: seq<Run>, c: nat)
    requires c <= Total(r2)
    ensures Total(r1) + c <= |Expand(r1 + r2)|
    ensures Expand(r1 + r2)[..Total(r1)] == Expand(r1)
    ensures Expand(r1 + r2)[Total(r1) + c..] == Expand(r2)[c..]
  {
    ExpandAppend(r1, r2);
    ConcatSlices(Expand(r1), Expand(r2), c);
  }

  /** `FixAttrs` at the seam of two concatenated run lists. */
  lemma RepairConcatFix(r1: seq<Run>, r2: seq<Run>, c: nat)
    requires |r1| > 0 && 0 < Total(r1) && 0 < c <= Total(r2)
    ensures Total(r1 + r2) == Total(r1) + Total(r2)
    ensures var xs := Expand(r1 + r2);
      AttrsOf(FixRunBoundariesAfterAppending(Rich(r1 + r2), Total(r1), |r1|, c))
      == xs[..Total(r1)] + Repeat(r1[|r1| - 1].attrs, c) + xs[Total(r1) + c..]
  {
    SeamStart(r1, r2);
    FixAttrs(Rich(r1 + r2), Total(r1), |r1|, c);
  }

  /** Where the runs of `r2` start in `r1 + r2`. */
  lemma SeamStart(r1: seq<Run>, r2: seq<Run>)
    requires |r1| > 0
    ensures Total(r1 + r2) == Total(r1) + Total(r2)
    ensures Start(r1 + r2, |r1|) == Total(r1)
    ensures (r1 + r2)[|r1| - 1] == r1[|r1| - 1]
  {
    TotalAppend(r1, r2);
    StartIsPrefixTotal(r1 + r2, |r1|);
    assert (r1 + r2)[..|r1|] == r1;
  }

  lemma ConcatSlices<T>(a: seq<T>, b: seq<T>, c: nat)
    requires c <= |b|
    ensures (a + b)[..|a|] == a && (a + b)[|a| + c..] == b[c..]
  {
  }

  // ---------------------------------------------------------------------
  // replaceSubrange, insert, prepend

  /** Rich text replacing part of plain text first makes the receiver rich. */
  function Upgrade(t: Text, s: Text): (u: Text)
    ensures u.bytes == t.bytes
    ensures IsRich(u) <==> IsRich(t) || IsRich(s)
    ensures Valid(t) ==> Valid(u) && Attrs(u) == Attrs(t)
  {
    if IsRich(s) && IsPlain(t) then AsRich(t) else t
  }

  /** `replaceSubrange(_:with:)` traps where one of its two splits or two
      appends does. */
  predicate ReplaceDefined(isB: BoundaryOracle, t: Text, lo: nat, hi: nat, s: Text)
  {
    && lo <= hi <= |t.bytes|
    && var u := Upgrade(t, s);
       && SplitTextDefined(u, hi)
       && var head := SplitText(u, hi).0;
          && SplitTextDefined(head, lo)
          && var kept := SplitText(head, lo).0;
             && AppendTextDefined(isB, kept, s)
             && AppendTextDefined(isB, AppendText(isB, kept, s).0, SplitText(u, hi).1)
  }

  /** `replaceSubrange(_:with:)`: split off the tail at `hi`, count the
      characters before `lo` in what is left, split off the replaced text at
      `lo`, then append the new text and the tail. */
  function ReplaceSubrange(isB: BoundaryOracle, t: Text, lo: nat, hi: nat, s: Text): (res: (Text, Replaced))
    requires ReplaceDefined(isB, t, lo, hi, s)
    ensures res.0.bytes == t.bytes[..lo] + s.bytes + t.bytes[hi..]
    ensures res.1.at == CharCount(isB, t.bytes[..hi], lo)
    ensures res.1.replaced.bytes == t.bytes[lo..hi]
    ensures res.1.inserted == s
  {
    var u := Upgrade(t, s);
    var (head, tail) := SplitText(u, hi);
    var at := CharCount(isB, head.bytes, lo);
    var (kept, replaced) := SplitText(head, lo);
    var withS := AppendText(isB, kept, s).0;
    var r := AppendText(isB, withS, tail).0;
    assert t.bytes[..hi][..lo] == t.bytes[..lo];
    assert t.bytes[..hi][lo..] == t.bytes[lo..hi];
    (r, Replaced(at, replaced, s))
  }

  /** Replacing within plain text by plain text never traps and gives
      plain text over the new string. */
  lemma ReplacePlain(isB: BoundaryOracle, t: Text, lo: nat, hi: nat, s: Text)
    requires Valid(t) && Valid(s) && IsPlain(t) && IsPlain(s) && lo <= hi <= |t.bytes|
    ensures ReplaceDefined(isB, t, lo, hi, s)
    ensures ReplaceSubrange(isB, t, lo, hi, s).0 == Init(t.bytes[..lo] + s.bytes + t.bytes[hi..])
  {
    var (head, tail) := SplitText(t, hi);
    var kept := SplitText(head, lo).0;
    assert kept == Init(t.bytes[..lo]) by {
      assert t.bytes[..hi][..lo] == t.bytes[..lo];
    }
    var withS := AppendText(isB, kept, s).0;
    assert withS == Init(t.bytes[..lo] + s.bytes);
  }

  /** Appending does not trap and keeps the text valid when the seam is a
      grapheme boundary, unless plain text is appended to empty rich text. */
  lemma AppendAtBoundary(isB: BoundaryOracle, t: Text, o: Text)
    requires Valid(t) && Valid(o)
    requires IsBoundary(isB, t.bytes + o.bytes, |t.bytes|)
    requires !(IsRich(t) && IsEmpty(t) && IsPlain(o) && !IsEmpty(o))
    ensures AppendTextDefined(isB, t, o)
    ensures Valid(AppendText(isB, t, o).0)
    ensures !IsEmpty(o) ==> (IsRich(AppendText(isB, t, o).0) <==> IsRich(t) || IsRich(o))
  {
    if !IsEmpty(o) {
      assert IsRich(t) && !IsEmpty(t) ==> t.runs.rs != [];
      assert IsRich(o) ==> o.runs.rs != [];
      AppendTextValid(isB, t, o);
    }
  }

  /** Cutting valid text where no run is cut in two does not trap. */
  lemma SplitTextAtBoundary(t: Text, k: nat)
    requires Valid(t) && k <= |t.bytes|
    requires IsPlain(t) || !Straddles(t.runs.rs, k)
    ensures SplitTextDefined(t, k)
  {
    if IsRich(t) && 0 < k < |t.bytes| {
      SplitDefinedAtBoundary(t.runs.rs, k);
    }
  }

  /** The two splits of `replaceSubrange(_:with:)` between run boundaries
      do not trap and leave valid text before `lo` and from `hi` on. */
  lemma ReplaceSplits(t: Text, lo: nat, hi: nat, s: Text)
    requires Valid(t) && lo <= hi <= |t.bytes|
    requires var u := Upgrade(t, s);
      IsPlain(u) || (!Straddles(u.runs.rs, lo) && !Straddles(u.runs.rs, hi))
    ensures var u := Upgrade(t, s);
      && SplitTextDefined(u, hi)
      && var (head, tail) := SplitText(u, hi);
         && SplitTextDefined(head, lo)
         && var kept := SplitText(head, lo).0;
            && Valid(kept) && Valid(tail)
            && kept.bytes == t.bytes[..lo] && tail.bytes == t.bytes[hi..]
            && (IsPlain(tail) && !IsEmpty(tail) ==> IsPlain(kept) && IsPlain(s))
            && (IsRich(kept) && IsEmpty(kept) ==> IsEmpty(t) && (IsRich(t) || IsRich(s)))
  {
    ReplaceSplitsValid(t, lo, hi, s);
    ReplaceSplitsKinds(t, lo, hi, s);
  }

  /** Both splits of `ReplaceSplits` are defined and keep the bytes. */
  lemma ReplaceSplitsValid(t: Text, lo: nat, hi: nat, s: Text)
    requires Valid(t) && lo <= hi <= |t.bytes|
    requires var u := Upgrade(t, s);
      IsPlain(u) || (!Straddles(u.runs.rs, lo) && !Straddles(u.runs.rs, hi))
    ensures var u := Upgrade(t, s);
      && SplitTextDefined(u, hi)
      && var (head, tail) := SplitText(u, hi);
         && SplitTextDefined(head, lo)
         && var kept := SplitText(head, lo).0;
            && Valid(kept) && Valid(tail)
            && kept.bytes == t.bytes[..lo] && tail.bytes == t.bytes[hi..]
  {
    var u := Upgrade(t, s);
    SplitTextAtBoundary(u, hi);
    SplitTextValid(u, hi);
    var (head, tail) := SplitText(u, hi);
    assert IsRich(head) ==> !Straddles(head.runs.rs, lo) by {
      if IsRich(u) && 0 < hi < |u.bytes| {
        var (p, q) := Split(u.runs, hi);
        assert p.rs + q.rs == u.runs.rs;
        StraddlesAppend(p.rs, q.rs, lo);
      }
    }
    SplitTextAtBoundary(head, lo);
    SplitTextValid(head, lo);
    assert t.bytes[..hi][..lo] == t.bytes[..lo];
  }

  /** The kinds of the pieces the splits of `ReplaceSplits` leave. */
  lemma ReplaceSplitsKinds(t: Text, lo: nat, hi: nat, s: Text)
    requires Valid(t) && lo <= hi <= |t.bytes|
    requires var u := Upgrade(t, s);
      IsPlain(u) || (!Straddles(u.runs.rs, lo) && !Straddles(u.runs.rs, hi))
    ensures var u := Upgrade(t, s);
      && SplitTextDefined(u, hi)
      && var (head, tail) := SplitText(u, hi);
         && SplitTextDefined(head, lo)
         && var kept := SplitText(head, lo).0;
            && (IsPlain(tail) && !IsEmpty(tail) ==> IsPlain(kept) && IsPlain(s))
            && (IsRich(kept) && IsEmpty(kept) ==> IsEmpty(t) && (IsRich(t) || IsRich(s)))
  {
    ReplaceSplitsValid(t, lo, hi, s);
  }

  /** Replacing between run boundaries, with grapheme boundaries at both
      seams, never traps and keeps the text valid, unless plain text is
      inserted into empty rich text. */
  lemma ReplaceValid(isB: BoundaryOracle, t: Text, lo: nat, hi: nat, s: Text)
    requires Valid(t) && Valid(s) && lo <= hi <= |t.bytes|
    requires var u := Upgrade(t, s);
      IsPlain(u) || (!Straddles(u.runs.rs, lo) && !Straddles(u.runs.rs, hi))
    requires IsBoundary(isB, t.bytes[..lo] + s.bytes, lo)
    requires IsBoundary(isB, t.bytes[..lo] + s.bytes + t.bytes[hi..], lo + |s.bytes|)
    requires !(IsRich(t) && IsEmpty(t) && IsPlain(s) && !IsEmpty(s))
    ensures ReplaceDefined(isB, t, lo, hi, s)
    ensures Valid(ReplaceSubrange(isB, t, lo, hi, s).0)
  {
    ReplaceSplits(t, lo, hi, s);
    var u := Upgrade(t, s);
    var (head, tail) := SplitText(u, hi);
    ReplaceAppends(isB, SplitText(head, lo).0, s, tail);
  }

  /** The two appends of `replaceSubrange(_:with:)` with grapheme
      boundaries at both seams. */
  lemma ReplaceAppends(isB: BoundaryOracle, kept: Text, s: Text, tail: Text)
    requires Valid(kept) && Valid(s) && Valid(tail)
    requires IsBoundary(isB, kept.bytes + s.bytes, |kept.bytes|)
    requires IsBoundary(isB, kept.bytes + s.bytes + tail.bytes, |kept.bytes| + |s.bytes|)
    requires !(IsRich(kept) && IsEmpty(kept) && IsPlain(s) && !IsEmpty(s))
    requires IsPlain(tail) && !IsEmpty(tail) ==> IsPlain(kept) && IsPlain(s)
    ensures AppendTextDefined(isB, kept, s)
    ensures AppendTextDefined(isB, AppendText(isB, kept, s).0, tail)
    ensures Valid(AppendText(isB, AppendText(isB, kept, s).0, tail).0)
  {
    AppendAtBoundary(isB, kept, s);
    AppendAtBoundary(isB, AppendText(isB, kept, s).0, tail);
  }

  /** `insert(_:at:)`: replace the empty range at `k`. */
  function Insert(isB: BoundaryOracle, t: Text, k: nat, s: Text): (res: (Text, Replaced))
    requires ReplaceDefined(isB, t, k, k, s)
    ensures res.0.bytes == t.bytes[..k] + s.bytes + t.bytes[k..]
    ensures res.1.at == CharCount(isB, t.bytes[..k], k)
    ensures res.1.replaced.bytes == [] && res.1.inserted == s
  {
    ReplaceSubrange(isB, t, k, k, s)
  }

  /** `prepend(_:)`: insert at the start. */
  function Prepend(isB: BoundaryOracle, t: Text, s: Text): (res: (Text, Replaced))
    requires ReplaceDefined(isB, t, 0, 0, s)
    ensures res.0.bytes == s.bytes + t.bytes
    ensures res.1.at == 0 && res.1.replaced.bytes == [] && res.1.inserted == s
  {
    var res := Insert(isB, t, 0, s);
    EmptyPrefix(t.bytes, s.bytes);
    res
  }

  lemma EmptyPrefix<T>(a: seq<T>, b: seq<T>)
    ensures a[..0] + b + a[0..] == b + a
  {
  }

  // ---------------------------------------------------------------------
  // Attribute queries

  /** The run scan of an attribute lookup traps when no run reaches the
      offset. */
  predicate LookupDefined(t: Text, k: nat)
  {
    k <= |t.bytes| && k <= Length(t.runs) && |RunsOf(t.runs)| > 0
  }

  /** `attributes(at:affinity:)`: the attributes of the byte before offset
      `k` upstream and of the byte after it downstream, clamped to the text. */
  function AttributesAtPosition(t: Text, k: nat, aff: Affinity): (a: Attributes)
    requires LookupDefined(t, k)
    ensures Valid(t) ==> |t.bytes| > 0 && a == Attrs(t)[SelectedByte(k, |t.bytes|, aff)]
  {
    assert Valid(t) ==> NoEmpty(RunsOf(t.runs));
    AttributesAt(t.runs, k, aff)
  }

  /** `attribute(_:at:affinity:)`: one attribute of the selected byte. */
  function Attribute(t: Text, name: string, k: nat, aff: Affinity): (v: Option<string>)
    requires LookupDefined(t, k)
    ensures Valid(t) ==> var a := Attrs(t)[SelectedByte(k, |t.bytes|, aff)];
      && (v.Some? <==> name in a)
      && (v.Some? ==> v.value == a[name])
  {
    var a := AttributesAtPosition(t, k, aff);
    if name in a then Some(a[name]) else None
  }

  /** `longestEffectiveRange(at:affinity:where:)`: the affinity is not
      passed on to the run scan, so the run is always found upstream. */
  function LongestEffectiveRangeWhere(t: Text, k: nat, aff: Affinity, pred: Attributes -> bool): (res: Option<ByteRange>)
    requires LookupDefined(t, k)
    ensures res.None? <==> !pred(AttributesAtPosition(t, k, Upstream))
    ensures res.Some? ==> res.value.lo <= k <= res.value.hi <= Length(t.runs)
    ensures res.Some? && Valid(t) ==>
      && MaximalSpan(Attrs(t), res.value.lo, res.value.hi, pred)
      && res.value.lo <= SelectedByte(k, |t.bytes|, Upstream) < res.value.hi
  {
    assert Valid(t) ==> NoEmpty(RunsOf(t.runs));
    LongestEffectiveRange(t.runs, k, Upstream, pred)
  }

  /** `longestEffectiveRange(at:affinity:)`: the span of bytes whose
      attributes equal those found at `k` with the given affinity. As the
      span is sought upstream, it is missing exactly when the two lookups
      disagree, which cannot happen upstream. */
  function LongestEffectiveRangeExact(t: Text, k: nat, aff: Affinity): (res: Option<ByteRange>)
    requires LookupDefined(t, k)
    ensures res.None? <==> AttributesAtPosition(t, k, Upstream) != AttributesAtPosition(t, k, aff)
    ensures aff == Upstream ==> res.Some?
    ensures res.Some? ==> res.value.lo <= k <= res.value.hi <= Length(t.runs)
  {
    var seek := AttributesAtPosition(t, k, aff);
    LongestEffectiveRangeWhere(t, k, aff, a => a == seek)
  }

  /** In valid text the exact-match span is the maximal block of bytes
      around the byte before `k` carrying the sought attributes. */
  lemma LongestEffectiveRangeExactSpan(t: Text, k: nat, aff: Affinity)
    requires LookupDefined(t, k) && Valid(t)
    requires LongestEffectiveRangeExact(t, k, aff).Some?
    ensures var res := LongestEffectiveRangeExact(t, k, aff).value;
      var seek := AttributesAtPosition(t, k, aff);
      && res.lo <= SelectedByte(k, |t.bytes|, Upstream) < res.hi
      && (forall j :: res.lo <= j < res.hi ==> Attrs(t)[j] == seek)
      && (res.lo > 0 ==> Attrs(t)[res.lo - 1] != seek)
      && (res.hi < |t.bytes| ==> Attrs(t)[res.hi] != seek)
  {
    var seek := AttributesAtPosition(t, k, aff);
    var pred := (a: Attributes) => a == seek;
    assert LongestEffectiveRangeExact(t, k, aff) == LongestEffectiveRangeWhere(t, k, aff, pred);
  }

  // ---------------------------------------------------------------------
  // Attribute edits

  /** `modifyAttributes(_:modify:)`: the runs covering `lo..<hi` get `f`
      applied to their attributes, every other byte keeps its attributes,
      and the text becomes rich with run boundaries at `lo` and `hi`. */
  function ModifyText(t: Text, lo: nat, hi: nat, f: Attributes -> Attributes): (r: Text)
    requires lo <= hi <= |t.bytes|
    ensures r.bytes == t.bytes
    ensures Valid(t) ==> Valid(r) && Attrs(r) == Remap(Attrs(t), lo, hi, f)
    ensures Valid(t) && 0 < hi ==> IsRich(r)
    ensures Valid(t) && IsRich(r) ==> !Straddles(r.runs.rs, lo) && !Straddles(r.runs.rs, hi)
  {
    Text(t.bytes, ModifyAttributes(t.runs, lo, hi, f))
  }

  /** `addAttribute(_:value:range:)`. */
  function AddAttribute(t: Text, name: string, value: string, lo: nat, hi: nat): (r: Text)
    requires lo <= hi <= |t.bytes|
    ensures r.bytes == t.bytes
    ensures Valid(t) ==> Valid(r) && forall j :: 0 <= j < |t.bytes| ==>
      Attrs(r)[j] == if lo <= j < hi then Attrs(t)[j][name := value] else Attrs(t)[j]
  {
    var f := (m: Attributes) => m[name := value];
    RemapAt(Attrs(t), lo, hi, f);
    ModifyText(t, lo, hi, f)
  }

  /** `addAttributes(_:range:)`: the new values win over existing ones. */
  function AddAttributes(t: Text, attrs: Attributes, lo: nat, hi: nat): (r: Text)
    requires lo <= hi <= |t.bytes|
    ensures r.bytes == t.bytes
    ensures Valid(t) ==> Valid(r) && forall j :: 0 <= j < |t.bytes| ==>
      Attrs(r)[j] == if lo <= j < hi then Attrs(t)[j] + attrs else Attrs(t)[j]
  {
    var f := (m: Attributes) => m + attrs;
    RemapAt(Attrs(t), lo, hi, f);
    ModifyText(t, lo, hi, f)
  }

  /** `removeAttribute(_:range:)`. */
  function RemoveAttribute(t: Text, name: string, lo: nat, hi: nat): (r: Text)
    requires lo <= hi <= |t.bytes|
    ensures r.bytes == t.bytes
    ensures Valid(t) ==> Valid(r) && forall j :: 0 <= j < |t.bytes| ==>
      Attrs(r)[j] == if lo <= j < hi then Attrs(t)[j] - {name} else Attrs(t)[j]
  {
    var f := (m: Attributes) => m - {name};
    RemapAt(Attrs(t), lo, hi, f);
    ModifyText(t, lo, hi, f)
  }

  /** `removeAttributes(_:range:)`: every listed name is removed. */
  function RemoveAttributes(t: Text, names: seq<string>, lo: nat, hi: nat): (r: Text)
    requires lo <= hi <= |t.bytes|
    ensures r.bytes == t.bytes
    ensures Valid(t) ==> Valid(r) && forall j :: 0 <= j < |t.bytes| ==>
      Attrs(r)[j] == if lo <= j < hi then Attrs(t)[j] - (set n | n in names) else Attrs(t)[j]
  {
    var f := (m: Attributes) => m - (set n | n in names);
    RemapAt(Attrs(t), lo, hi, f);
    ModifyText(t, lo, hi, f)
  }

  /** `setAttributes(_:range:)`: the range's attributes are replaced. */
  function SetAttributes(t: Text, attrs: Attributes, lo: nat, hi: nat): (r: Text)
    requires lo <= hi <= |t.bytes|
    ensures r.bytes == t.bytes
    ensures Valid(t) ==> Valid(r) && forall j :: 0 <= j < |t.bytes| ==>
      Attrs(r)[j] == if lo <= j < hi then attrs else Attrs(t)[j]
  {
    var f := (m: Attributes) => attrs;
    RemapAt(Attrs(t), lo, hi, f);
    ModifyText(t, lo, hi, f)
  }

  // ---------------------------------------------------------------------
  // transformRuns

  /** The callback of `transformRuns`: given a run's substring and
      attributes, it returns the attributes to use and either a new string
      or nothing, which keeps the substring. */
  type Transform = (seq<byte>, Attributes) -> (Option<seq<byte>>, Attributes)

  /** The string one run contributes. */
  function Emit(cb: Transform, p: (Run, seq<byte>)): seq<byte>
  {
    var (out, _) := cb(p.1, p.0.attrs);
    match out
    case None => p.1
    case Some(str) => str
  }

  /** The strings all runs contribute, in order. */
  function Emitted(cb: Transform, ps: seq<(Run, seq<byte>)>): seq<byte>
  {
    if ps == [] then [] else Emit(cb, ps[0]) + Emitted(cb, ps[1..])
  }

  /** What one run contributes, as text carrying the returned attributes. */
  function PieceText(cb: Transform, p: (Run, seq<byte>)): (pt: Text)
    ensures Valid(pt) && IsRich(pt) && pt.bytes == Emit(cb, p)
    ensures |pt.runs.rs| <= 1
    ensures Attrs(pt) == Repeat(cb(p.1, p.0.attrs).1, |Emit(cb, p)|)
  {
    InitWithAttributes(Emit(cb, p), cb(p.1, p.0.attrs).1)
  }

  /** The text being built: still the empty plain text it started as, or
      rich text over some bytes. */
  predicate Accumulating(acc: Text)
  {
    acc == Init([]) || (IsRich(acc) && Length(acc.runs) > 0)
  }

  /** Appending a piece to the text being built never traps and keeps it
      accumulating. */
  lemma BuildStep(isB: BoundaryOracle, acc: Text, piece: Text)
    requires Accumulating(acc) && Valid(piece) && IsRich(piece) && |piece.runs.rs| <= 1
    ensures AppendTextDefined(isB, acc, piece)
    ensures Accumulating(AppendText(isB, acc, piece).0)
  {
    if !IsEmpty(piece) {
      if IsRich(acc) {
        var r1 := acc.runs.rs;
        var r2 := piece.runs.rs;
        assert |Append(acc.runs, piece.runs).rs| >= |r1| by {
          if LastRunsMatch(r1, r2) {
            assert |FoldLastIntoFirst(r1, r2)| == |r1| - 1 + |r2|;
          }
        }
      }
    }
  }

  lemma ConcatAssoc<T>(a: seq<T>, b: seq<T>, c: seq<T>)
    ensures (a + b) + c == a + (b + c)
  {
  }

  /** The loop of `transformRuns`: append each piece's text in turn. */
  function Build(isB: BoundaryOracle, acc: Text, ps: seq<(Run, seq<byte>)>, cb: Transform): (r: Text)
    requires Accumulating(acc)
    ensures Accumulating(r)
    ensures r.bytes == acc.bytes + Emitted(cb, ps)
    decreases |ps|
  {
    if ps == [] then acc
    else
      var piece := PieceText(cb, ps[0]);
      BuildStep(isB, acc, piece);
      var next := AppendText(isB, acc, piece).0;
      var r := Build(isB, next, ps[1..], cb);
      ConcatAssoc(acc.bytes, Emit(cb, ps[0]), Emitted(cb, ps[1..]));
      r
  }

  /** The attribute maps the callback returns, one per byte it emits. */
  function EmittedAttrs(cb: Transform, ps: seq<(Run, seq<byte>)>): (xs: seq<Attributes>)
    ensures |xs| == |Emitted(cb, ps)|
  {
    if ps == [] then []
    else Repeat(cb(ps[0].1, ps[0].0.attrs).1, |Emit(cb, ps[0])|) + EmittedAttrs(cb, ps[1..])
  }

  /** Each piece is appended at a grapheme boundary of the text built so
      far followed by that piece, so no seam repair moves a run end. */
  predicate SeamsAtBoundaries(isB: BoundaryOracle, built: seq<byte>, cb: Transform, ps: seq<(Run, seq<byte>)>)
    decreases |ps|
  {
    ps == [] ||
    (var next := built + Emit(cb, ps[0]);
     IsBoundary(isB, next, |built|) && SeamsAtBoundaries(isB, next, cb, ps[1..]))
  }

  /** When every seam is a grapheme boundary, the built text is valid and
      each byte carries the attributes the callback returned for its run. */
  lemma {:induction false} BuildAttrs(isB: BoundaryOracle, acc: Text, ps: seq<(Run, seq<byte>)>, cb: Transform)
    requires Accumulating(acc) && Valid(acc)
    requires SeamsAtBoundaries(isB, acc.bytes, cb, ps)
    ensures Valid(Build(isB, acc, ps, cb))
    ensures Attrs(Build(isB, acc, ps, cb)) == Attrs(acc) + EmittedAttrs(cb, ps)
    decreases |ps|
  {
    if ps != [] {
      var piece := PieceText(cb, ps[0]);
      BuildStep(isB, acc, piece);
      var next := AppendText(isB, acc, piece).0;
      var mine := Repeat(cb(ps[0].1, ps[0].0.attrs).1, |Emit(cb, ps[0])|);
      if IsEmpty(piece) {
        assert next == acc && mine == [];
      } else {
        AppendTextValid(isB, acc, piece);
        assert !FoldMisattributes(acc.runs, piece.runs) by {
          if IsRich(acc) && LastRunsMatch(acc.runs.rs, piece.runs.rs) {
            assert |piece.runs.rs| == 1;
          }
        }
        AppendTextAttrs(isB, acc, piece);
      }
      BuildAttrs(isB, next, ps[1..], cb);
      ConcatAssoc(Attrs(acc), mine, EmittedAttrs(cb, ps[1..]));
    }
  }

  /** `transformRuns` reads the runs of the slice paired with their bytes,
      which traps when the runs reach past the slice's string. */
  predicate PiecesDefined(t: Text, lo: nat, hi: nat)
  {
    SliceDefined(t, lo, hi) && Length(Slice(t, lo, hi).runs) <= hi - lo
  }

  /** The text the callback produces for the slice `lo..<hi`. */
  function Transformed(isB: BoundaryOracle, t: Text, lo: nat, hi: nat, cb: Transform): (r: Text)
    requires PiecesDefined(t, lo, hi)
    ensures Accumulating(r)
    ensures var slice := Slice(t, lo, hi);
      r.bytes == Emitted(cb, RunsWithSubstrings(slice.runs, slice.bytes))
  {
    var slice := Slice(t, lo, hi);
    Build(isB, Init([]), RunsWithSubstrings(slice.runs, slice.bytes), cb)
  }

  /** When every seam is a grapheme boundary, the inserted text is valid
      and carries, byte by byte, the attributes the callback returned. */
  lemma TransformedAttrs(isB: BoundaryOracle, t: Text, lo: nat, hi: nat, cb: Transform)
    requires PiecesDefined(t, lo, hi)
    requires var slice := Slice(t, lo, hi);
      SeamsAtBoundaries(isB, [], cb, RunsWithSubstrings(slice.runs, slice.bytes))
    ensures var slice := Slice(t, lo, hi);
      var r := Transformed(isB, t, lo, hi, cb);
      Valid(r) && Attrs(r) == EmittedAttrs(cb, RunsWithSubstrings(slice.runs, slice.bytes))
  {
    var slice := Slice(t, lo, hi);
    BuildAttrs(isB, Init([]), RunsWithSubstrings(slice.runs, slice.bytes), cb);
  }

  predicate TransformDefined(isB: BoundaryOracle, t: Text, lo: nat, hi: nat, cb: Transform)
  {
    PiecesDefined(t, lo, hi) && ReplaceDefined(isB, t, lo, hi, Transformed(isB, t, lo, hi, cb))
  }

  /** `transformRuns(_:callback:)`: the slice `lo..<hi` is replaced by the
      concatenation of what the callback makes of each of its runs. */
  function TransformRuns(isB: BoundaryOracle, t: Text, lo: nat, hi: nat, cb: Transform): (res: (Text, Replaced))
    requires TransformDefined(isB, t, lo, hi, cb)
    ensures var ps := RunsWithSubstrings(Slice(t, lo, hi).runs, t.bytes[lo..hi]);
      res.0.bytes == t.bytes[..lo] + Emitted(cb, ps) + t.bytes[hi..]
    ensures res.1.replaced.bytes == t.bytes[lo..hi]
    ensures res.1.inserted == Transformed(isB, t, lo, hi, cb)
  {
    ReplaceSubrange(isB, t, lo, hi, Transformed(isB, t, lo, hi, cb))
  }

  lemma SliceRejoin<T>(xs: seq<T>, lo: nat, hi: nat)
    requires lo <= hi <= |xs|
    ensures xs[..lo] + xs[lo..hi] + xs[hi..] == xs
  {
  }

  /** The callback that returns nothing and keeps the attributes. */
  function KeepRun(str: seq<byte>, a: Attributes): (res: (Option<seq<byte>>, Attributes))
    ensures res.0.None? && res.1 == a
  {
    (None, a)
  }

  /** With `KeepRun` each run contributes its own substring. */
  lemma {:induction false} EmittedKeepRun(ps: seq<(Run, seq<byte>)>)
    ensures Emitted(KeepRun, ps) == Joined(ps)
    decreases |ps|
  {
    if ps != [] {
      EmittedKeepRun(ps[1..]);
    }
  }

  /** With a callback that changes nothing, `transformRuns` over a slice
      whose runs cover it leaves the string as it was. */
  lemma TransformKeepRunKeepsBytes(isB: BoundaryOracle, t: Text, lo: nat, hi: nat)
    requires TransformDefined(isB, t, lo, hi, KeepRun)
    requires Length(Slice(t, lo, hi).runs) == hi - lo
    ensures TransformRuns(isB, t, lo, hi, KeepRun).0.bytes == t.bytes
  {
    var slice := Slice(t, lo, hi);
    var ps := RunsWithSubstrings(slice.runs, slice.bytes);
    EmittedKeepRun(ps);
    assert Joined(ps) == t.bytes[lo..hi];
    SliceRejoin(t.bytes, lo, hi);
  }
}
