/** The run algebra of Sources/Text/Text+Runs.swift.

    `Runs` is either untracked text of `n` bytes or an explicit sequence of
    runs. Every operation works in byte offsets; each trap of the source
    (an index out of range, a `fatalError`) is a precondition here. */
module RunList {
  import opened RunBasics

  /** `Text.Runs`: `plainText(n)` or `richText(runs)`. */
  datatype Runs = Plain(n: nat) | Rich(rs: seq<Run>)

  /** A byte span `lo..<hi`. */
  datatype ByteRange = ByteRange(lo: nat, hi: nat)

  /** Number of bytes the run list covers. */
  function Length(r: Runs): nat
  {
    match r
    case Plain(n) => n
    case Rich(rs) => Total(rs)
  }

  /** `runs`: plain text becomes one run with no attributes (none at all
      when it is empty); rich text is its own run sequence. */
  function RunsOf(r: Runs): (rs: seq<Run>)
    ensures Total(rs) == Length(r)
    ensures r.Plain? ==> NoEmpty(rs) && Expand(rs) == Repeat(map[], r.n)
    ensures r.Plain? ==> |rs| == (if r.n == 0 then 0 else 1)
    ensures r.Rich? ==> rs == r.rs
  {
    match r
    case Plain(n) =>
      if n == 0 then []
      else
        ExpandSingle(Run(n, map[]));
        [Run(n, map[])]
    case Rich(rs) => rs
  }

  /** The attribute map of every byte. */
  function AttrsOf(r: Runs): (xs: seq<Attributes>)
    ensures |xs| == Length(r)
  {
    Expand(RunsOf(r))
  }

  /** The byte whose attributes a lookup at offset `byte` reports when no
      run is empty: the byte before the offset upstream, the byte after it
      downstream, clamped to the text. */
  function SelectedByte(byte: nat, total: nat, aff: Affinity): (j: nat)
    requires byte <= total && total > 0
    ensures j < total
  {
    match aff
    case Upstream => if byte == 0 then 0 else byte - 1
    case Downstream => if byte == total then byte - 1 else byte
  }

  /** `attributes(at:affinity:)`: the attributes of the run holding `byte`;
      at an exact run end upstream keeps that run and downstream takes the
      next one, clamped at the last run. */
  function AttributesAt(r: Runs, byte: nat, aff: Affinity): (a: Attributes)
    requires |RunsOf(r)| > 0 && byte <= Length(r)
    ensures a == RunsOf(r)[Locate(RunsOf(r), byte, aff)].attrs
    ensures NoEmpty(RunsOf(r)) ==> a == AttrsOf(r)[SelectedByte(byte, Length(r), aff)]
  {
    var rs := RunsOf(r);
    LocateSelects(rs, byte, aff);
    rs[Locate(rs, byte, aff)].attrs
  }

  /** With no empty run, the run location picks the run of the selected byte. */
  lemma LocateSelects(rs: seq<Run>, byte: nat, aff: Affinity)
    requires |rs| > 0 && byte <= Total(rs)
    ensures NoEmpty(rs) ==>
      Expand(rs)[SelectedByte(byte, Total(rs), aff)] == rs[Locate(rs, byte, aff)].attrs
  {
    if NoEmpty(rs) {
      var i := Locate(rs, byte, aff);
      var j := SelectedByte(byte, Total(rs), aff);
      EndIsNextStart(rs, |rs| - 1);
      StartAll(rs);
      ExpandInRun(rs, i, j);
    }
  }

  // ---------------------------------------------------------------------
  // longestEffectiveRange

  /** Index of the first run of the block of runs satisfying `pred` that
      ends with run `i` (the first `while` loop). */
  function ExtendDown(rs: seq<Run>, i: nat, pred: Attributes -> bool): (mn: nat)
    requires i < |rs|
    ensures mn <= i
    ensures forall j :: mn <= j < i ==> pred(rs[j].attrs)
    ensures mn == 0 || !pred(rs[mn - 1].attrs)
  {
    if i > 0 && pred(rs[i - 1].attrs) then ExtendDown(rs, i - 1, pred) else i
  }

  /** Index of the last run of the block of runs satisfying `pred` that
      starts with run `i` (the second `while` loop). */
  function ExtendUp(rs: seq<Run>, i: nat, pred: Attributes -> bool): (mx: nat)
    requires i < |rs|
    ensures i <= mx < |rs|
    ensures forall j :: i < j <= mx ==> pred(rs[j].attrs)
    ensures mx == |rs| - 1 || !pred(rs[mx + 1].attrs)
    decreases |rs| - i
  {
    if i < |rs| - 1 && pred(rs[i + 1].attrs) then ExtendUp(rs, i + 1, pred) else i
  }

  /** `lo..<hi` is a maximal span of `xs` whose every element satisfies `pred`. */
  predicate MaximalSpan(xs: seq<Attributes>, lo: nat, hi: nat, pred: Attributes -> bool)
  {
    && lo <= hi <= |xs|
    && (forall j :: lo <= j < hi ==> pred(xs[j]))
    && (lo > 0 ==> !pred(xs[lo - 1]))
    && (hi < |xs| ==> !pred(xs[hi]))
  }

  /** `longestEffectiveRange(at:affinity:where:)`: nothing when the run at
      `byte` fails `pred`, otherwise the byte span of the adjacent runs
      around it that all satisfy `pred`. */
  function LongestEffectiveRange(r: Runs, byte: nat, aff: Affinity, pred: Attributes -> bool): (res: Option<ByteRange>)
    requires |RunsOf(r)| > 0 && byte <= Length(r)
    ensures res.None? <==> !pred(AttributesAt(r, byte, aff))
    ensures res.Some? ==> res.value.lo <= byte <= res.value.hi <= Length(r)
    ensures res.Some? && NoEmpty(RunsOf(r)) ==>
      && MaximalSpan(AttrsOf(r), res.value.lo, res.value.hi, pred)
      && res.value.lo <= SelectedByte(byte, Length(r), aff) < res.value.hi
  {
    var rs := RunsOf(r);
    var i := Locate(rs, byte, aff);
    if !pred(rs[i].attrs) then None
    else
      var span := SpanOf(rs, i, pred);
      assert NoEmpty(rs) ==> Start(rs, i) <= SelectedByte(byte, Length(r), aff) < End(rs, i) by {
        SelectedInRun(rs, byte, aff);
      }
      Some(span)
  }

  /** The byte span of the runs around run `i` that all satisfy `pred`:
      `ExtendDown` and `ExtendUp` find the first and last of them. */
  function SpanOf(rs: seq<Run>, i: nat, pred: Attributes -> bool): (res: ByteRange)
    requires i < |rs| && pred(rs[i].attrs)
    ensures res.lo <= Start(rs, i) && End(rs, i) <= res.hi <= Total(rs)
    ensures NoEmpty(rs) ==> MaximalSpan(Expand(rs), res.lo, res.hi, pred)
  {
    var mn := ExtendDown(rs, i, pred);
    var mx := ExtendUp(rs, i, pred);
    SpanAround(rs, i, mn, mx, pred);
    ByteRange(Start(rs, mn), End(rs, mx))
  }

  /** With no empty run, the byte a lookup selects lies in the located run. */
  lemma SelectedInRun(rs: seq<Run>, byte: nat, aff: Affinity)
    requires |rs| > 0 && byte <= Total(rs)
    ensures NoEmpty(rs) ==>
      var i := Locate(rs, byte, aff);
      Start(rs, i) <= SelectedByte(byte, Total(rs), aff) < End(rs, i)
  {
    EndIsNextStart(rs, |rs| - 1);
    StartAll(rs);
  }

  /** The runs `mn..mx` around run `i` cover a span containing run `i`;
      with no empty run, the span is maximal for `pred` byte by byte. */
  lemma SpanAround(rs: seq<Run>, i: nat, mn: nat, mx: nat, pred: Attributes -> bool)
    requires mn <= i <= mx < |rs|
    requires forall j :: mn <= j <= mx ==> pred(rs[j].attrs)
    requires mn == 0 || !pred(rs[mn - 1].attrs)
    requires mx == |rs| - 1 || !pred(rs[mx + 1].attrs)
    ensures Start(rs, mn) <= Start(rs, i) && End(rs, i) <= End(rs, mx)
    ensures NoEmpty(rs) ==> MaximalSpan(Expand(rs), Start(rs, mn), End(rs, mx), pred)
  {
    if mn < i { EndLeStart(rs, mn, i); }
    if i < mx { EndLeStart(rs, i, mx); }
    if NoEmpty(rs) {
      SpanCovered(rs, mn, mx, pred);
      SpanEdges(rs, mn, mx, pred);
    }
  }

  lemma SpanCovered(rs: seq<Run>, mn: nat, mx: nat, pred: Attributes -> bool)
    requires mn <= mx < |rs|
    requires forall j :: mn <= j <= mx ==> pred(rs[j].attrs)
    ensures End(rs, mx) <= |Expand(rs)|
    ensures forall j :: Start(rs, mn) <= j < End(rs, mx) ==> pred(Expand(rs)[j])
  {
    forall j | Start(rs, mn) <= j < End(rs, mx)
      ensures pred(Expand(rs)[j])
    {
      ExpandAt(rs, j);
      var k := Locate(rs, j + 1, Upstream);
      if k < mn { EndLeStart(rs, k, mn); }
      if k > mx { EndLeStart(rs, mx, k); }
      assert mn <= k <= mx;
    }
  }

  lemma SpanEdges(rs: seq<Run>, mn: nat, mx: nat, pred: Attributes -> bool)
    requires mn <= mx < |rs| && NoEmpty(rs)
    requires mn == 0 || !pred(rs[mn - 1].attrs)
    requires mx == |rs| - 1 || !pred(rs[mx + 1].attrs)
    ensures Start(rs, mn) > 0 ==> !pred(Expand(rs)[Start(rs, mn) - 1])
    ensures End(rs, mx) < Total(rs) ==> !pred(Expand(rs)[End(rs, mx)])
  {
    SpanLowEdge(rs, mn, pred);
    SpanHighEdge(rs, mx, pred);
  }

  lemma SpanLowEdge(rs: seq<Run>, mn: nat, pred: Attributes -> bool)
    requires mn < |rs| && NoEmpty(rs) && (mn == 0 || !pred(rs[mn - 1].attrs))
    ensures Start(rs, mn) > 0 ==> !pred(Expand(rs)[Start(rs, mn) - 1])
  {
    if Start(rs, mn) > 0 {
      EndIsNextStart(rs, mn - 1);
      assert rs[mn - 1].len > 0;
      ExpandInRun(rs, mn - 1, Start(rs, mn) - 1);
    }
  }

  lemma SpanHighEdge(rs: seq<Run>, mx: nat, pred: Attributes -> bool)
    requires mx < |rs| && NoEmpty(rs) && (mx == |rs| - 1 || !pred(rs[mx + 1].attrs))
    ensures End(rs, mx) < Total(rs) ==> !pred(Expand(rs)[End(rs, mx)])
  {
    if End(rs, mx) < Total(rs) {
      if mx == |rs| - 1 {
        StartAll(rs);
        EndIsNextStart(rs, mx);
      } else {
        EndIsNextStart(rs, mx);
        EndIsNextStart(rs, mx + 1);
        assert rs[mx + 1].len > 0;
        ExpandInRun(rs, mx + 1, End(rs, mx));
      }
    }
  }

  // ---------------------------------------------------------------------
  // append

  /** `append` traps on an empty run list it indexes: plain+rich and
      rich+plain read a first or last run, and rich+rich with both lists
      empty compares two missing runs equal and then reads `runs2[0]`. */
  predicate AppendDefined(a: Runs, b: Runs)
  {
    match (a, b)
    case (Plain(_), Plain(_)) => true
    case (Plain(_), Rich(rs)) => |rs| > 0
    case (Rich(rs), Plain(_)) => |rs| > 0
    case (Rich(r1), Rich(r2)) => |r1| > 0 || |r2| > 0
  }

  /** The rich+rich test of `append`: the last runs of both lists carry
      equal attributes (the source compares `runs1.last` with `runs2.last`). */
  predicate LastRunsMatch(r1: seq<Run>, r2: seq<Run>)
  {
    |r1| > 0 && |r2| > 0 && r1[|r1| - 1].attrs == r2[|r2| - 1].attrs
  }

  /** plain+rich branch of `append`: the plain bytes join the first run when
      it has no attributes, otherwise they become a new run before it. */
  function PlainThenRich(n1: nat, rs: seq<Run>): (res: seq<Run>)
    requires |rs| > 0
    ensures Total(res) == n1 + Total(rs)
    ensures Expand(res) == Repeat(map[], n1) + Expand(rs)
    ensures NoEmpty(rs) ==> NoEmpty(res)
  {
    ExpandCons(rs[0], rs[1..]);
    assert rs == [rs[0]] + rs[1..];
    if rs[0].attrs == map[] then
      var joined := Run(rs[0].len + n1, rs[0].attrs);
      ExpandCons(joined, rs[1..]);
      RepeatSplit(map[], n1, rs[0].len);
      [joined] + rs[1..]
    else if n1 > 0 then
      ExpandCons(Run(n1, map[]), rs);
      [Run(n1, map[])] + rs
    else rs
  }

  /** rich+plain branch of `append`: the last run grows by the plain bytes. */
  function RichThenPlain(rs: seq<Run>, n2: nat): (res: seq<Run>)
    requires |rs| > 0
    ensures Total(res) == Total(rs) + n2
    ensures Expand(res) == Expand(rs) + Repeat(rs[|rs| - 1].attrs, n2)
    ensures NoEmpty(rs) ==> NoEmpty(res)
  {
    var last := rs[|rs| - 1];
    var grown := Run(last.len + n2, last.attrs);
    SplitLast(rs);
    TotalAppend(rs[..|rs| - 1], [grown]);
    ExpandAppend(rs[..|rs| - 1], [grown]);
    ExpandSingle(grown);
    RepeatSplit(last.attrs, last.len, n2);
    rs[..|rs| - 1] + [grown]
  }

  /** rich+rich branch of `append` when the last runs match: the last run of
      `r1` is removed and its length added to the first run of `r2`, which
      keeps its own attributes. */
  function FoldLastIntoFirst(r1: seq<Run>, r2: seq<Run>): (res: seq<Run>)
    requires |r1| > 0 && |r2| > 0
    ensures Total(res) == Total(r1) + Total(r2)
    ensures Expand(res) ==
      Expand(r1[..|r1| - 1]) + Repeat(r2[0].attrs, r1[|r1| - 1].len) + Expand(r2)
    ensures Total(r1[..|r1| - 1]) == Total(r1) - r1[|r1| - 1].len
    ensures |res| == |r1| - 1 + |r2|
    ensures NoEmpty(r1) && NoEmpty(r2) ==> NoEmpty(res)
  {
    var init := r1[..|r1| - 1];
    var tail := LengthenFirst(r2, r1[|r1| - 1].len);
    SplitLast(r1);
    TotalAppend(init, tail);
    ExpandAppend(init, tail);
    init + tail
  }

  /** `r2` with its first run lengthened by `extra` bytes of its own attributes. */
  function LengthenFirst(r2: seq<Run>, extra: nat): (res: seq<Run>)
    requires |r2| > 0
    ensures |res| == |r2|
    ensures Total(res) == extra + Total(r2)
    ensures Expand(res) == Repeat(r2[0].attrs, extra) + Expand(r2)
    ensures NoEmpty(r2) ==> NoEmpty(res)
  {
    var merged := Run(r2[0].len + extra, r2[0].attrs);
    ExpandCons(r2[0], r2[1..]);
    assert r2 == [r2[0]] + r2[1..];
    ExpandCons(merged, r2[1..]);
    RepeatSplit(r2[0].attrs, extra, r2[0].len);
    [merged] + r2[1..]
  }

  /** `append(_:)`: plain+plain sums the lengths; plain text before rich
      text joins a leading run with no attributes or becomes one; plain text
      after rich text lengthens the last run; rich+rich concatenates, first
      folding the last run of `a` into the first run of `b` when the test
      above holds. */
  function Append(a: Runs, b: Runs): (r: Runs)
    requires AppendDefined(a, b)
    ensures Length(r) == Length(a) + Length(b)
    ensures a.Plain? && b.Plain? ==> r == Plain(a.n + b.n)
    ensures r.Rich? <==> a.Rich? || b.Rich?
    ensures r.Rich? && NoEmpty(RunsOf(a)) && NoEmpty(RunsOf(b)) ==> NoEmpty(r.rs)
  {
    match (a, b)
    case (Plain(n1), Plain(n2)) => Plain(n1 + n2)
    case (Plain(n1), Rich(rs)) => Rich(PlainThenRich(n1, rs))
    case (Rich(rs), Plain(n2)) => Rich(RichThenPlain(rs, n2))
    case (Rich(r1), Rich(r2)) =>
      if LastRunsMatch(r1, r2) then Rich(FoldLastIntoFirst(r1, r2))
      else
        TotalAppend(r1, r2);
        Rich(r1 + r2)
  }

  /** The rich+rich fold that gives the last run of `a` the attributes of
      the first run of `b` although they differ. */
  predicate FoldMisattributes(a: Runs, b: Runs)
  {
    a.Rich? && b.Rich? && LastRunsMatch(a.rs, b.rs) && b.rs[0].attrs != a.rs[|a.rs| - 1].attrs
  }

  /** Per-byte meaning of `append`: the bytes of `a` then the bytes of `b`,
      except that plain bytes appended to rich text take the attributes of
      its last run, and a misattributing fold recolours the last run of `a`. */
  lemma AppendAttrs(a: Runs, b: Runs)
    requires AppendDefined(a, b)
    ensures !(a.Rich? && b.Plain?) && !FoldMisattributes(a, b) ==>
      AttrsOf(Append(a, b)) == AttrsOf(a) + AttrsOf(b)
    ensures a.Rich? && b.Plain? ==>
      AttrsOf(Append(a, b)) == AttrsOf(a) + Repeat(a.rs[|a.rs| - 1].attrs, b.n)
    ensures FoldMisattributes(a, b) ==>
      var last := a.rs[|a.rs| - 1];
      && last.len <= Length(a)
      && AttrsOf(Append(a, b)) == AttrsOf(a)[..Length(a) - last.len] + Repeat(b.rs[0].attrs, last.len) + AttrsOf(b)
  {
    match (a, b)
    case (Plain(n1), Plain(n2)) =>
      RepeatSplit(map[], n1, n2);
    case (Plain(n1), Rich(rs)) =>
    case (Rich(rs), Plain(n2)) =>
    case (Rich(r1), Rich(r2)) =>
      if LastRunsMatch(r1, r2) {
        var init, last := r1[..|r1| - 1], r1[|r1| - 1];
        assert Expand(r1) == Expand(init) + Repeat(last.attrs, last.len) by {
          Decompose(r1, |r1| - 1);
        }
        assert Expand(r1)[..Total(r1) - last.len] == Expand(init) by {
          Decompose(r1, |r1| - 1);
          StartIsPrefixTotal(r1, |r1| - 1);
        }
      } else {
        ExpandAppend(r1, r2);
      }
  }

  // ---------------------------------------------------------------------
  // split(at:)

  /** `split(at:)` traps when the offset is past the end of a rich list (or
      the list is empty), and when it falls strictly inside the first run,
      where the prefix it builds has no last run to lengthen. */
  predicate SplitDefined(r: Runs, k: nat)
  {
    match r
    case Plain(n) => k <= n
    case Rich(rs) =>
      && |rs| > 0 && k <= Total(rs)
      && (End(rs, Locate(rs, k, Upstream)) == k || Locate(rs, k, Upstream) > 0)
  }

  /** The run-end branch of `split(at:)`: runs `0..i` stay, the rest go. */
  function CutAfterRun(rs: seq<Run>, i: nat): (res: (seq<Run>, seq<Run>))
    requires i < |rs|
    ensures res.0 + res.1 == rs
    ensures Total(res.0) == End(rs, i)
    ensures Total(res.1) == Total(rs) - End(rs, i)
    ensures NoEmpty(rs) ==> NoEmpty(res.0) && NoEmpty(res.1)
  {
    EndIsNextStart(rs, i);
    StartIsPrefixTotal(rs, i + 1);
    assert rs[..i + 1] + rs[i + 1..] == rs;
    TotalAppend(rs[..i + 1], rs[i + 1..]);
    (rs[..i + 1], rs[i + 1..])
  }

  /** Runs before run `i`, with run `i - 1` lengthened by `extra` bytes and
      dropped if that leaves it empty. */
  function GrowLast(rs: seq<Run>, i: nat, extra: nat): (p: seq<Run>)
    requires 0 < i <= |rs|
    ensures Total(p) == Start(rs, i) + extra
    ensures NoEmpty(rs) ==> NoEmpty(p)
  {
    var last := Run(rs[i - 1].len + extra, rs[i - 1].attrs);
    assert rs[..i] == rs[..i - 1] + [rs[i - 1]];
    StartIsPrefixTotal(rs, i);
    TotalAppend(rs[..i - 1], [rs[i - 1]]);
    TotalAppend(rs[..i - 1], [last]);
    if IsEmptyRun(last) then rs[..i - 1] else rs[..i - 1] + [last]
  }

  /** The per-byte view of `GrowLast`: the bytes before run `i`, then
      `extra` more bytes with the attributes of run `i - 1`. */
  lemma GrowLastAttrs(rs: seq<Run>, i: nat, extra: nat)
    requires 0 < i <= |rs|
    ensures Expand(GrowLast(rs, i, extra)) == Expand(rs)[..Start(rs, i)] + Repeat(rs[i - 1].attrs, extra)
  {
    var last := Run(rs[i - 1].len + extra, rs[i - 1].attrs);
    assert rs[..i] == rs[..i - 1] + [rs[i - 1]];
    StartIsPrefixTotal(rs, i);
    ExpandAppend(rs[..i - 1], [rs[i - 1]]);
    ExpandAppend(rs[..i - 1], [last]);
    ExpandSingle(last);
    ExpandSingle(rs[i - 1]);
    RepeatSplit(rs[i - 1].attrs, rs[i - 1].len, extra);
    ExpandBefore(rs, i);
  }

  /** The per-byte view of a run list that is `GrowLast` of another. */
  lemma GrowLastRunsAttrs(x: Runs, rs: seq<Run>, i: nat, extra: nat)
    requires 0 < i <= |rs| && x == Rich(GrowLast(rs, i, extra))
    ensures AttrsOf(x) == Expand(rs)[..Start(rs, i)] + Repeat(rs[i - 1].attrs, extra)
  {
    GrowLastAttrs(rs, i, extra);
  }

  /** Runs from run `i` on, with run `i` cut down to `keep` bytes and dropped
      if that leaves it empty. */
  function KeepHead(rs: seq<Run>, i: nat, keep: nat): (s: seq<Run>)
    requires i < |rs| && keep <= rs[i].len
    ensures Total(s) == keep + (Total(rs) - End(rs, i))
    ensures NoEmpty(rs) ==> NoEmpty(s)
  {
    var head := Run(keep, rs[i].attrs);
    Decompose(rs, i);
    if IsEmptyRun(head) then rs[i + 1..] else [head] + rs[i + 1..]
  }

  /** The per-byte view of `KeepHead`: `keep` bytes with the attributes of
      run `i`, then the bytes after run `i`. */
  lemma KeepHeadAttrs(rs: seq<Run>, i: nat, keep: nat)
    requires i < |rs| && keep <= rs[i].len
    ensures Expand(KeepHead(rs, i, keep)) == Repeat(rs[i].attrs, keep) + Expand(rs)[End(rs, i)..]
  {
    var head := Run(keep, rs[i].attrs);
    Decompose(rs, i);
    ExpandCons(head, rs[i + 1..]);
    ExpandAfter(rs, i);
  }

  /** `split(at:)`: the receiver keeps the prefix and the suffix is returned.
      At an exact run end the run list is cut there; strictly inside a run
      the run holding the cut gives the bytes after the cut to the run
      before it (`GrowLast`) and keeps the bytes before the cut (`KeepHead`). */
  function Split(r: Runs, k: nat): (res: (Runs, Runs))
    requires SplitDefined(r, k)
    ensures Length(res.0) + Length(res.1) == Length(r)
    ensures r.Plain? ==> res == (Plain(k), Plain(r.n - k))
    ensures r.Rich? ==> res.0.Rich? && res.1.Rich?
    ensures r.Rich? && NoEmpty(r.rs) ==> NoEmpty(res.0.rs) && NoEmpty(res.1.rs)
    ensures r.Rich? && !Straddles(r.rs, k) ==> res.0.rs + res.1.rs == r.rs && Length(res.0) == k
  {
    match r
    case Plain(n) => (Plain(k), Plain(n - k))
    case Rich(rs) =>
      var i := Locate(rs, k, Upstream);
      if End(rs, i) == k then
        var (p, s) := CutAfterRun(rs, i);
        (Rich(p), Rich(s))
      else
        assert Straddles(rs, k) by {
          StraddlesInRun(rs, k);
          assert Start(rs, i) < k < End(rs, i);
        }
        (Rich(GrowLast(rs, i, End(rs, i) - k)), Rich(KeepHead(rs, i, k - Start(rs, i))))
  }

  /** When the offset lies strictly inside a run, upstream location finds
      that run. */
  lemma LocateStraddled(rs: seq<Run>, k: nat)
    requires |rs| > 0 && k <= Total(rs) && Straddles(rs, k)
    ensures var i := Locate(rs, k, Upstream); Start(rs, i) < k < End(rs, i)
  {
    var i := Locate(rs, k, Upstream);
    StraddlesInRun(rs, k);
    var w :| 0 <= w < |rs| && Start(rs, w) < k < End(rs, w);
    if w < i { EndLeStart(rs, w, i); }
    if w > i { EndLeStart(rs, i, w); }
  }

  /** Strictly inside run `i`, `split(at:)` takes the branch that lengthens
      run `i - 1` and shortens run `i`; run `i` is never the first run. */
  lemma SplitInsideRunShape(rs: seq<Run>, k: nat)
    requires SplitDefined(Rich(rs), k) && Straddles(rs, k)
    ensures var i := Locate(rs, k, Upstream);
      && 0 < i && Start(rs, i) < k < End(rs, i)
      && Split(Rich(rs), k)
         == (Rich(GrowLast(rs, i, End(rs, i) - k)), Rich(KeepHead(rs, i, k - Start(rs, i))))
  {
    var i := Locate(rs, k, Upstream);
    LocateStraddled(rs, k);
    SplitInsideRunHalves(rs, k, i);
    SplitInsideRunHalvesSuffix(rs, k, i);
  }

  lemma SplitInsideRunHalves(rs: seq<Run>, k: nat, i: nat)
    requires SplitDefined(Rich(rs), k) && i == Locate(rs, k, Upstream)
    requires 0 < i && Start(rs, i) < k < End(rs, i)
    ensures Split(Rich(rs), k).0 == Rich(GrowLast(rs, i, End(rs, i) - k))
  {
  }

  lemma SplitInsideRunHalvesSuffix(rs: seq<Run>, k: nat, i: nat)
    requires SplitDefined(Rich(rs), k) && i == Locate(rs, k, Upstream)
    requires 0 < i && Start(rs, i) < k < End(rs, i)
    ensures Split(Rich(rs), k).1 == Rich(KeepHead(rs, i, k - Start(rs, i)))
  {
  }

  /** Lengths of the two halves `split(at:)` produces strictly inside run
      `i`: the prefix totals `k` only when the cut is the midpoint of run `i`. */
  lemma SplitInsideRunLengths(rs: seq<Run>, k: nat)
    requires SplitDefined(Rich(rs), k) && Straddles(rs, k)
    ensures var i := Locate(rs, k, Upstream);
      var (p, s) := Split(Rich(rs), k);
      && Length(p) == Start(rs, i) + End(rs, i) - k
      && Length(s) == (k - Start(rs, i)) + (Total(rs) - End(rs, i))
      && (Length(p) == k <==> 2 * k == Start(rs, i) + End(rs, i))
  {
    SplitInsideRunShape(rs, k);
  }

  /** The prefix `split(at:)` keeps when the cut is strictly inside run `i`:
      the bytes before run `i`, then as many bytes of run `i - 1`'s
      attributes as run `i` had after the cut. */
  lemma SplitInsideRunPrefix(rs: seq<Run>, k: nat)
    requires SplitDefined(Rich(rs), k) && Straddles(rs, k)
    ensures var i := Locate(rs, k, Upstream);
      0 < i && AttrsOf(Split(Rich(rs), k).0)
               == Expand(rs)[..Start(rs, i)] + Repeat(rs[i - 1].attrs, End(rs, i) - k)
  {
    var i := Locate(rs, k, Upstream);
    LocateStraddled(rs, k);
    SplitInsideRunHalves(rs, k, i);
    GrowLastRunsAttrs(Split(Rich(rs), k).0, rs, i, End(rs, i) - k);
    assert Locate(rs, k, Upstream) == i;
  }

  /** The suffix `split(at:)` returns when the cut is strictly inside run
      `i`: the bytes of run `i` before the cut, then the bytes after run `i`. */
  lemma SplitInsideRunSuffix(rs: seq<Run>, k: nat)
    requires SplitDefined(Rich(rs), k) && Straddles(rs, k)
    ensures var i := Locate(rs, k, Upstream);
      AttrsOf(Split(Rich(rs), k).1) == Repeat(rs[i].attrs, k - Start(rs, i)) + Expand(rs)[End(rs, i)..]
  {
    var i := Locate(rs, k, Upstream);
    LocateStraddled(rs, k);
    SplitInsideRunHalvesSuffix(rs, k, i);
    KeepHeadAttrs(rs, i, k - Start(rs, i));
  }

  /** At an existing run boundary `split(at:)` cuts the per-byte view there. */
  lemma SplitAtBoundary(r: Runs, k: nat)
    requires SplitDefined(r, k) && !Straddles(RunsOf(r), k)
    ensures var (p, s) := Split(r, k);
      Length(p) == k && AttrsOf(p) == AttrsOf(r)[..k] && AttrsOf(s) == AttrsOf(r)[k..]
  {
    match r
    case Plain(n) =>
    case Rich(rs) =>
      var (p, s) := Split(r, k);
      ExpandAppend(p.rs, s.rs);
  }

  /** `split(at:)` does not trap at a run boundary inside the runs. */
  lemma SplitDefinedAtBoundary(rs: seq<Run>, k: nat)
    requires 0 < k <= Total(rs) && !Straddles(rs, k)
    ensures SplitDefined(Rich(rs), k)
  {
    var i := Locate(rs, k, Upstream);
    if End(rs, i) != k {
      StraddlesInRun(rs, k);
      assert false;
    }
  }

  // ---------------------------------------------------------------------
  // fixRunBoundariesAfterAppending

  function Min(a: nat, b: nat): nat { if a <= b then a else b }

  /** The `while` loop of `fixRunBoundariesAfterAppending`: take `c` bytes
      away from the runs in order, each run giving up as many as it has;
      runs left empty stay in place. */
  function Consume(rs: seq<Run>, c: nat): (res: seq<Run>)
    ensures |res| == |rs|
    ensures forall j :: 0 <= j < |rs| ==> res[j].attrs == rs[j].attrs && res[j].len <= rs[j].len
    ensures Total(res) == Total(rs) - Min(c, Total(rs))
    decreases |rs|
  {
    if rs == [] || c == 0 then rs
    else
      var removed := Min(rs[0].len, c);
      var rest := Consume(rs[1..], c - removed);
      var head := Run(rs[0].len - removed, rs[0].attrs);
      TotalAppend([head], rest);
      [head] + rest
  }

  /** `Consume` drops the first `c` bytes of the per-byte view. */
  lemma {:induction false} ConsumeAttrs(rs: seq<Run>, c: nat)
    ensures Expand(Consume(rs, c)) == Expand(rs)[Min(c, Total(rs))..]
    decreases |rs|
  {
    if rs != [] && c != 0 {
      var removed := Min(rs[0].len, c);
      var rest := Consume(rs[1..], c - removed);
      var head := Run(rs[0].len - removed, rs[0].attrs);
      var dropped := Expand(rs[1..])[Min(c - removed, Total(rs[1..]))..];
      assert Expand(Consume(rs, c)) == Repeat(head.attrs, head.len) + Expand(rest) by {
        assert Consume(rs, c) == [head] + rest;
        ExpandCons(head, rest);
      }
      assert Expand(rest) == dropped by {
        ConsumeAttrs(rs[1..], c - removed);
      }
      assert Repeat(head.attrs, head.len) + dropped == Expand(rs)[Min(c, Total(rs))..] by {
        ConsumeFirst(rs, c);
      }
      Rejoin(Expand(Consume(rs, c)), Repeat(head.attrs, head.len), Expand(rest), dropped, Expand(rs)[Min(c, Total(rs))..]);
    }
  }

  /** The first run of `Consume` in the per-byte view. */
  lemma ConsumeFirst(rs: seq<Run>, c: nat)
    requires rs != [] && c > 0
    ensures var removed := Min(rs[0].len, c);
      Repeat(rs[0].attrs, rs[0].len - removed) + Expand(rs[1..])[Min(c - removed, Total(rs[1..]))..]
      == Expand(rs)[Min(c, Total(rs))..]
  {
    ExpandCons(rs[0], rs[1..]);
    assert rs == [rs[0]] + rs[1..];
    ConsumeStep(rs[0].attrs, rs[0].len, c, Expand(rs[1..]));
  }

  /** One step of `Consume` in the per-byte view. */
  lemma ConsumeStep(a: Attributes, len: nat, c: nat, tail: seq<Attributes>)
    requires c > 0
    ensures var removed := Min(len, c);
      Repeat(a, len - removed) + tail[Min(c - removed, |tail|)..]
      == (Repeat(a, len) + tail)[Min(c, len + |tail|)..]
  {
    var removed := Min(len, c);
    if c >= len {
      assert Repeat(a, len - removed) == [];
      assert (Repeat(a, len) + tail)[Min(c, len + |tail|)..] == tail[Min(c, len + |tail|) - len..];
    } else {
      assert Repeat(a, len) == Repeat(a, c) + Repeat(a, len - c) by { RepeatSplit(a, c, len - c); }
      assert (Repeat(a, len) + tail)[c..] == Repeat(a, len - c) + tail;
    }
  }

  /** The closing `filter`: the runs that are not empty, in order. */
  function DropEmpty(rs: seq<Run>): (res: seq<Run>)
    ensures Total(res) == Total(rs)
    ensures Expand(res) == Expand(rs)
    ensures NoEmpty(res)
    ensures |res| <= |rs|
    ensures NoEmpty(rs) ==> res == rs
    decreases |rs|
  {
    if rs == [] then []
    else
      var rest := DropEmpty(rs[1..]);
      ExpandCons(rs[0], rs[1..]);
      assert rs == [rs[0]] + rs[1..];
      if IsEmptyRun(rs[0]) then rest
      else
        ExpandCons(rs[0], rest);
        [rs[0]] + rest
  }

  /** `fixRunBoundariesAfterAppending` indexes `runs[atRun - 1]` when it
      repairs a seam. */
  predicate FixDefined(r: Runs, atByte: nat, atRun: nat, c: nat)
  {
    r.Rich? && atByte != 0 && c != 0 ==> 0 < atRun <= |r.rs|
  }

  /** `fixRunBoundariesAfterAppending(atByte:atRun:in:)`. The grapheme
      cluster that starts before the seam `atByte` runs `c` bytes past it
      (`c` comes from the boundary oracle). Plain text, a seam at the start
      and `c == 0` leave the runs alone; otherwise run `atRun - 1` grows by
      `c`, the runs from `atRun` on give up `c` bytes between them, and
      empty runs are dropped. */
  function FixRunBoundariesAfterAppending(r: Runs, atByte: nat, atRun: nat, c: nat): (res: Runs)
    requires FixDefined(r, atByte, atRun, c)
    ensures r.Plain? || atByte == 0 || c == 0 ==> res == r
    ensures res.Rich? <==> r.Rich?
    ensures r.Rich? && atByte != 0 && c != 0 ==>
      && Length(res) == Length(r) + c - Min(c, Total(r.rs[atRun..]))
      && NoEmpty(res.rs)
  {
    if r.Plain? || atByte == 0 || c == 0 then r
    else
      var rs := r.rs;
      var grown := GrowLast(rs, atRun, c);
      var rest := Consume(rs[atRun..], c);
      ExpandFrom(rs, atRun);
      TotalAppend(grown, rest);
      Rich(DropEmpty(grown + rest))
  }

  /** When `atRun` is the run that starts at the seam and the overrun fits
      in the bytes after it, the repair keeps the length and gives the `c`
      bytes after the seam the attributes of the run before it. */
  lemma FixAttrs(r: Runs, atByte: nat, atRun: nat, c: nat)
    requires r.Rich? && 0 < atRun <= |r.rs| && atByte == Start(r.rs, atRun) && 0 < atByte
    requires atByte + c <= Length(r)
    ensures var res := FixRunBoundariesAfterAppending(r, atByte, atRun, c);
      && Length(res) == Length(r)
      && AttrsOf(res) == AttrsOf(r)[..atByte] + Repeat(r.rs[atRun - 1].attrs, c) + AttrsOf(r)[atByte + c..]
  {
    var rs := r.rs;
    if c > 0 {
      var grown := GrowLast(rs, atRun, c);
      var rest := Consume(rs[atRun..], c);
      GrowLastAttrs(rs, atRun, c);
      ConsumeAttrs(rs[atRun..], c);
      ExpandFrom(rs, atRun);
      ExpandAppend(grown, rest);
      assert Min(c, Total(rs[atRun..])) == c;
      assert Expand(rest) == Expand(rs)[atByte + c..] by {
        assert Expand(rs[atRun..])[c..] == Expand(rs)[atByte..][c..];
      }
      assert FixRunBoundariesAfterAppending(r, atByte, atRun, c) == Rich(DropEmpty(grown + rest));
    }
  }

  // ---------------------------------------------------------------------
  // ensureBoundary(at:)

  /** The scan of `ensureBoundary(at:)` over a run sequence: the first run
      ending after `b` is split at `b` by `Run.split(index:)`; nothing
      happens when `b` is already a run boundary or past the end. */
  function InsertBoundary(rs: seq<Run>, b: nat): (res: Option<seq<Run>>)
    ensures res.None? <==> !Straddles(rs, b)
    ensures res.Some? ==>
      && |res.value| == |rs| + 1
      && Total(res.value) == Total(rs)
      && Expand(res.value) == Expand(rs)
      && (NoEmpty(rs) ==> NoEmpty(res.value))
    decreases |rs|
  {
    if rs == [] then None
    else if b < rs[0].len then
      NoStraddleBelow(rs[1..], b - rs[0].len);
      match SplitRun(rs[0], b)
      case None => None
      case Some((head, rest)) =>
        FirstRunSplit(rs, head, rest);
        Some([head, rest] + rs[1..])
    else
      match InsertBoundary(rs[1..], b - rs[0].len)
      case None => None
      case Some(v) =>
        FirstRunKept(rs, v);
        Some([rs[0]] + v)
  }

  /** Replacing the first run by two that cover the same bytes. */
  lemma FirstRunSplit(rs: seq<Run>, head: Run, rest: Run)
    requires rs != [] && Expand([head, rest]) == Expand([rs[0]])
    ensures Total([head, rest] + rs[1..]) == Total(rs) && Expand([head, rest] + rs[1..]) == Expand(rs)
  {
    var t := rs[1..];
    assert Total(rs) == Total([rs[0]]) + Total(t) && Expand(rs) == Expand([rs[0]]) + Expand(t) by {
      assert rs == [rs[0]] + t;
      TotalAppend([rs[0]], t);
      ExpandAppend([rs[0]], t);
    }
    assert Total([head, rest]) == Total([rs[0]]) by {
      assert |Expand([head, rest])| == |Expand([rs[0]])|;
    }
    TotalAppend([head, rest], t);
    ExpandAppend([head, rest], t);
  }

  /** Keeping the first run before a rest that covers the same bytes. */
  lemma FirstRunKept(rs: seq<Run>, v: seq<Run>)
    requires rs != [] && Total(v) == Total(rs[1..]) && Expand(v) == Expand(rs[1..])
    ensures Total([rs[0]] + v) == Total(rs) && Expand([rs[0]] + v) == Expand(rs)
  {
    ExpandCons(rs[0], rs[1..]);
    ExpandCons(rs[0], v);
    assert rs == [rs[0]] + rs[1..];
  }

  /** Inserting a boundary at `b` makes `b` a boundary and moves no other. */
  lemma {:induction false} InsertBoundaryOthers(rs: seq<Run>, b: nat, x: int)
    requires InsertBoundary(rs, b).Some?
    ensures Straddles(InsertBoundary(rs, b).value, x) <==> Straddles(rs, x) && x != b
    decreases |rs|
  {
    var v := InsertBoundary(rs, b).value;
    if b < rs[0].len {
      assert v == [Run(b, rs[0].attrs), Run(rs[0].len - b, rs[0].attrs)] + rs[1..];
      FirstRunCutStraddles(rs, b, x);
    } else {
      assert v == [rs[0]] + InsertBoundary(rs[1..], b - rs[0].len).value;
      InsertBoundaryOthers(rs[1..], b - rs[0].len, x - rs[0].len);
      assert v[1..] == InsertBoundary(rs[1..], b - rs[0].len).value;
    }
  }

  /** Cutting the first run at `b`: offset `b` no longer lies inside a run,
      and every other offset does exactly when it did. */
  lemma FirstRunCutStraddles(rs: seq<Run>, b: nat, x: int)
    requires rs != [] && 0 < b < rs[0].len
    ensures var v := [Run(b, rs[0].attrs), Run(rs[0].len - b, rs[0].attrs)] + rs[1..];
      Straddles(v, x) <==> Straddles(rs, x) && x != b
  {
    var head := Run(b, rs[0].attrs);
    var rest := Run(rs[0].len - b, rs[0].attrs);
    var v := [head, rest] + rs[1..];
    assert v[1..] == [rest] + rs[1..];
    assert v[1..][1..] == rs[1..];
    assert Straddles(v, x) <==> 0 < x < b || Straddles(v[1..], x - b);
    assert Straddles(v[1..], x - b) <==> 0 < x - b < rs[0].len - b || Straddles(rs[1..], x - rs[0].len);
    assert Straddles(rs, x) <==> 0 < x < rs[0].len || Straddles(rs[1..], x - rs[0].len);
    NoStraddleBelow(rs[1..], b - rs[0].len);
  }

  /** `ensureBoundary(at:)`: the runs unchanged when `b` is already a run
      boundary (or lies outside the text), otherwise rich runs with the run
      holding `b` cut in two there. Plain text that needs a cut becomes
      rich. */
  function EnsureBoundary(r: Runs, b: nat): (res: Runs)
    ensures !Straddles(RunsOf(r), b) <==> res == r
    ensures Length(res) == Length(r) && AttrsOf(res) == AttrsOf(r)
    ensures !Straddles(RunsOf(res), b)
    ensures r.Rich? ==> res.Rich?
    ensures res.Rich? && NoEmpty(RunsOf(r)) ==> NoEmpty(res.rs)
  {
    match InsertBoundary(RunsOf(r), b)
    case None => r
    case Some(v) =>
      InsertBoundaryOthers(RunsOf(r), b, b);
      assert Rich(v) != r by {
        if r.Rich? { assert |v| != |r.rs|; }
      }
      Rich(v)
  }

  /** A second `ensureBoundary` at the same offset changes nothing. */
  lemma EnsureBoundaryIdempotent(r: Runs, b: nat)
    ensures EnsureBoundary(EnsureBoundary(r, b), b) == EnsureBoundary(r, b)
  {
  }

  /** Only `b` changes from inside a run to a boundary. */
  lemma EnsureBoundaryOthers(r: Runs, b: nat, x: int)
    requires x != b
    ensures Straddles(RunsOf(EnsureBoundary(r, b)), x) <==> Straddles(RunsOf(r), x)
  {
    if InsertBoundary(RunsOf(r), b).Some? {
      InsertBoundaryOthers(RunsOf(r), b, x);
    }
  }

  // ---------------------------------------------------------------------
  // modifyAttributes

  /** `xs` with `f` applied to the elements at positions `lo..<hi`. */
  function Remap(xs: seq<Attributes>, lo: int, hi: int, f: Attributes -> Attributes): (ys: seq<Attributes>)
    ensures |ys| == |xs|
  {
    seq(|xs|, j requires 0 <= j < |xs| => if lo <= j < hi then f(xs[j]) else xs[j])
  }

  /** Element `j` of `Remap`: remapped inside `lo..<hi`, untouched outside. */
  lemma RemapAt(xs: seq<Attributes>, lo: int, hi: int, f: Attributes -> Attributes)
    ensures forall j :: 0 <= j < |xs| ==>
      Remap(xs, lo, hi, f)[j] == if lo <= j < hi then f(xs[j]) else xs[j]
  {
  }

  /** The `for` loop of `modifyAttributes` from a run starting at byte
      `start`: every run lying within `lo..<hi` is modified; the loop
      commits the runs when a run ends exactly at `hi`, and nothing is
      committed when none does. */
  function ModifyFrom(rs: seq<Run>, start: nat, lo: nat, hi: nat, f: Attributes -> Attributes): (res: Option<seq<Run>>)
    ensures res.Some? ==> |res.value| == |rs|
    decreases |rs|
  {
    if rs == [] then None
    else
      var end := start + rs[0].len;
      var run := if start >= lo && end <= hi then Run(rs[0].len, f(rs[0].attrs)) else rs[0];
      if hi == end then Some([run] + rs[1..])
      else
        match ModifyFrom(rs[1..], end, lo, hi, f)
        case None => None
        case Some(v) => Some([run] + v)
  }

  /** The loop commits exactly when some run ends at `hi`. */
  lemma {:induction false} ModifyFromCommits(rs: seq<Run>, start: nat, lo: nat, hi: nat, f: Attributes -> Attributes)
    ensures ModifyFrom(rs, start, lo, hi, f).Some? <==> exists i :: 0 <= i < |rs| && start + End(rs, i) == hi
    decreases |rs|
  {
    if rs != [] {
      ModifyFromCommits(rs[1..], start + rs[0].len, lo, hi, f);
      ModifyFromExists(rs, start, hi);
    }
  }

  /** What the loop commits, given run boundaries at `lo` and `hi`: the
      same run lengths, and the per-byte view with `f` applied to the bytes
      `lo..<hi`. */
  lemma {:induction false} ModifyFromExpand(rs: seq<Run>, start: nat, lo: nat, hi: nat, f: Attributes -> Attributes)
    requires lo <= hi
    requires !Straddles(rs, lo - start) && !Straddles(rs, hi - start)
    requires ModifyFrom(rs, start, lo, hi, f).Some?
    ensures var v := ModifyFrom(rs, start, lo, hi, f).value;
      && (forall j :: 0 <= j < |rs| ==> v[j].len == rs[j].len)
      && Expand(v) == Remap(Expand(rs), lo - start, hi - start, f)
    decreases |rs|
  {
    var end := start + rs[0].len;
    var run := if start >= lo && end <= hi then Run(rs[0].len, f(rs[0].attrs)) else rs[0];
    var v := ModifyFrom(rs, start, lo, hi, f).value;
    var tail := if hi == end then rs[1..] else ModifyFrom(rs[1..], end, lo, hi, f).value;
    assert v == [run] + tail;
    assert rs == [rs[0]] + rs[1..];
    if hi != end {
      ModifyFromExpand(rs[1..], end, lo, hi, f);
    } else {
      RemapTailUntouched(Expand(rs[1..]), lo - end, hi - end, f);
    }
    ModifyStep(rs[0], run, rs[1..], tail, start, lo, hi, f);
  }

  /** One run of the loop in the per-byte view: the modified first run
      followed by the remapped rest is the remapped whole. */
  lemma ModifyStep(r0: Run, run: Run, rest: seq<Run>, tail: seq<Run>, start: nat, lo: nat, hi: nat, f: Attributes -> Attributes)
    requires lo <= hi
    requires !(0 < lo - start < r0.len) && !(0 < hi - start < r0.len)
    requires run == if start >= lo && start + r0.len <= hi then Run(r0.len, f(r0.attrs)) else r0
    requires Expand(tail) == Remap(Expand(rest), lo - start - r0.len, hi - start - r0.len, f)
    ensures Expand([run] + tail) == Remap(Expand([r0] + rest), lo - start, hi - start, f)
  {
    ExpandCons(run, tail);
    HeadAndRest(r0, run, rest, tail, start, lo, hi, f);
  }

  /** The remapped whole as the modified first run and the remapped rest. */
  lemma HeadAndRest(r0: Run, run: Run, rest: seq<Run>, tail: seq<Run>, start: nat, lo: nat, hi: nat, f: Attributes -> Attributes)
    requires lo <= hi
    requires !(0 < lo - start < r0.len) && !(0 < hi - start < r0.len)
    requires run == if start >= lo && start + r0.len <= hi then Run(r0.len, f(r0.attrs)) else r0
    requires Expand(tail) == Remap(Expand(rest), lo - start - r0.len, hi - start - r0.len, f)
    ensures Remap(Expand([r0] + rest), lo - start, hi - start, f) == Repeat(run.attrs, run.len) + Expand(tail)
  {
    RemapRest(r0, rest, tail, lo - start, hi - start, f);
    ModifyHead(r0, run, start, lo, hi, f);
  }

  /** `Remap` over a run followed by the rest, with the rest's part known. */
  lemma RemapRest(r0: Run, rest: seq<Run>, tail: seq<Run>, lo: int, hi: int, f: Attributes -> Attributes)
    requires Expand(tail) == Remap(Expand(rest), lo - r0.len, hi - r0.len, f)
    ensures Remap(Expand([r0] + rest), lo, hi, f) == Remap(Repeat(r0.attrs, r0.len), lo, hi, f) + Expand(tail)
  {
    ExpandCons(r0, rest);
    RemapCons(r0.attrs, r0.len, Expand(rest), lo, hi, f);
  }

  /** Whether a run ends at `hi`, seen one run further on. */
  lemma ModifyFromExists(rs: seq<Run>, start: nat, hi: nat)
    requires rs != []
    ensures (exists i :: 0 <= i < |rs| && start + End(rs, i) == hi)
      <==> start + rs[0].len == hi
           || exists i :: 0 <= i < |rs[1..]| && start + rs[0].len + End(rs[1..], i) == hi
  {
    if exists i :: 0 <= i < |rs| && start + End(rs, i) == hi {
      var i :| 0 <= i < |rs| && start + End(rs, i) == hi;
      if i > 0 {
        assert start + rs[0].len + End(rs[1..], i - 1) == hi;
      }
    }
    if exists i :: 0 <= i < |rs[1..]| && start + rs[0].len + End(rs[1..], i) == hi {
      var i :| 0 <= i < |rs[1..]| && start + rs[0].len + End(rs[1..], i) == hi;
      assert start + End(rs, i + 1) == hi;
    }
    if start + rs[0].len == hi {
      assert start + End(rs, 0) == hi;
    }
  }

  /** The first run is modified exactly when all of its bytes lie in range,
      which, with no run boundary strictly inside it at `lo` or `hi`, is
      when any of them does. */
  lemma ModifyHead(r0: Run, run: Run, start: nat, lo: nat, hi: nat, f: Attributes -> Attributes)
    requires lo <= hi
    requires !(0 < lo - start < r0.len) && !(0 < hi - start < r0.len)
    requires run == if start >= lo && start + r0.len <= hi then Run(r0.len, f(r0.attrs)) else r0
    ensures run.len == r0.len
    ensures Repeat(run.attrs, run.len) == Remap(Repeat(r0.attrs, r0.len), lo - start, hi - start, f)
  {
    RemapAt(Repeat(r0.attrs, r0.len), lo - start, hi - start, f);
  }

  /** Past `hi` nothing is remapped. */
  lemma RemapTailUntouched(xs: seq<Attributes>, lo: int, hi: int, f: Attributes -> Attributes)
    requires hi <= 0
    ensures Remap(xs, lo, hi, f) == xs
  {
    RemapAt(xs, lo, hi, f);
  }

  /** `Remap` over a run's bytes followed by the rest. */
  lemma RemapCons(a: Attributes, n: nat, xs: seq<Attributes>, lo: int, hi: int, f: Attributes -> Attributes)
    ensures Remap(Repeat(a, n) + xs, lo, hi, f) == Remap(Repeat(a, n), lo, hi, f) + Remap(xs, lo - n, hi - n, f)
  {
    var l := Remap(Repeat(a, n) + xs, lo, hi, f);
    var r := Remap(Repeat(a, n), lo, hi, f) + Remap(xs, lo - n, hi - n, f);
    RemapAt(Repeat(a, n) + xs, lo, hi, f);
    RemapAt(Repeat(a, n), lo, hi, f);
    RemapAt(xs, lo - n, hi - n, f);
    forall j | 0 <= j < |l| ensures l[j] == r[j] {
      if j >= n {
        assert (Repeat(a, n) + xs)[j] == xs[j - n];
      }
    }
  }

  /** A boundary inside the text (or at its end) is where some run ends. */
  lemma BoundaryIsRunEnd(rs: seq<Run>, x: nat)
    requires 0 < x <= Total(rs) && !Straddles(rs, x)
    ensures exists i :: 0 <= i < |rs| && End(rs, i) == x
  {
    var i := Locate(rs, x, Upstream);
    StraddlesInRun(rs, x);
    assert End(rs, i) == x;
  }

  /** `modifyAttributes(_:modify:)`: boundaries are ensured at both ends of
      `lo..<hi`, then the loop modifies the runs within the range. When no
      run ends at `hi` (an empty range at the start, or a range past the
      end) the loop commits nothing and only the boundary cuts remain. */
  function ModifyAttributes(r: Runs, lo: nat, hi: nat, f: Attributes -> Attributes): (res: Runs)
    requires lo <= hi
    ensures Length(res) == Length(r)
    ensures hi <= Length(r) ==> AttrsOf(res) == Remap(AttrsOf(r), lo, hi, f)
    ensures hi > Length(r) ==> AttrsOf(res) == AttrsOf(r)
    ensures 0 < hi <= Length(r) ==> res.Rich?
    ensures res.Rich? && NoEmpty(RunsOf(r)) ==> NoEmpty(res.rs)
    ensures !Straddles(RunsOf(res), lo) && !Straddles(RunsOf(res), hi)
  {
    var e := EnsureBoundary(EnsureBoundary(r, lo), hi);
    EnsureBoth(r, lo, hi);
    match ModifyFrom(RunsOf(e), 0, lo, hi, f)
    case None =>
      ModifyUncommitted(RunsOf(e), lo, hi, f);
      e
    case Some(v) =>
      ModifyCommitted(RunsOf(e), lo, hi, f);
      Rich(v)
  }

  /** After both `ensureBoundary` calls, `lo` and `hi` are run boundaries. */
  lemma EnsureBoth(r: Runs, lo: nat, hi: nat)
    ensures var e := EnsureBoundary(EnsureBoundary(r, lo), hi);
      !Straddles(RunsOf(e), lo) && !Straddles(RunsOf(e), hi)
  {
    if lo != hi { EnsureBoundaryOthers(EnsureBoundary(r, lo), hi, lo); }
  }

  /** When the loop commits, `hi` lies within the text and the committed
      runs are the remapped view with the same boundaries. */
  lemma ModifyCommitted(rs: seq<Run>, lo: nat, hi: nat, f: Attributes -> Attributes)
    requires lo <= hi && !Straddles(rs, lo) && !Straddles(rs, hi)
    requires ModifyFrom(rs, 0, lo, hi, f).Some?
    ensures var v := ModifyFrom(rs, 0, lo, hi, f).value;
      && hi <= Total(rs)
      && Total(v) == Total(rs)
      && Expand(v) == Remap(Expand(rs), lo, hi, f)
      && (NoEmpty(rs) ==> NoEmpty(v))
      && !Straddles(v, lo) && !Straddles(v, hi)
  {
    var v := ModifyFrom(rs, 0, lo, hi, f).value;
    ModifyFromCommits(rs, 0, lo, hi, f);
    ModifyFromExpand(rs, 0, lo, hi, f);
    var i :| 0 <= i < |rs| && End(rs, i) == hi;
    SameLengthsSameCuts(rs, v, lo);
    SameLengthsSameCuts(rs, v, hi);
  }

  /** When the loop commits nothing and `hi` lies within the text, the range
      is empty at the very start, so there was nothing to modify. */
  lemma ModifyUncommitted(rs: seq<Run>, lo: nat, hi: nat, f: Attributes -> Attributes)
    requires lo <= hi && !Straddles(rs, hi)
    requires ModifyFrom(rs, 0, lo, hi, f).None?
    ensures hi <= Total(rs) ==> Remap(Expand(rs), lo, hi, f) == Expand(rs)
  {
    ModifyFromCommits(rs, 0, lo, hi, f);
    if 0 < hi <= Total(rs) { BoundaryIsRunEnd(rs, hi); }
    if hi == 0 { RemapTailUntouched(Expand(rs), lo, hi, f); }
  }

  /** Run sequences with the same run lengths have the same boundaries. */
  lemma {:induction false} SameLengthsSameCuts(rs: seq<Run>, vs: seq<Run>, x: int)
    requires |rs| == |vs| && forall j :: 0 <= j < |rs| ==> rs[j].len == vs[j].len
    ensures Straddles(rs, x) <==> Straddles(vs, x)
    decreases |rs|
  {
    if rs != [] {
      SameLengthsSameCuts(rs[1..], vs[1..], x - rs[0].len);
    }
  }

  // ---------------------------------------------------------------------
  // runsWithSubstrings

  /** The pieces of `s` the runs cover, run by run. */
  function Pieces<T>(rs: seq<Run>, s: seq<T>): (ps: seq<(Run, seq<T>)>)
    requires Total(rs) <= |s|
    ensures |ps| == |rs|
    ensures forall j :: 0 <= j < |rs| ==> ps[j].0 == rs[j]
    ensures Joined(ps) == s[..Total(rs)]
    decreases |rs|
  {
    if rs == [] then []
    else
      var rest := Pieces(rs[1..], s[rs[0].len..]);
      var ps := [(rs[0], s[..rs[0].len])] + rest;
      assert ps[1..] == rest;
      assert s[..rs[0].len] + s[rs[0].len..][..Total(rs[1..])] == s[..Total(rs)];
      ps
  }

  /** Piece `j` is the part of `s` from the start to the end of run `j`. */
  lemma {:induction false} PiecesAt<T>(rs: seq<Run>, s: seq<T>, j: nat)
    requires Total(rs) <= |s| && j < |rs|
    ensures End(rs, j) <= |s| && Pieces(rs, s)[j].1 == s[Start(rs, j)..End(rs, j)]
    decreases j
  {
    var n := rs[0].len;
    if j == 0 {
      assert Pieces(rs, s)[0].1 == s[..n];
      assert s[..n] == s[0..n];
    } else {
      var t := s[n..];
      var a, b := Start(rs[1..], j - 1), End(rs[1..], j - 1);
      PiecesShift(rs, s, j);
      PiecesAt(rs[1..], t, j - 1);
      StartShift(rs, j);
      SliceOfSuffix(s, n, a, b);
      PieceGlue(Pieces(rs, s)[j].1, s, n, a, b, Start(rs, j), End(rs, j));
    }
  }

  /** Piece `j` is piece `j - 1` of the rest. */
  lemma PiecesShift<T>(rs: seq<Run>, s: seq<T>, j: nat)
    requires Total(rs) <= |s| && 0 < j < |rs|
    ensures Pieces(rs, s)[j].1 == Pieces(rs[1..], s[rs[0].len..])[j - 1].1
  {
  }

  /** Run `j` starts and ends one first run later than run `j - 1` of the rest. */
  lemma StartShift(rs: seq<Run>, j: nat)
    requires 0 < j < |rs|
    ensures Start(rs, j) == rs[0].len + Start(rs[1..], j - 1)
    ensures End(rs, j) == rs[0].len + End(rs[1..], j - 1)
  {
  }

  /** A piece of a suffix, located in the whole. */
  lemma PieceGlue<T>(p: seq<T>, s: seq<T>, n: nat, a: nat, b: nat, lo: nat, hi: nat)
    requires n <= |s| && a <= b <= |s| - n
    requires p == s[n..][a..b] && s[n..][a..b] == s[n + a..n + b]
    requires lo == n + a && hi == n + b
    ensures hi <= |s| && p == s[lo..hi]
  {
  }

  /** A slice of a suffix is a slice of the whole, shifted. */
  lemma SliceOfSuffix<T>(s: seq<T>, n: nat, a: nat, b: nat)
    requires n <= |s| && a <= b <= |s| - n
    ensures s[n..][a..b] == s[n + a..n + b]
  {
  }

  /** The substrings of a sequence of pieces, concatenated. */
  function Joined<T>(ps: seq<(Run, seq<T>)>): seq<T>
  {
    if ps == [] then [] else ps[0].1 + Joined(ps[1..])
  }

  /** `runsWithSubstrings(in:)`: each run paired with the part of the string
      it covers. */
  function RunsWithSubstrings<T>(r: Runs, s: seq<T>): (ps: seq<(Run, seq<T>)>)
    requires Length(r) <= |s|
    ensures |ps| == |RunsOf(r)|
    ensures forall j :: 0 <= j < |ps| ==> ps[j].0 == RunsOf(r)[j]
    ensures forall j :: 0 <= j < |ps| ==> ps[j].1 == s[Start(RunsOf(r), j)..End(RunsOf(r), j)]
    ensures Joined(ps) == s[..Length(r)]
  {
    var rs := RunsOf(r);
    forall j | 0 <= j < |rs|
      ensures End(rs, j) <= |s| && Pieces(rs, s)[j].1 == s[Start(rs, j)..End(rs, j)]
    {
      PiecesAt(rs, s, j);
    }
    Pieces(rs, s)
  }
}
