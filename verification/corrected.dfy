/** Corrected versions of the run operations whose code does not do what
    the rest of the library expects of them, each next to a concrete input
    on which the code as written goes wrong, and the text operations built
    on the corrected versions. */
module Corrected {
  import opened RunBasics
  import opened RunList
  import opened Graphemes
  import opened AttributedText

  const X: Attributes := map["a" := "1"]
  const Y: Attributes := map["b" := "2"]

  // ---------------------------------------------------------------------
  // split(at:)

  /** `split(at:)` as intended: the prefix covers exactly the bytes before
      `k`. A cut inside a run first makes `k` a run boundary, the way
      `ensureBoundary` does, so nothing traps. */
  function SplitRuns(r: Runs, k: nat): (res: (Runs, Runs))
    requires k <= Length(r)
    ensures Length(res.0) == k && Length(res.1) == Length(r) - k
    ensures AttrsOf(res.0) == AttrsOf(r)[..k] && AttrsOf(res.1) == AttrsOf(r)[k..]
    ensures r.Plain? ==> res == (Plain(k), Plain(r.n - k))
    ensures r.Rich? ==> res.0.Rich? && res.1.Rich?
    ensures r.Rich? && NoEmpty(r.rs) ==> NoEmpty(res.0.rs) && NoEmpty(res.1.rs)
  {
    match r
    case Plain(n) => (Plain(k), Plain(n - k))
    case Rich(rs) =>
      if k == 0 then (Rich([]), r)
      else
        var e := EnsureBoundary(r, k);
        SplitDefinedAtBoundary(e.rs, k);
        SplitAtBoundary(e, k);
        Split(e, k)
  }

  /** Four bytes in two runs: one byte with `X`, then three with `Y`. */
  const Cut: seq<Run> := [Run(1, X), Run(3, Y)]

  /** Where offset 2 falls in `Cut`: strictly inside the second run. */
  lemma CutLayout()
    ensures Locate(Cut, 2, Upstream) == 1 && Straddles(Cut, 2)
    ensures SplitDefined(Rich(Cut), 2) && Start(Cut, 1) == 1 && End(Cut, 1) == 4
  {
    assert Cut[1..] == [Run(3, Y)];
  }

  lemma CutAttrs()
    ensures Expand(Cut) == [X, Y, Y, Y]
  {
    ExpandCons(Run(1, X), [Run(3, Y)]);
    ExpandSingle(Run(3, Y));
    assert [Run(1, X)] + [Run(3, Y)] == Cut;
  }

  /** The suffix `split(at:)` returns for `Cut` at 2 as written. */
  lemma CutAsWrittenSuffix()
    ensures SplitDefined(Rich(Cut), 2) && AttrsOf(Split(Rich(Cut), 2).1) == [Y]
  {
    CutLayout();
    SplitInsideRunSuffix(Cut, 2);
    assert Expand(Cut)[4..] == [];
    assert Repeat(Y, 1) == [Y];
  }

  /** As written, a cut inside a run after the first moves the difference
      to the previous run: cutting four bytes in two runs at 2 leaves a
      prefix of 3 bytes. */
  lemma SplitAsWrittenMisplacesCut()
    ensures var r := Rich([Run(1, X), Run(3, Y)]);
      && SplitDefined(r, 2)
      && Length(Split(r, 2).0) == 3
      && AttrsOf(Split(r, 2).1) == [Y]
      && Length(SplitRuns(r, 2).0) == 2
      && AttrsOf(SplitRuns(r, 2).1) == [Y, Y]
  {
    CutLayout();
    SplitInsideRunLengths(Cut, 2);
    CutAsWrittenSuffix();
    CutAttrs();
    assert AttrsOf(Rich(Cut))[2..] == [Y, Y];
  }

  /** As written, a cut strictly inside the first run traps (the code
      grows a previous run that does not exist). */
  lemma SplitAsWrittenTrapsInFirstRun()
    ensures !SplitDefined(Rich([Run(2, X)]), 1)
    ensures AttrsOf(SplitRuns(Rich([Run(2, X)]), 1).0) == [X]
  {
    ExpandSingle(Run(2, X));
  }

  // ---------------------------------------------------------------------
  // append(_:)

  /** Attributes of the last run, or none without runs. */
  function TrailingAttrs(rs: seq<Run>): Attributes
  {
    if rs == [] then map[] else rs[|rs| - 1].attrs
  }

  /** Concatenation that merges the two runs at the seam when they carry the
      same attributes. */
  function Join(r1: seq<Run>, r2: seq<Run>): (res: seq<Run>)
    ensures Total(res) == Total(r1) + Total(r2)
    ensures Expand(res) == Expand(r1) + Expand(r2)
    ensures NoEmpty(r1) && NoEmpty(r2) ==> NoEmpty(res)
    ensures |res| <= |r1| + |r2|
  {
    TotalAppend(r1, r2);
    ExpandAppend(r1, r2);
    if |r1| > 0 && |r2| > 0 && r1[|r1| - 1].attrs == r2[0].attrs then
      SplitLast(r1);
      FoldLastIntoFirst(r1, r2)
    else r1 + r2
  }

  /** `append(_:)` as intended: the last run of the receiver is compared
      with the first run appended, and empty rich text takes plain text. */
  function AppendRuns(a: Runs, b: Runs): (r: Runs)
    ensures Length(r) == Length(a) + Length(b)
    ensures r.Rich? <==> a.Rich? || b.Rich?
    ensures a.Plain? && b.Plain? ==> r == Plain(a.n + b.n)
    ensures !(a.Rich? && b.Plain?) ==> AttrsOf(r) == AttrsOf(a) + AttrsOf(b)
    ensures a.Rich? && b.Plain? ==> AttrsOf(r) == AttrsOf(a) + Repeat(TrailingAttrs(a.rs), b.n)
    ensures r.Rich? && NoEmpty(RunsOf(a)) && NoEmpty(RunsOf(b)) ==> NoEmpty(r.rs)
  {
    match (a, b)
    case (Plain(n1), Plain(n2)) => Plain(n1 + n2)
    case (Plain(_), Rich(rs)) => Rich(Join(RunsOf(a), rs))
    case (Rich(rs), Plain(n2)) =>
      if rs == [] then Rich(RunsOf(b)) else Rich(RichThenPlain(rs, n2))
    case (Rich(r1), Rich(r2)) => Rich(Join(r1, r2))
  }

  /** As written, the fold test compares the last runs of both lists and
      then recolours the receiver's last run with the attributes of the
      first run appended; and appending plain text to empty rich text
      traps. */
  lemma AppendAsWrittenMisattributesFold()
    ensures var a := Rich([Run(1, X)]);
      var b := Rich([Run(1, Y), Run(1, X)]);
      && AppendDefined(a, b)
      && AttrsOf(Append(a, b)) == [Y, Y, X]
      && AttrsOf(AppendRuns(a, b)) == [X, Y, X]
    ensures !AppendDefined(Rich([]), Plain(1))
    ensures AttrsOf(AppendRuns(Rich([]), Plain(1))) == [map[]]
  {
    var a := Rich([Run(1, X)]);
    var b := Rich([Run(1, Y), Run(1, X)]);
    assert X != Y by { assert "a" in X && "a" !in Y; }
    assert FoldMisattributes(a, b);
    AppendAttrs(a, b);
    ExpandSingle(Run(1, X));
    ExpandCons(Run(1, Y), [Run(1, X)]);
    assert [Run(1, Y)] + [Run(1, X)] == b.rs;
    assert Repeat(X, 1) == [X] && Repeat(Y, 1) == [Y];
    assert AttrsOf(a)[..0] == [];
    assert Repeat(map[], 1) == [map[]];
  }

  // ---------------------------------------------------------------------
  // fixRunBoundariesAfterAppending

  /** The seam repair as intended: the `c` bytes after `atByte` take the
      attributes of the byte before it, by lengthening the run holding that
      byte and shortening the runs after it. The run is found by position,
      not by a run count taken before the append. */
  function RepairSeam(r: Runs, atByte: nat, c: nat): (res: Runs)
    requires r.Rich? && NoEmpty(r.rs) && 0 < atByte && atByte + c <= Length(r)
    ensures res.Rich? && NoEmpty(res.rs) && Length(res) == Length(r)
  {
    var rs := r.rs;
    var i := Locate(rs, atByte, Upstream);
    if atByte + c <= End(rs, i) then r
    else
      var extra := atByte + c - End(rs, i);
      EndIsNextStart(rs, i);
      FixAttrs(r, End(rs, i), i + 1, extra);
      FixRunBoundariesAfterAppending(r, End(rs, i), i + 1, extra)
  }

  /** Byte by byte, the repair gives the `c` bytes after the seam the
      attributes of the byte before it and leaves every other byte alone. */
  lemma RepairSeamAttrs(r: Runs, atByte: nat, c: nat)
    requires r.Rich? && NoEmpty(r.rs) && 0 < atByte && atByte + c <= Length(r)
    ensures var xs := AttrsOf(r);
      AttrsOf(RepairSeam(r, atByte, c)) == xs[..atByte] + Repeat(xs[atByte - 1], c) + xs[atByte + c..]
  {
    var rs := r.rs;
    var i := Locate(rs, atByte, Upstream);
    ExpandInRun(rs, i, atByte - 1);
    if atByte + c <= End(rs, i) {
      RepairInsideRun(rs, i, atByte, c);
    } else {
      var extra := atByte + c - End(rs, i);
      EndIsNextStart(rs, i);
      FixAttrs(r, End(rs, i), i + 1, extra);
      RepairPastRun(rs, i, atByte, c);
    }
  }

  /** When the cluster ends inside the run holding the byte before the seam,
      its bytes already carry that run's attributes. */
  lemma RepairInsideRun(rs: seq<Run>, i: nat, atByte: nat, c: nat)
    requires i < |rs| && Start(rs, i) < atByte && atByte + c <= End(rs, i)
    ensures var xs := Expand(rs);
      xs == xs[..atByte] + Repeat(rs[i].attrs, c) + xs[atByte + c..]
  {
    var xs := Expand(rs);
    forall j | atByte <= j < atByte + c
      ensures xs[j] == rs[i].attrs
    {
      ExpandInRun(rs, i, j);
    }
    SameInside(xs, rs[i].attrs, atByte, c);
  }

  /** Bytes `lo..<lo + c` that all carry `a` are `c` copies of `a`. */
  lemma SameInside(xs: seq<Attributes>, a: Attributes, lo: nat, c: nat)
    requires lo + c <= |xs|
    requires forall j :: lo <= j < lo + c ==> xs[j] == a
    ensures xs == xs[..lo] + Repeat(a, c) + xs[lo + c..]
  {
    assert xs[lo..lo + c] == Repeat(a, c);
    assert xs == xs[..lo] + xs[lo..lo + c] + xs[lo + c..];
  }

  /** When the cluster runs past that run, the bytes of the run after the
      seam and the grown bytes together are `c` copies of its attributes. */
  lemma RepairPastRun(rs: seq<Run>, i: nat, atByte: nat, c: nat)
    requires i < |rs| && Start(rs, i) < atByte <= End(rs, i) < atByte + c
    ensures var xs := Expand(rs);
      xs[..End(rs, i)] + Repeat(rs[i].attrs, atByte + c - End(rs, i))
      == xs[..atByte] + Repeat(rs[i].attrs, c)
  {
    var xs := Expand(rs);
    forall j | atByte <= j < End(rs, i)
      ensures xs[j] == rs[i].attrs
    {
      ExpandInRun(rs, i, j);
    }
    SameToEnd(xs, rs[i].attrs, atByte, End(rs, i), c);
  }

  /** Bytes `lo..<e` that all carry `a`, followed by more copies of `a`
      up to `lo + c`. */
  lemma SameToEnd(xs: seq<Attributes>, a: Attributes, lo: nat, e: nat, c: nat)
    requires lo <= e <= |xs| && e < lo + c
    requires forall j :: lo <= j < e ==> xs[j] == a
    ensures xs[..e] + Repeat(a, lo + c - e) == xs[..lo] + Repeat(a, c)
  {
    assert xs[lo..e] == Repeat(a, e - lo);
    assert xs[..e] == xs[..lo] + xs[lo..e];
    RepeatSplit(a, e - lo, lo + c - e);
  }

  /** As written, the repair uses the run count the receiver had before the
      append. Rich "e" followed by plain U+0302 (bytes CC 82, one cluster
      with the "e") merges into one run; the recorded index then points past
      the runs and the repair grows the last run a second time, so the runs
      cover 5 bytes of a 3-byte string. The intended repair keeps 3. */
  lemma FixAsWrittenOvercounts()
    ensures var isB: BoundaryOracle := (bs: seq<byte>, k: nat) => false;
      var t := InitWithAttributes([0x65], X);
      var o := Init([0xCC, 0x82]);
      && AppendTextDefined(isB, t, o)
      && Length(AppendText(isB, t, o).0.runs) == 5
      && !Valid(AppendText(isB, t, o).0)
      && Length(RepairSeam(AppendRuns(t.runs, o.runs), 1, 2)) == 3
  {
    var isB: BoundaryOracle := (bs: seq<byte>, k: nat) => false;
    var t := InitWithAttributes([0x65], X);
    var o := Init([0xCC, 0x82]);
    var bytes := t.bytes + o.bytes;
    assert |bytes| == 3;
    assert !IsBoundary(isB, bytes, 1) && !IsBoundary(isB, bytes, 2) && IsBoundary(isB, bytes, 3);
    assert NextBoundary(isB, bytes, 2) == 3;
    assert Overrun(isB, bytes, 1) == 2;
    assert Append(t.runs, o.runs) == Rich([Run(3, X)]);
    assert AppendTextDefined(isB, t, o);
    var rs := [Run(3, X)];
    assert GrowLast(rs, 1, 2) == [Run(5, X)];
    assert Consume(rs[1..], 2) == [];
    assert DropEmpty([Run(5, X)]) == [Run(5, X)];
  }

  /** Boundaries of "ae" followed by U+0302 (bytes 61 65 CC 82): the mark
      joins the "e", so only offset 1 lies inside the string. */
  const AfterA: BoundaryOracle := (bs: seq<byte>, k: nat) => k == 1
  const Ae: Text := InitWithAttributes([0x61, 0x65], X)
  const Circumflex: Text := InitWithAttributes([0xCC, 0x82], Y)

  lemma SplitClusterCounts()
    ensures var bytes := Ae.bytes + Circumflex.bytes;
      |bytes| == 4 && OverrunAsWritten(AfterA, bytes, 2) == 0 && Overrun(AfterA, bytes, 2) == 2
  {
    var bytes := Ae.bytes + Circumflex.bytes;
    assert |bytes| == 4;
    assert IsBoundary(AfterA, bytes, 1) && !IsBoundary(AfterA, bytes, 2) && !IsBoundary(AfterA, bytes, 3);
    assert PrevBoundary(AfterA, bytes, 2) == 1;
    assert NextBoundary(AfterA, bytes, 2) == 4;
  }

  lemma SplitClusterRuns()
    ensures Append(Ae.runs, Circumflex.runs) == Rich([Run(2, X), Run(2, Y)])
  {
    assert X != Y by { assert "a" in X && "a" !in Y; }
  }

  /** With the intended overrun the seam cluster joins the receiver's run. */
  lemma SplitClusterRepaired()
    ensures AppendTextDefined(AfterA, Ae, Circumflex)
    ensures AppendText(AfterA, Ae, Circumflex).0.runs == Rich([Run(4, X)])
  {
    SplitClusterCounts();
    SplitClusterRuns();
    var rs := [Run(2, X), Run(2, Y)];
    assert End(rs, 0) == 2;
    assert GrowLast(rs, 1, 2) == [Run(4, X)];
    assert Consume(rs[1..], 2) == [Run(0, Y)];
    assert DropEmpty([Run(4, X), Run(0, Y)]) == [Run(4, X)];
  }

  /** As written, the repair only happens when the cluster holding the seam
      starts the string. Rich "ae" followed by rich U+0302 (bytes CC 82,
      one cluster with the "e"): the cluster starts at byte 1, so the
      combining length is zero and the run end stays inside the cluster.
      The intended overrun of two bytes gives one run that ends on a
      boundary. */
  lemma OverrunAsWrittenLeavesSplitCluster()
    ensures var bytes := Ae.bytes + Circumflex.bytes;
      var asWritten := FixRunBoundariesAfterAppending(Append(Ae.runs, Circumflex.runs), |Ae.bytes|,
                                                      |RunsOf(Ae.runs)|, OverrunAsWritten(AfterA, bytes, |Ae.bytes|));
      && OverrunAsWritten(AfterA, bytes, 2) == 0 < Overrun(AfterA, bytes, 2) == 2
      && asWritten == Rich([Run(2, X), Run(2, Y)])
      && !Aligned(AfterA, bytes, asWritten.rs)
      && AppendTextDefined(AfterA, Ae, Circumflex)
      && AppendText(AfterA, Ae, Circumflex).0.runs == Rich([Run(4, X)])
      && Aligned(AfterA, bytes, [Run(4, X)])
  {
    var bytes := Ae.bytes + Circumflex.bytes;
    SplitClusterCounts();
    SplitClusterRuns();
    SplitClusterRepaired();
    assert End([Run(2, X), Run(2, Y)], 0) == 2;
    assert !IsBoundary(AfterA, bytes, 2);
    assert End([Run(4, X)], 0) == 4;
  }

  // ---------------------------------------------------------------------
  // Text operations on the corrected run operations

  /** `split(_:)` on the corrected run split. */
  function SplitTextFixed(t: Text, k: nat): (res: (Text, Text))
    requires Valid(t) && k <= |t.bytes|
    ensures Valid(res.0) && Valid(res.1)
    ensures res.0.bytes == t.bytes[..k] && res.1.bytes == t.bytes[k..]
    ensures Attrs(res.0) == Attrs(t)[..k] && Attrs(res.1) == Attrs(t)[k..]
    ensures IsRich(t) ==> (IsRich(res.0) || res.0 == Init([])) && (IsRich(res.1) || res.1 == Init([]))
    ensures IsPlain(t) ==> IsPlain(res.0) && IsPlain(res.1)
  {
    if k == |t.bytes| then (t, Init([]))
    else if k == 0 then (Init([]), t)
    else
      var (p, s) := SplitRuns(t.runs, k);
      (Text(t.bytes[..k], p), Text(t.bytes[k..], s))
  }

  /** The subscript on the corrected split: any slice of valid text is valid
      and carries the attributes of its bytes. */
  function SliceFixed(t: Text, lo: nat, hi: nat): (r: Text)
    requires Valid(t) && lo <= hi <= |t.bytes|
    ensures Valid(r) && r.bytes == t.bytes[lo..hi] && Attrs(r) == Attrs(t)[lo..hi]
  {
    var copy := SplitTextFixed(t, hi).0;
    assert Attrs(t)[..hi][lo..] == Attrs(t)[lo..hi];
    SplitTextFixed(copy, lo).1
  }

  /** `append(_:)` on the corrected append and seam repair. */
  function AppendTextFixed(isB: BoundaryOracle, t: Text, o: Text): (res: Text)
    requires Valid(t) && Valid(o)
    ensures Valid(res) && res.bytes == t.bytes + o.bytes
    ensures IsEmpty(o) ==> res == t
    ensures !IsEmpty(o) ==> (IsRich(res) <==> IsRich(t) || IsRich(o))
  {
    if IsEmpty(o) then t
    else
      var bytes := t.bytes + o.bytes;
      var runs := AppendRuns(t.runs, o.runs);
      var c := Overrun(isB, bytes, |t.bytes|);
      if runs.Rich? && 0 < |t.bytes| && 0 < c then Text(bytes, RepairSeam(runs, |t.bytes|, c))
      else Text(bytes, runs)
  }

  /** At a grapheme boundary the corrected append concatenates the
      attributes, except that plain text after rich text continues the
      attributes of its last run. */
  lemma AppendTextFixedAtBoundary(isB: BoundaryOracle, t: Text, o: Text)
    requires Valid(t) && Valid(o) && IsBoundary(isB, t.bytes + o.bytes, |t.bytes|)
    ensures !(IsRich(t) && IsPlain(o)) ==> Attrs(AppendTextFixed(isB, t, o)) == Attrs(t) + Attrs(o)
    ensures IsRich(t) && IsPlain(o) ==>
      Attrs(AppendTextFixed(isB, t, o)) == Attrs(t) + Repeat(TrailingAttrs(t.runs.rs), |o.bytes|)
  {
    if IsEmpty(o) {
      assert Attrs(o) == [];
      assert Attrs(t) + [] == Attrs(t);
    }
  }

  /** Between rich texts, the bytes of the cluster that runs past the seam
      take the attributes of the receiver's last byte, and nothing else
      changes. */
  lemma AppendTextFixedRepairs(isB: BoundaryOracle, t: Text, o: Text)
    requires Valid(t) && Valid(o) && IsRich(t) && IsRich(o) && !IsEmpty(t)
    ensures var c := Overrun(isB, t.bytes + o.bytes, |t.bytes|);
      Attrs(AppendTextFixed(isB, t, o)) == Attrs(t) + Repeat(Attrs(t)[|t.bytes| - 1], c) + Attrs(o)[c..]
  {
    if Overrun(isB, t.bytes + o.bytes, |t.bytes|) == 0 {
      FixedNoOverrun(isB, t, o);
    } else {
      FixedOverrun(isB, t, o);
    }
  }

  lemma FixedNoOverrun(isB: BoundaryOracle, t: Text, o: Text)
    requires Valid(t) && Valid(o) && IsRich(t) && IsRich(o) && !IsEmpty(t)
    requires Overrun(isB, t.bytes + o.bytes, |t.bytes|) == 0
    ensures Attrs(AppendTextFixed(isB, t, o)) == Attrs(t) + Repeat(Attrs(t)[|t.bytes| - 1], 0) + Attrs(o)[0..]
  {
    assert Attrs(o)[0..] == Attrs(o);
  }

  lemma FixedOverrun(isB: BoundaryOracle, t: Text, o: Text)
    requires Valid(t) && Valid(o) && IsRich(t) && IsRich(o) && !IsEmpty(t)
    requires 0 < Overrun(isB, t.bytes + o.bytes, |t.bytes|)
    ensures var c := Overrun(isB, t.bytes + o.bytes, |t.bytes|);
      Attrs(AppendTextFixed(isB, t, o)) == Attrs(t) + Repeat(Attrs(t)[|t.bytes| - 1], c) + Attrs(o)[c..]
  {
    var c := Overrun(isB, t.bytes + o.bytes, |t.bytes|);
    var runs := AppendRuns(t.runs, o.runs);
    var n := |t.bytes|;
    var z := Attrs(AppendTextFixed(isB, t, o));
    var v := AttrsOf(runs);
    var w := AttrsOf(RepairSeam(runs, n, c));
    assert z == w && v == Attrs(t) + Attrs(o) && n == |Attrs(t)| && c <= |Attrs(o)| by { FixedSeamRuns(isB, t, o); }
    assert w == v[..n] + Repeat(v[n - 1], c) + v[n + c..] by {
      FixedSeamRuns(isB, t, o);
      RepairSeamAttrs(runs, n, c);
    }
    SeamRepairConcat(Attrs(t), Attrs(o), v, n, c, w);
  }

  /** Between non-empty rich texts whose seam cluster runs on, the
      corrected append repairs the concatenated runs. */
  lemma FixedSeamRuns(isB: BoundaryOracle, t: Text, o: Text)
    requires Valid(t) && Valid(o) && IsRich(t) && IsRich(o) && !IsEmpty(t)
    requires 0 < Overrun(isB, t.bytes + o.bytes, |t.bytes|)
    ensures var runs := AppendRuns(t.runs, o.runs);
      var c := Overrun(isB, t.bytes + o.bytes, |t.bytes|);
      && runs.Rich? && NoEmpty(runs.rs) && |t.bytes| + c <= Length(runs)
      && AttrsOf(runs) == Attrs(t) + Attrs(o)
      && Attrs(AppendTextFixed(isB, t, o)) == AttrsOf(RepairSeam(runs, |t.bytes|, c))
  {
  }

  /** The seam repair of a concatenation, seen from its two halves. */
  lemma SeamRepairConcat(xs: seq<Attributes>, ys: seq<Attributes>, v: seq<Attributes>, n: nat, c: nat, zs: seq<Attributes>)
    requires n == |xs| && 0 < n && c <= |ys| && v == xs + ys
    requires zs == v[..n] + Repeat(v[n - 1], c) + v[n + c..]
    ensures zs == xs + Repeat(xs[n - 1], c) + ys[c..]
  {
    SeamSlices(xs, ys, c);
  }

  /** Slicing a concatenation at and after the seam. */
  lemma SeamSlices(xs: seq<Attributes>, ys: seq<Attributes>, c: nat)
    requires 0 < |xs| && c <= |ys|
    ensures (xs + ys)[..|xs|] == xs && (xs + ys)[|xs| - 1] == xs[|xs| - 1]
    ensures (xs + ys)[|xs| + c..] == ys[c..]
  {
  }

  /** `replaceSubrange(_:with:)` on the corrected operations. */
  function ReplaceFixed(isB: BoundaryOracle, t: Text, lo: nat, hi: nat, s: Text): (res: (Text, Replaced))
    requires Valid(t) && Valid(s) && lo <= hi <= |t.bytes|
    ensures Valid(res.0) && res.0.bytes == t.bytes[..lo] + s.bytes + t.bytes[hi..]
    ensures Valid(res.1.replaced) && Attrs(res.1.replaced) == Attrs(t)[lo..hi]
    ensures res.1.inserted == s
  {
    var u := Upgrade(t, s);
    var (head, tail) := SplitTextFixed(u, hi);
    var at := CharCount(isB, head.bytes, lo);
    var (kept, replaced) := SplitTextFixed(head, lo);
    assert Attrs(t)[..hi][lo..] == Attrs(t)[lo..hi];
    assert t.bytes[..hi][..lo] == t.bytes[..lo];
    var withS := AppendTextFixed(isB, kept, s);
    (AppendTextFixed(isB, withS, tail), Replaced(at, replaced, s))
  }

  /** Replacing by rich text with grapheme boundaries at both seams puts
      exactly the attributes of the new text between the untouched
      attributes before `lo` and from `hi` on. */
  lemma ReplaceFixedAttrs(isB: BoundaryOracle, t: Text, lo: nat, hi: nat, s: Text)
    requires Valid(t) && Valid(s) && lo <= hi <= |t.bytes| && IsRich(s)
    requires IsBoundary(isB, t.bytes[..lo] + s.bytes, lo)
    requires IsBoundary(isB, t.bytes[..lo] + s.bytes + t.bytes[hi..], lo + |s.bytes|)
    ensures Attrs(ReplaceFixed(isB, t, lo, hi, s).0) == Attrs(t)[..lo] + Attrs(s) + Attrs(t)[hi..]
  {
    var u := Upgrade(t, s);
    var (head, tail) := SplitTextFixed(u, hi);
    var kept := SplitTextFixed(head, lo).0;
    ReplaceFixedSplits(t, lo, hi, s);
    assert ReplaceFixed(isB, t, lo, hi, s).0 == AppendTextFixed(isB, AppendTextFixed(isB, kept, s), tail) by {}
    AppendBoth(isB, t, lo, hi, kept, s, tail);
  }

  /** The two appends of the corrected replace, with rich text inserted and
      grapheme boundaries at both seams. */
  lemma AppendBoth(isB: BoundaryOracle, t: Text, lo: nat, hi: nat, kept: Text, s: Text, tail: Text)
    requires Valid(t) && lo <= hi <= |t.bytes|
    requires Valid(kept) && Valid(s) && Valid(tail) && IsRich(s)
    requires IsRich(tail) || tail == Init([])
    requires kept.bytes == t.bytes[..lo] && Attrs(kept) == Attrs(t)[..lo]
    requires tail.bytes == t.bytes[hi..] && Attrs(tail) == Attrs(t)[hi..]
    requires IsBoundary(isB, t.bytes[..lo] + s.bytes, lo)
    requires IsBoundary(isB, t.bytes[..lo] + s.bytes + t.bytes[hi..], lo + |s.bytes|)
    ensures Attrs(AppendTextFixed(isB, AppendTextFixed(isB, kept, s), tail)) == Attrs(t)[..lo] + Attrs(s) + Attrs(t)[hi..]
  {
    var withS := AppendTextFixed(isB, kept, s);
    assert Valid(withS) && Attrs(withS) == Attrs(t)[..lo] + Attrs(s) by {
      assert kept.bytes + s.bytes == t.bytes[..lo] + s.bytes && |kept.bytes| == lo;
      AppendTextFixedAtBoundary(isB, kept, s);
    }
    assert IsBoundary(isB, withS.bytes + tail.bytes, |withS.bytes|) by {
      assert withS.bytes + tail.bytes == t.bytes[..lo] + s.bytes + t.bytes[hi..];
      assert |withS.bytes| == lo + |s.bytes|;
    }
    AppendTail(isB, withS, tail, Attrs(t)[..lo] + Attrs(s));
  }

  /** The pieces the two corrected splits leave when rich text is inserted. */
  lemma ReplaceFixedSplits(t: Text, lo: nat, hi: nat, s: Text)
    requires Valid(t) && lo <= hi <= |t.bytes| && IsRich(s)
    ensures var (head, tail) := SplitTextFixed(Upgrade(t, s), hi);
      var kept := SplitTextFixed(head, lo).0;
      && kept.bytes == t.bytes[..lo] && Attrs(kept) == Attrs(t)[..lo]
      && (IsRich(kept) || kept == Init([]))
      && tail.bytes == t.bytes[hi..] && Attrs(tail) == Attrs(t)[hi..]
      && (IsRich(tail) || tail == Init([]))
  {
    assert t.bytes[..hi][..lo] == t.bytes[..lo];
    assert Attrs(t)[..hi][..lo] == Attrs(t)[..lo];
  }

  /** The second append of the corrected replace: rich text, or the empty
      plain text a split leaves, after text that is rich or empty. */
  lemma AppendTail(isB: BoundaryOracle, w: Text, tail: Text, before: seq<Attributes>)
    requires Valid(w) && Valid(tail) && Attrs(w) == before
    requires IsRich(tail) || tail == Init([])
    requires IsBoundary(isB, w.bytes + tail.bytes, |w.bytes|)
    ensures Attrs(AppendTextFixed(isB, w, tail)) == before + Attrs(tail)
  {
    AppendTextFixedAtBoundary(isB, w, tail);
    if IsEmpty(tail) {
      assert Attrs(tail) == [];
      assert before + [] == before;
    }
  }

  // ---------------------------------------------------------------------
  // longestEffectiveRange(at:affinity:)

  /** The exact-match span as intended: the affinity reaches the run scan
      too, so the run found is the one whose attributes were sought. */
  function LongestEffectiveRangeExactFixed(t: Text, k: nat, aff: Affinity): (res: Option<ByteRange>)
    requires LookupDefined(t, k)
    ensures res.Some?
    ensures res.value.lo <= k <= res.value.hi <= Length(t.runs)
    ensures Valid(t) ==> res.value.lo <= SelectedByte(k, |t.bytes|, aff) < res.value.hi
  {
    var seek := AttributesAtPosition(t, k, aff);
    assert Valid(t) ==> NoEmpty(RunsOf(t.runs));
    LongestEffectiveRange(t.runs, k, aff, a => a == seek)
  }

  /** As written, the downstream lookup at a run end seeks the next run's
      attributes but scans upstream, so no span is found. */
  lemma LongestEffectiveRangeAsWrittenMisses()
    ensures var t := Text([0x61, 0x62], Rich([Run(1, X), Run(1, Y)]));
      && LookupDefined(t, 1)
      && LongestEffectiveRangeExact(t, 1, Downstream).None?
      && LongestEffectiveRangeExactFixed(t, 1, Downstream) == Some(ByteRange(1, 2))
  {
    var rs := [Run(1, X), Run(1, Y)];
    assert rs[1..] == [Run(1, Y)];
    assert Locate(rs, 1, Upstream) == 0;
    assert Locate(rs, 1, Downstream) == 1;
    assert X != Y by { assert "a" in X && "a" !in Y; }
    assert ExtendDown(rs, 1, a => a == Y) == 1;
    assert ExtendUp(rs, 1, a => a == Y) == 1;
  }
}
