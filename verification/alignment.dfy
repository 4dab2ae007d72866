/** Grapheme alignment of run ends, the property `validate()` checks.

    A run sequence is aligned when every run end is a cluster boundary.
    Run ends are handled here as the offsets `IsCut` accepts, which follow
    the recursion of the run operations more closely than indices do. The
    corrected append keeps a text aligned whenever the run ends it brings
    together were boundaries of the joined string. */
module Alignment {
  import opened RunBasics
  import opened RunList
  import opened Graphemes
  import opened AttributedText
  import opened Corrected

  /** Offset `x` is the end of some run of `rs`. */
  predicate IsCut(rs: seq<Run>, x: int)
    decreases |rs|
  {
    rs != [] && (x == rs[0].len || IsCut(rs[1..], x - rs[0].len))
  }

  /** Every run end of `rs` is a boundary of `bytes`. */
  ghost predicate CutsOnBoundaries(isB: BoundaryOracle, bytes: seq<byte>, rs: seq<Run>)
  {
    forall x: nat :: IsCut(rs, x) ==> x <= |bytes| && IsBoundary(isB, bytes, x)
  }

  // ---------------------------------------------------------------------
  // Run ends as offsets

  /** Every run end is a cut. */
  lemma {:induction false} EndIsCut(rs: seq<Run>, i: nat)
    requires i < |rs|
    ensures IsCut(rs, End(rs, i))
    decreases i
  {
    if i > 0 {
      assert rs[1..][i - 1] == rs[i];
      assert End(rs, i) == rs[0].len + End(rs[1..], i - 1);
      EndIsCut(rs[1..], i - 1);
    }
  }

  /** Every cut is the end of some run. */
  lemma {:induction false} CutEnd(rs: seq<Run>, x: int) returns (i: nat)
    requires IsCut(rs, x)
    ensures i < |rs| && End(rs, i) == x
    decreases |rs|
  {
    if x == rs[0].len {
      i := 0;
    } else {
      var j := CutEnd(rs[1..], x - rs[0].len);
      assert rs[1..][j] == rs[j + 1];
      i := j + 1;
    }
  }

  /** Aligned run sequences are those whose cuts are all boundaries. */
  lemma AlignedCuts(isB: BoundaryOracle, bytes: seq<byte>, rs: seq<Run>)
    ensures Aligned(isB, bytes, rs) <==> CutsOnBoundaries(isB, bytes, rs)
  {
    if Aligned(isB, bytes, rs) {
      forall x: nat | IsCut(rs, x)
        ensures x <= |bytes| && IsBoundary(isB, bytes, x)
      {
        var i := CutEnd(rs, x);
      }
    }
    if CutsOnBoundaries(isB, bytes, rs) {
      forall i | 0 <= i < |rs|
        ensures End(rs, i) <= |bytes| && IsBoundary(isB, bytes, End(rs, i))
      {
        EndIsCut(rs, i);
      }
    }
  }

  /** A cut lies within the bytes the runs cover. */
  lemma {:induction false} CutBounds(rs: seq<Run>, x: int)
    requires IsCut(rs, x)
    ensures 0 <= x <= Total(rs)
    decreases |rs|
  {
    if x != rs[0].len {
      CutBounds(rs[1..], x - rs[0].len);
    }
  }

  /** The cuts of a concatenation: those of the first part, and those of
      the second shifted by the length of the first. */
  lemma {:induction false} CutAppend(xs: seq<Run>, ys: seq<Run>, x: int)
    ensures IsCut(xs + ys, x) <==> IsCut(xs, x) || IsCut(ys, x - Total(xs))
    decreases |xs|
  {
    if xs == [] {
      assert xs + ys == ys;
    } else {
      assert (xs + ys)[1..] == xs[1..] + ys;
      CutAppend(xs[1..], ys, x - xs[0].len);
    }
  }

  /** A cut is never strictly inside a run. */
  lemma {:induction false} CutNotStraddled(rs: seq<Run>, x: int)
    requires IsCut(rs, x)
    ensures !Straddles(rs, x)
    decreases |rs|
  {
    if x == rs[0].len {
      NoStraddleBelow(rs[1..], 0);
    } else {
      CutNotStraddled(rs[1..], x - rs[0].len);
      CutBounds(rs[1..], x - rs[0].len);
    }
  }

  lemma CutOfPrefix(rs: seq<Run>, k: nat, x: int)
    requires k <= |rs| && IsCut(rs[..k], x)
    ensures IsCut(rs, x) && x <= Start(rs, k)
  {
    assert rs == rs[..k] + rs[k..];
    CutAppend(rs[..k], rs[k..], x);
    CutBounds(rs[..k], x);
    StartIsPrefixTotal(rs, k);
  }

  lemma CutOfSuffix(rs: seq<Run>, k: nat, y: int)
    requires k <= |rs| && IsCut(rs[k..], y)
    ensures IsCut(rs, y + Start(rs, k))
  {
    assert rs == rs[..k] + rs[k..];
    StartIsPrefixTotal(rs, k);
    CutAppend(rs[..k], rs[k..], y + Start(rs, k));
  }

  lemma CutSingle(r: Run, x: int)
    ensures IsCut([r], x) <==> x == r.len
  {
    assert [r][1..] == [];
  }

  // ---------------------------------------------------------------------
  // Cuts through the run operations

  /** Dropping empty runs drops no cut that was not already there. */
  lemma {:induction false} CutDropEmpty(rs: seq<Run>, x: int)
    requires IsCut(DropEmpty(rs), x)
    ensures IsCut(rs, x)
    decreases |rs|
  {
    var rest := DropEmpty(rs[1..]);
    if IsEmptyRun(rs[0]) {
      CutDropEmpty(rs[1..], x);
    } else {
      assert ([rs[0]] + rest)[1..] == rest;
      if x != rs[0].len {
        CutDropEmpty(rs[1..], x - rs[0].len);
      }
    }
  }

  /** Consuming `c` bytes from the front moves every cut `c` bytes back,
      and cuts that fall to zero or below all land at zero. */
  lemma {:induction false} CutConsume(rs: seq<Run>, c: nat, y: int)
    requires IsCut(Consume(rs, c), y)
    ensures y == 0 || IsCut(rs, y + c)
    decreases |rs|
  {
    if rs != [] && c != 0 {
      var removed := Min(rs[0].len, c);
      var rest := Consume(rs[1..], c - removed);
      var head := Run(rs[0].len - removed, rs[0].attrs);
      assert Consume(rs, c) == [head] + rest;
      assert ([head] + rest)[1..] == rest;
      if y != head.len {
        CutConsume(rs[1..], c - removed, y - head.len);
      }
    }
  }

  /** The cuts of `GrowLast`: those before run `i - 1`, and the end of the
      grown run. */
  lemma CutGrowLast(rs: seq<Run>, i: nat, extra: nat, x: int)
    requires 0 < i <= |rs| && IsCut(GrowLast(rs, i, extra), x)
    ensures IsCut(rs[..i - 1], x) || x == Start(rs, i) + extra
  {
    var last := Run(rs[i - 1].len + extra, rs[i - 1].attrs);
    if !IsEmptyRun(last) {
      CutAppend(rs[..i - 1], [last], x);
      CutSingle(last, x - Total(rs[..i - 1]));
      TotalAppend(rs[..i - 1], [last]);
      ExpandSingle(last);
    }
  }

  /** The cuts of `LengthenFirst`: those of `r2`, moved by the added bytes. */
  lemma CutLengthenFirst(r2: seq<Run>, extra: nat, y: int)
    requires |r2| > 0 && IsCut(LengthenFirst(r2, extra), y)
    ensures IsCut(r2, y - extra)
  {
    var merged := Run(r2[0].len + extra, r2[0].attrs);
    assert LengthenFirst(r2, extra) == [merged] + r2[1..];
    assert ([merged] + r2[1..])[1..] == r2[1..];
  }

  /** The cuts of `Join`: those of `r1` and those of `r2` shifted; a fold
      only removes the cut at the seam. */
  lemma CutJoin(r1: seq<Run>, r2: seq<Run>, x: int)
    requires IsCut(Join(r1, r2), x)
    ensures IsCut(r1, x) || IsCut(r2, x - Total(r1))
  {
    if |r1| > 0 && |r2| > 0 && r1[|r1| - 1].attrs == r2[0].attrs {
      var init := r1[..|r1| - 1];
      var tail := LengthenFirst(r2, r1[|r1| - 1].len);
      assert Join(r1, r2) == init + tail;
      CutAppend(init, tail, x);
      if IsCut(init, x) {
        CutOfPrefix(r1, |r1| - 1, x);
      } else {
        CutLengthenFirst(r2, r1[|r1| - 1].len, x - Total(init));
        SplitLast(r1);
      }
    } else {
      CutAppend(r1, r2, x);
    }
  }

  /** The cuts of `RichThenPlain`: those of `rs` before its last run, and
      the new end. */
  lemma CutRichThenPlain(rs: seq<Run>, n2: nat, x: int)
    requires |rs| > 0 && IsCut(RichThenPlain(rs, n2), x)
    ensures IsCut(rs, x) || x == Total(rs) + n2
  {
    var last := rs[|rs| - 1];
    var grown := Run(last.len + n2, last.attrs);
    assert RichThenPlain(rs, n2) == rs[..|rs| - 1] + [grown];
    CutAppend(rs[..|rs| - 1], [grown], x);
    if IsCut(rs[..|rs| - 1], x) {
      CutOfPrefix(rs, |rs| - 1, x);
    } else {
      CutSingle(grown, x - Total(rs[..|rs| - 1]));
      SplitLast(rs);
    }
  }

  /** The one cut of plain runs is their end. */
  lemma CutPlain(n: nat, x: int)
    requires IsCut(RunsOf(Plain(n)), x)
    ensures x == n
  {
    CutSingle(Run(n, map[]), x);
  }

  /** The cuts of the corrected run append: those of `a`, those of `b`
      shifted by the length of `a`, and the end of both. */
  lemma CutAppendRuns(a: Runs, b: Runs, x: int)
    requires IsCut(RunsOf(AppendRuns(a, b)), x)
    ensures || IsCut(RunsOf(a), x)
            || IsCut(RunsOf(b), x - Length(a))
            || x == Length(a) + Length(b)
  {
    match (a, b)
    case (Plain(n1), Plain(n2)) =>
      CutPlain(n1 + n2, x);
    case (Plain(_), Rich(rs)) =>
      CutJoin(RunsOf(a), rs, x);
    case (Rich(rs), Plain(n2)) =>
      if rs == [] {
        assert Length(a) == 0;
      } else {
        CutRichThenPlain(rs, n2, x);
      }
    case (Rich(r1), Rich(r2)) =>
      CutJoin(r1, r2, x);
  }

  /** The cuts after the repair grows run `k - 1` by `extra` bytes and
      takes them from the runs after it: the cuts before run `k - 1`, the
      end of the grown run, and the cuts from there on. */
  lemma CutGrowConsume(rs: seq<Run>, k: nat, extra: nat, x: int)
    requires 0 < k <= |rs|
    requires IsCut(DropEmpty(GrowLast(rs, k, extra) + Consume(rs[k..], extra)), x)
    ensures || x == Start(rs, k) + extra
            || (IsCut(rs, x) && (x <= Start(rs, k - 1) || Start(rs, k) + extra <= x))
  {
    var grown := GrowLast(rs, k, extra);
    var rest := Consume(rs[k..], extra);
    CutDropEmpty(grown + rest, x);
    CutAppend(grown, rest, x);
    if IsCut(grown, x) {
      CutGrown(rs, k, extra, x);
    } else {
      CutConsumed(rs, k, extra, x - Total(grown));
    }
  }

  lemma CutGrown(rs: seq<Run>, k: nat, extra: nat, x: int)
    requires 0 < k <= |rs| && IsCut(GrowLast(rs, k, extra), x)
    ensures x == Start(rs, k) + extra || (IsCut(rs, x) && x <= Start(rs, k - 1))
  {
    CutGrowLast(rs, k, extra, x);
    if IsCut(rs[..k - 1], x) {
      CutOfPrefix(rs, k - 1, x);
    }
  }

  lemma CutConsumed(rs: seq<Run>, k: nat, extra: nat, y: int)
    requires k <= |rs| && IsCut(Consume(rs[k..], extra), y)
    ensures y == 0 || (0 < y && IsCut(rs, y + extra + Start(rs, k)))
  {
    CutBounds(Consume(rs[k..], extra), y);
    CutConsume(rs[k..], extra, y);
    if y != 0 {
      CutOfSuffix(rs, k, y + extra);
    }
  }

  /** The cuts after the intended seam repair: the cuts before the seam,
      the next boundary, and the cuts from there on; no cut is left between
      the seam and the end of the repaired stretch. */
  lemma CutRepairSeam(r: Runs, atByte: nat, c: nat, x: int)
    requires r.Rich? && NoEmpty(r.rs) && 0 < atByte && atByte + c <= Length(r)
    requires IsCut(RepairSeam(r, atByte, c).rs, x)
    ensures x == atByte + c || (IsCut(r.rs, x) && (x < atByte || atByte + c <= x))
  {
    var rs := r.rs;
    var i := Locate(rs, atByte, Upstream);
    if atByte + c <= End(rs, i) {
      CutNotStraddled(rs, x);
      StraddlesInRun(rs, x);
    } else {
      var extra := atByte + c - End(rs, i);
      EndIsNextStart(rs, i);
      CutGrowConsume(rs, i + 1, extra, x);
    }
  }

  // ---------------------------------------------------------------------
  // The corrected append keeps run ends on boundaries

  /** If every run end of `t` before the seam, and every run end of `o`
      moved past the seam that lies beyond the cluster straddling it, is a
      boundary of the joined string, then every run end of the corrected
      append is one: the repair moves the run end at the seam to the next
      boundary and removes the run ends inside that cluster. */
  lemma AppendTextFixedAligned(isB: BoundaryOracle, t: Text, o: Text)
    requires Valid(t) && Valid(o)
    requires var rs := RunsOf(t.runs);
      forall i :: 0 <= i < |rs| && End(rs, i) < |t.bytes| ==>
        IsBoundary(isB, t.bytes + o.bytes, End(rs, i))
    requires var rs := RunsOf(o.runs);
      forall i :: 0 <= i < |rs| && Overrun(isB, t.bytes + o.bytes, |t.bytes|) <= End(rs, i) ==>
        IsBoundary(isB, t.bytes + o.bytes, |t.bytes| + End(rs, i))
    ensures Aligned(isB, t.bytes + o.bytes, RunsOf(AppendTextFixed(isB, t, o).runs))
  {
    var bytes := t.bytes + o.bytes;
    var res := RunsOf(AppendTextFixed(isB, t, o).runs);
    assert CutsAlignedAround(isB, t, o);
    forall x: nat | IsCut(res, x)
      ensures x <= |bytes| && IsBoundary(isB, bytes, x)
    {
      AppendTextFixedCut(isB, t, o, x);
    }
    AlignedCuts(isB, bytes, res);
  }

  /** Run ends before the seam, and run ends of the argument moved past
      it that lie beyond the cluster straddling the seam, are boundaries of
      the joined string. */
  predicate CutsAlignedAround(isB: BoundaryOracle, t: Text, o: Text)
  {
    && (var rs := RunsOf(t.runs);
        forall i :: 0 <= i < |rs| && End(rs, i) < |t.bytes| ==>
          IsBoundary(isB, t.bytes + o.bytes, End(rs, i)))
    && (var rs := RunsOf(o.runs);
        forall i :: 0 <= i < |rs| && Overrun(isB, t.bytes + o.bytes, |t.bytes|) <= End(rs, i) ==>
          IsBoundary(isB, t.bytes + o.bytes, |t.bytes| + End(rs, i)))
  }

  /** One run end of the corrected append, under the hypotheses of
      `AppendTextFixedAligned`. */
  lemma AppendTextFixedCut(isB: BoundaryOracle, t: Text, o: Text, x: int)
    requires Valid(t) && Valid(o) && CutsAlignedAround(isB, t, o)
    requires IsCut(RunsOf(AppendTextFixed(isB, t, o).runs), x)
    ensures 0 <= x <= |t.bytes + o.bytes| && IsBoundary(isB, t.bytes + o.bytes, x)
  {
    var bytes := t.bytes + o.bytes;
    if IsEmpty(o) {
      var i := CutEnd(RunsOf(t.runs), x);
      assert bytes == t.bytes;
    } else {
      var runs := AppendRuns(t.runs, o.runs);
      var c := Overrun(isB, bytes, |t.bytes|);
      if runs.Rich? && 0 < |t.bytes| && 0 < c {
        RepairedCut(isB, t, o, runs, c, x);
      } else {
        assert AppendTextFixed(isB, t, o).runs == runs;
        if runs.Plain? {
          CutPlain(runs.n, x);
        }
        CutIsAppendCut(isB, t, o, x);
      }
    }
  }

  /** A run end after the seam repair of the corrected append. */
  lemma RepairedCut(isB: BoundaryOracle, t: Text, o: Text, runs: Runs, c: nat, x: int)
    requires Valid(t) && Valid(o) && !IsEmpty(o) && CutsAlignedAround(isB, t, o)
    requires runs == AppendRuns(t.runs, o.runs) && c == Overrun(isB, t.bytes + o.bytes, |t.bytes|)
    requires runs.Rich? && 0 < |t.bytes| && 0 < c
    requires IsCut(RunsOf(AppendTextFixed(isB, t, o).runs), x)
    ensures 0 <= x <= |t.bytes + o.bytes| && IsBoundary(isB, t.bytes + o.bytes, x)
  {
    assert AppendTextFixed(isB, t, o).runs == RepairSeam(runs, |t.bytes|, c);
    CutRepairSeam(runs, |t.bytes|, c, x);
    if x != |t.bytes| + c {
      CutIsAppendCut(isB, t, o, x);
    }
  }

  /** A cut of the run append before the seam, or at or beyond the end of
      the cluster straddling it, is a boundary under the hypotheses of
      `AppendTextFixedAligned`; the seam is such a cut only when it needs
      no repair. */
  lemma CutIsAppendCut(isB: BoundaryOracle, t: Text, o: Text, x: int)
    requires Valid(t) && Valid(o) && CutsAlignedAround(isB, t, o)
    requires IsCut(RunsOf(AppendRuns(t.runs, o.runs)), x)
    requires x < |t.bytes| || |t.bytes| + Overrun(isB, t.bytes + o.bytes, |t.bytes|) <= x
    ensures 0 <= x <= |t.bytes + o.bytes| && IsBoundary(isB, t.bytes + o.bytes, x)
  {
    CutAppendRuns(t.runs, o.runs, x);
    if IsCut(RunsOf(t.runs), x) {
      var i := CutEnd(RunsOf(t.runs), x);
      CutBounds(RunsOf(t.runs), x);
    } else if IsCut(RunsOf(o.runs), x - |t.bytes|) {
      var i := CutEnd(RunsOf(o.runs), x - |t.bytes|);
      CutBounds(RunsOf(o.runs), x - |t.bytes|);
    }
  }
}
