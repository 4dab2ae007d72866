/** Grapheme-cluster boundaries over UTF-8 bytes.

    Segmentation itself belongs to the host string library. It enters the
    model as a boundary oracle, a function from the whole byte string and an
    offset to whether a cluster boundary lies there; the start and the end
    of a string are always boundaries. */
module Graphemes {
  import opened RunBasics

  /** A UTF-8 code unit. */
  newtype byte = x: int | 0 <= x < 256

  /** Whether offset `k` of a string is a grapheme-cluster boundary, as the
      host string library reports it for offsets strictly inside. */
  type BoundaryOracle = (seq<byte>, nat) -> bool

  predicate IsBoundary(isB: BoundaryOracle, bytes: seq<byte>, k: nat)
  {
    k == 0 || k == |bytes| || (k < |bytes| && isB(bytes, k))
  }

  /** The first boundary at or after `k`. */
  function NextBoundary(isB: BoundaryOracle, bytes: seq<byte>, k: nat): (b: nat)
    requires k <= |bytes|
    ensures k <= b <= |bytes|
    ensures IsBoundary(isB, bytes, b)
    ensures forall j :: k <= j < b ==> !IsBoundary(isB, bytes, j)
    decreases |bytes| - k
  {
    if IsBoundary(isB, bytes, k) then k else NextBoundary(isB, bytes, k + 1)
  }

  /** How far the cluster that starts before a seam at `seam` runs past it:
      the distance from the seam to the next boundary, zero exactly when the
      seam is itself a boundary. */
  function Overrun(isB: BoundaryOracle, bytes: seq<byte>, seam: nat): (c: nat)
    requires seam <= |bytes|
    ensures seam + c <= |bytes|
    ensures c == 0 <==> IsBoundary(isB, bytes, seam)
    ensures IsBoundary(isB, bytes, seam + c)
  {
    NextBoundary(isB, bytes, seam) - seam
  }

  /** The last boundary at or before `k`: `k` itself when it is a boundary,
      otherwise the start of the cluster that holds byte `k`. */
  function PrevBoundary(isB: BoundaryOracle, bytes: seq<byte>, k: nat): (b: nat)
    requires k <= |bytes|
    ensures b <= k
    ensures IsBoundary(isB, bytes, b)
    ensures forall j :: b < j <= k ==> !IsBoundary(isB, bytes, j)
  {
    if IsBoundary(isB, bytes, k) then k else PrevBoundary(isB, bytes, k - 1)
  }

  /** The combining length `fixRunBoundariesAfterAppending` computes from a
      seam at `seam`, with string index arithmetic that first rounds an index
      inside a cluster down to the cluster's start: one character back from
      the seam and one forward again, limited by the ends of the string, and
      the distance past the seam if that lands beyond it. The result is the
      full overrun only when the cluster holding the seam starts the string,
      and zero otherwise. */
  function OverrunAsWritten(isB: BoundaryOracle, bytes: seq<byte>, seam: nat): (c: nat)
    requires seam <= |bytes|
    ensures c == (if PrevBoundary(isB, bytes, seam) == 0 then Overrun(isB, bytes, seam) else 0)
    ensures c < Overrun(isB, bytes, seam) <==>
      !IsBoundary(isB, bytes, seam) && 0 < PrevBoundary(isB, bytes, seam)
  {
    if seam == 0 then 0
    else
      var start := PrevBoundary(isB, bytes, seam);
      var prev := if start == 0 then 0 else PrevBoundary(isB, bytes, start - 1);
      var next := NextBoundary(isB, bytes, prev + 1);
      if next > seam then next - seam else 0
  }

  /** The boundaries in `1..k`: the ends of the characters before `k`. */
  function BoundariesUpTo(isB: BoundaryOracle, bytes: seq<byte>, k: nat): set<nat>
  {
    set j: nat | 1 <= j <= k && IsBoundary(isB, bytes, j)
  }

  /** Number of characters before byte offset `k` (`String.distance(from:to:)`
      from the start, and `count` at the end), counted offset by offset. */
  function CharCount(isB: BoundaryOracle, bytes: seq<byte>, k: nat): (n: nat)
    requires k <= |bytes|
    ensures n == |BoundariesUpTo(isB, bytes, k)|
    ensures n <= k
  {
    if k == 0 then
      assert BoundariesUpTo(isB, bytes, k) == {};
      0
    else
      var prev := BoundariesUpTo(isB, bytes, k - 1);
      assert k !in prev;
      assert BoundariesUpTo(isB, bytes, k)
        == prev + (if IsBoundary(isB, bytes, k) then {k} else {});
      CharCount(isB, bytes, k - 1) + (if IsBoundary(isB, bytes, k) then 1 else 0)
  }

  /** `validate()`: every run ends on a grapheme boundary (runs start where
      the previous one ends, or at 0). */
  predicate Aligned(isB: BoundaryOracle, bytes: seq<byte>, rs: seq<Run>)
  {
    forall i :: 0 <= i < |rs| ==> End(rs, i) <= |bytes| && IsBoundary(isB, bytes, End(rs, i))
  }
}
