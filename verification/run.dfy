/** Runs and the per-byte view of a run sequence.

    A run is a byte length together with one attribute map (`Text.Run` in
    Sources/Text/Text.swift). A sequence of runs partitions a byte extent;
    `Expand` gives the attribute map of every byte, which is the reference
    meaning against which the run algebra is stated. */
module RunBasics {

  datatype Option<+T> = None | Some(value: T)

  /** Attribute name to attribute value. */
  type Attributes = map<string, string>

  /** `utf8Len` bytes that all carry `attrs`. */
  datatype Run = Run(len: nat, attrs: Attributes)

  /** Which side of an exact run boundary a position binds to. */
  datatype Affinity = Upstream | Downstream

  /** `Run.isEmpty`: the run covers no bytes. The map is not consulted. */
  predicate IsEmptyRun(r: Run) {
    r.len == 0
  }

  /** `Run.split(index:)`: nothing at either end of the run, otherwise the
      run cut into a head of `index` bytes and the remainder. */
  function SplitRun(r: Run, index: nat): (res: Option<(Run, Run)>)
    requires index <= r.len
    ensures res.None? <==> index == 0 || index == r.len
    ensures res.Some? ==> Expand([res.value.0, res.value.1]) == Expand([r])
    ensures res.Some? ==> res.value.0.len == index && res.value.1.len == r.len - index
    ensures res.Some? ==> res.value.0.attrs == r.attrs && res.value.1.attrs == r.attrs
  {
    if index == 0 || index == r.len then None
    else
      var head := Run(index, r.attrs);
      var rest := Run(r.len - index, r.attrs);
      RepeatSplit(r.attrs, index, r.len - index);
      assert Expand([head, rest]) == Repeat(r.attrs, index) + (Repeat(r.attrs, r.len - index) + []);
      Some((head, rest))
  }

  /** Number of bytes covered by a run sequence. */
  function Total(rs: seq<Run>): nat
  {
    if rs == [] then 0 else rs[0].len + Total(rs[1..])
  }

  /** `n` copies of one attribute map. */
  function Repeat(a: Attributes, n: nat): (xs: seq<Attributes>)
    ensures |xs| == n
    ensures forall j :: 0 <= j < n ==> xs[j] == a
  {
    seq(n, _ => a)
  }

  /** The attribute map of every byte covered by `rs`, in byte order. */
  function Expand(rs: seq<Run>): (xs: seq<Attributes>)
    ensures |xs| == Total(rs)
  {
    if rs == [] then [] else Repeat(rs[0].attrs, rs[0].len) + Expand(rs[1..])
  }

  /** Byte offset at which run `i` starts (`i == |rs|` gives the end). */
  function Start(rs: seq<Run>, i: nat): (s: nat)
    requires i <= |rs|
    ensures s <= Total(rs)
    ensures i < |rs| ==> s + rs[i].len <= Total(rs)
  {
    if i == 0 then 0 else rs[0].len + Start(rs[1..], i - 1)
  }

  /** Byte offset at which run `i` ends. */
  function End(rs: seq<Run>, i: nat): nat
    requires i < |rs|
  {
    Start(rs, i) + rs[i].len
  }

  /** No run of the sequence is empty. */
  predicate NoEmpty(rs: seq<Run>) {
    forall i :: 0 <= i < |rs| ==> rs[i].len > 0
  }

  /** Offset `x` lies strictly inside some run, so it is not a run boundary. */
  predicate Straddles(rs: seq<Run>, x: int)
  {
    rs != [] && ((0 < x < rs[0].len) || Straddles(rs[1..], x - rs[0].len))
  }

  /** The run a byte offset selects, as the scan in `attributes(at:affinity:)`
      and `longestEffectiveRange` finds it: the first run ending at or after
      `byte`; at an exact run end, downstream moves on to the next run if
      there is one. */
  function Locate(rs: seq<Run>, byte: nat, aff: Affinity): (i: nat)
    requires |rs| > 0 && byte <= Total(rs)
    ensures i < |rs|
    ensures Start(rs, i) <= byte <= End(rs, i)
    ensures aff == Upstream ==> i == 0 || Start(rs, i) < byte
    ensures aff == Downstream ==> byte < End(rs, i) || i == |rs| - 1 || rs[i].len == 0
    decreases |rs|
  {
    if rs[0].len > byte then 0
    else if rs[0].len == byte then
      (if aff == Downstream && 1 < |rs| then 1 else 0)
    else
      assert Total(rs[1..]) > 0;
      1 + Locate(rs[1..], byte - rs[0].len, aff)
  }

  // ---------------------------------------------------------------------
  // Facts about the per-byte view

  lemma RepeatSplit(a: Attributes, m: nat, n: nat)
    ensures Repeat(a, m + n) == Repeat(a, m) + Repeat(a, n)
  {
  }

  lemma {:induction false} TotalAppend(xs: seq<Run>, ys: seq<Run>)
    ensures Total(xs + ys) == Total(xs) + Total(ys)
    decreases |xs|
  {
    if xs == [] {
      assert xs + ys == ys;
    } else {
      assert (xs + ys)[1..] == xs[1..] + ys;
      TotalAppend(xs[1..], ys);
    }
  }

  lemma {:induction false} ExpandAppend(xs: seq<Run>, ys: seq<Run>)
    ensures Expand(xs + ys) == Expand(xs) + Expand(ys)
    decreases |xs|
  {
    if xs == [] {
      assert xs + ys == ys;
    } else {
      assert (xs + ys)[1..] == xs[1..] + ys;
      ExpandAppend(xs[1..], ys);
    }
  }

  lemma {:induction false} StartIsPrefixTotal(rs: seq<Run>, i: nat)
    requires i <= |rs|
    ensures Start(rs, i) == Total(rs[..i])
    decreases i
  {
    if i > 0 {
      assert rs[..i][1..] == rs[1..][..i - 1];
      StartIsPrefixTotal(rs[1..], i - 1);
    }
  }

  lemma StartAll(rs: seq<Run>)
    ensures Start(rs, |rs|) == Total(rs)
  {
    StartIsPrefixTotal(rs, |rs|);
    assert rs[..|rs|] == rs;
  }

  /** Runs are laid out in order: a run ends no later than any later run starts. */
  lemma {:induction false} EndLeStart(rs: seq<Run>, k: nat, m: nat)
    requires k < m <= |rs|
    ensures End(rs, k) <= Start(rs, m)
    decreases k
  {
    if k > 0 {
      EndLeStart(rs[1..], k - 1, m - 1);
    }
  }

  /** Every byte of run `k` carries the attributes of run `k`. */
  lemma {:induction false} ExpandInRun(rs: seq<Run>, k: nat, j: nat)
    requires k < |rs| && Start(rs, k) <= j < End(rs, k)
    ensures j < |Expand(rs)| && Expand(rs)[j] == rs[k].attrs
    decreases k
  {
    if k > 0 {
      ExpandInRun(rs[1..], k - 1, j - rs[0].len);
    }
  }

  /** The run holding byte `j` is the one upstream location finds at `j + 1`. */
  lemma ExpandAt(rs: seq<Run>, j: nat)
    requires j < Total(rs)
    ensures var k := Locate(rs, j + 1, Upstream);
      Start(rs, k) <= j < End(rs, k) && Expand(rs)[j] == rs[k].attrs
  {
    var k := Locate(rs, j + 1, Upstream);
    ExpandInRun(rs, k, j);
  }

  /** `Straddles` holds exactly when some run strictly contains the offset. */
  lemma {:induction false} StraddlesInRun(rs: seq<Run>, x: int)
    ensures Straddles(rs, x) <==> exists i :: 0 <= i < |rs| && Start(rs, i) < x < End(rs, i)
    decreases |rs|
  {
    if rs != [] {
      StraddlesInRun(rs[1..], x - rs[0].len);
      if 0 < x < rs[0].len {
        assert Start(rs, 0) < x < End(rs, 0);
      } else if Straddles(rs[1..], x - rs[0].len) {
        var i :| 0 <= i < |rs[1..]| && Start(rs[1..], i) < x - rs[0].len < End(rs[1..], i);
        assert Start(rs, i + 1) < x < End(rs, i + 1);
      }
      if exists i :: 0 <= i < |rs| && Start(rs, i) < x < End(rs, i) {
        var i :| 0 <= i < |rs| && Start(rs, i) < x < End(rs, i);
        if i > 0 {
          assert Start(rs[1..], i - 1) < x - rs[0].len < End(rs[1..], i - 1);
          assert Straddles(rs[1..], x - rs[0].len);
        }
      }
    }
  }

  lemma {:induction false} EndIsNextStart(rs: seq<Run>, i: nat)
    requires i < |rs|
    ensures End(rs, i) == Start(rs, i + 1)
    decreases i
  {
    if i > 0 {
      EndIsNextStart(rs[1..], i - 1);
    }
  }

  /** A run sequence seen around its run `i`: what comes before, the run, what comes after. */
  lemma Decompose(rs: seq<Run>, i: nat)
    requires i < |rs|
    ensures rs == rs[..i] + [rs[i]] + rs[i + 1..]
    ensures Total(rs[..i]) == Start(rs, i)
    ensures Total(rs[i + 1..]) == Total(rs) - End(rs, i)
    ensures Expand(rs) == Expand(rs[..i]) + Repeat(rs[i].attrs, rs[i].len) + Expand(rs[i + 1..])
  {
    var a, x, b := rs[..i], [rs[i]], rs[i + 1..];
    assert rs == a + x + b;
    StartIsPrefixTotal(rs, i);
    assert Total(rs) == Total(a) + rs[i].len + Total(b) by {
      TotalAppend(a + x, b);
      TotalAppend(a, x);
      ExpandSingle(rs[i]);
    }
    assert Expand(rs) == Expand(a) + Repeat(rs[i].attrs, rs[i].len) + Expand(b) by {
      ExpandAppend(a + x, b);
      ExpandAppend(a, x);
      ExpandSingle(rs[i]);
    }
  }

  /** The bytes before run `i`, in the per-byte view. */
  lemma ExpandBefore(rs: seq<Run>, i: nat)
    requires i <= |rs|
    ensures Expand(rs)[..Start(rs, i)] == Expand(rs[..i])
  {
    assert rs == rs[..i] + rs[i..];
    ExpandAppend(rs[..i], rs[i..]);
    StartIsPrefixTotal(rs, i);
  }

  /** The bytes from run `i` on, in the per-byte view. */
  lemma ExpandFrom(rs: seq<Run>, i: nat)
    requires i <= |rs|
    ensures Total(rs[i..]) == Total(rs) - Start(rs, i)
    ensures Expand(rs)[Start(rs, i)..] == Expand(rs[i..])
  {
    assert rs == rs[..i] + rs[i..];
    TotalAppend(rs[..i], rs[i..]);
    ExpandAppend(rs[..i], rs[i..]);
    StartIsPrefixTotal(rs, i);
  }

  /** The bytes after run `i`, in the per-byte view. */
  lemma {:induction false} ExpandAfter(rs: seq<Run>, i: nat)
    requires i < |rs|
    ensures Expand(rs)[End(rs, i)..] == Expand(rs[i + 1..])
    decreases i
  {
    var head := Repeat(rs[0].attrs, rs[0].len);
    assert Expand(rs) == head + Expand(rs[1..]);
    if i == 0 {
      DropPrefix(head, Expand(rs[1..]), 0);
    } else {
      ExpandAfter(rs[1..], i - 1);
      assert rs[1..][i..] == rs[i + 1..];
      DropPrefix(head, Expand(rs[1..]), End(rs[1..], i - 1));
    }
  }

  /** A head followed by a part, where the part is known another way. */
  lemma Rejoin(whole: seq<Attributes>, head: seq<Attributes>, part: seq<Attributes>, other: seq<Attributes>, target: seq<Attributes>)
    requires whole == head + part && part == other && head + other == target
    ensures whole == target
  {
  }

  /** Dropping a prefix and then some more of what follows it. */
  lemma DropPrefix<T>(xs: seq<T>, ys: seq<T>, k: nat)
    requires k <= |ys|
    ensures (xs + ys)[|xs| + k..] == ys[k..]
  {
  }

  /** A non-empty run sequence seen as its runs but the last, then the last. */
  lemma SplitLast(rs: seq<Run>)
    requires |rs| > 0
    ensures rs == rs[..|rs| - 1] + [rs[|rs| - 1]]
    ensures Total(rs) == Total(rs[..|rs| - 1]) + rs[|rs| - 1].len
    ensures Expand(rs) == Expand(rs[..|rs| - 1]) + Repeat(rs[|rs| - 1].attrs, rs[|rs| - 1].len)
  {
    var init := rs[..|rs| - 1];
    assert rs == init + [rs[|rs| - 1]];
    TotalAppend(init, [rs[|rs| - 1]]);
    ExpandAppend(init, [rs[|rs| - 1]]);
    ExpandSingle(rs[|rs| - 1]);
  }

  lemma ExpandSingle(r: Run)
    ensures Total([r]) == r.len
    ensures Expand([r]) == Repeat(r.attrs, r.len)
  {
    assert [r][1..] == [];
  }

  lemma ExpandCons(r: Run, rs: seq<Run>)
    ensures Total([r] + rs) == r.len + Total(rs)
    ensures Expand([r] + rs) == Repeat(r.attrs, r.len) + Expand(rs)
  {
    assert ([r] + rs)[1..] == rs;
  }

  /** No offset at or before the start of a run sequence lies inside it. */
  lemma {:induction false} NoStraddleBelow(rs: seq<Run>, x: int)
    requires x <= 0
    ensures !Straddles(rs, x)
    decreases |rs|
  {
    if rs != [] {
      NoStraddleBelow(rs[1..], x - rs[0].len);
    }
  }

  /** Some run is non-empty exactly when the runs cover some byte. */
  lemma {:induction false} TotalPositive(rs: seq<Run>)
    ensures Total(rs) > 0 <==> exists i :: 0 <= i < |rs| && rs[i].len > 0
    decreases |rs|
  {
    if rs != [] {
      TotalPositive(rs[1..]);
      if rs[0].len > 0 {
        assert rs[0].len > 0;
      }
      if exists i :: 0 <= i < |rs[1..]| && rs[1..][i].len > 0 {
        var i :| 0 <= i < |rs[1..]| && rs[1..][i].len > 0;
        assert rs[i + 1].len > 0;
      }
      if exists i :: 0 <= i < |rs| && rs[i].len > 0 {
        var i :| 0 <= i < |rs| && rs[i].len > 0;
        if i > 0 {
          assert rs[1..][i - 1].len > 0;
        }
      }
    }
  }

  /** An offset lies inside a run of `p + q` exactly when it lies inside a
      run of `p`, or inside a run of `q` once shifted past `p`. */
  lemma {:induction false} StraddlesAppend(p: seq<Run>, q: seq<Run>, x: int)
    ensures Straddles(p + q, x) <==> Straddles(p, x) || Straddles(q, x - Total(p))
    decreases |p|
  {
    if p == [] {
      assert p + q == q;
    } else {
      assert (p + q)[1..] == p[1..] + q;
      StraddlesAppend(p[1..], q, x - p[0].len);
    }
  }
}
