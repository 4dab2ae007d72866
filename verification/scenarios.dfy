/** Concrete cases from the library's own test suite (Tests/TextTests),
    stated over the per-byte attributes. */
module Scenarios {
  import opened RunBasics
  import opened RunList
  import opened Graphemes
  import opened AttributedText

  /** Every offset inside a string is a grapheme boundary (ASCII text). */
  function EveryOffset(bs: seq<byte>, k: nat): bool { true }

  /** No offset inside a string is a grapheme boundary (one cluster). */
  function NoOffset(bs: seq<byte>, k: nat): bool { false }

  const ABC: seq<byte> := [0x61, 0x62, 0x63]

  /** The three edits of `testModifyAttributes`, one state at a time. */
  function Edited0(): Text { InitWithAttributes(ABC, map[]) }
  function Edited1(): Text { AddAttribute(Edited0(), "1", "1", 0, 1) }
  function Edited2(): Text { AddAttribute(Edited1(), "3", "3", 1, 3) }
  function Edited3(): Text { AddAttribute(Edited2(), "2", "2", 1, 2) }

  lemma Edit1()
    ensures Valid(Edited1()) && Edited1().bytes == ABC
    ensures Attrs(Edited1()) == [map["1" := "1"], map[], map[]]
  {
    assert Attrs(Edited0()) == [map[], map[], map[]];
  }

  lemma Edit2()
    ensures Valid(Edited2()) && Edited2().bytes == ABC
    ensures Attrs(Edited2()) == [map["1" := "1"], map["3" := "3"], map["3" := "3"]]
  {
    Edit1();
  }

  lemma Edit3()
    ensures Valid(Edited3()) && Edited3().bytes == ABC
    ensures Attrs(Edited3()) == [map["1" := "1"], map["2" := "2", "3" := "3"], map["3" := "3"]]
  {
    Edit2();
    assert map["3" := "3"]["2" := "2"] == map["2" := "2", "3" := "3"];
  }

  /** `testModifyAttributes`: three edits of "abc" leave "a" with 1, "b"
      with 2 and 3, and "c" with 3. */
  lemma ModifyAttributesScenario()
    ensures var t0 := InitWithAttributes(ABC, map[]);
      var t1 := AddAttribute(t0, "1", "1", 0, 1);
      var t2 := AddAttribute(t1, "3", "3", 1, 3);
      var t3 := AddAttribute(t2, "2", "2", 1, 2);
      && Valid(t3) && t3.bytes == ABC
      && Attrs(t3) == [map["1" := "1"], map["2" := "2", "3" := "3"], map["3" := "3"]]
  {
    Edit3();
  }

  /** Plain "abc" with "a" and then "c" marked, as in `testAddAttributeFirst`. */
  function MarkedA(): Text { AddAttribute(Init(ABC), "new", "a", 0, 1) }
  function Marked(): Text { AddAttribute(MarkedA(), "new", "c", 2, 3) }

  lemma MarkedAAttrs()
    ensures Valid(MarkedA()) && MarkedA().bytes == ABC
    ensures Attrs(MarkedA()) == [map["new" := "a"], map[], map[]]
  {
    assert Attrs(Init(ABC)) == [map[], map[], map[]];
  }

  lemma MarkedAttrs()
    ensures Valid(Marked()) && Marked().bytes == ABC
    ensures Attrs(Marked()) == [map["new" := "a"], map[], map["new" := "c"]]
  {
    MarkedAAttrs();
  }

  lemma MarkedRuns()
    ensures Total(RunsOf(Marked().runs)) == 3 && |RunsOf(Marked().runs)| > 0
  {
    MarkedAttrs();
  }

  /** `testAddAttributeFirst`: after marking "a" and "c" in plain "abc",
      the lookups at offsets 1 and 2 depend on the affinity; at 0 and 3
      both affinities select the neighbouring run inside the text. */
  lemma AttributeAffinityScenario()
    ensures var t := AddAttribute(AddAttribute(Init(ABC), "new", "a", 0, 1), "new", "c", 2, 3);
      && LookupDefined(t, 0) && LookupDefined(t, 1) && LookupDefined(t, 2) && LookupDefined(t, 3)
      && Attribute(t, "new", 0, Upstream) == Some("a")
      && Attribute(t, "new", 0, Downstream) == Some("a")
      && Attribute(t, "new", 1, Upstream) == Some("a")
      && Attribute(t, "new", 1, Downstream) == None
      && Attribute(t, "new", 2, Upstream) == None
      && Attribute(t, "new", 2, Downstream) == Some("c")
      && Attribute(t, "new", 3, Upstream) == Some("c")
      && Attribute(t, "new", 3, Downstream) == Some("c")
  {
    MarkedUpstream();
    MarkedDownstream();
  }

  lemma MarkedUpstream()
    ensures LookupDefined(Marked(), 0) && LookupDefined(Marked(), 1)
    ensures LookupDefined(Marked(), 2) && LookupDefined(Marked(), 3)
    ensures Attribute(Marked(), "new", 0, Upstream) == Some("a")
    ensures Attribute(Marked(), "new", 1, Upstream) == Some("a")
    ensures Attribute(Marked(), "new", 2, Upstream) == None
    ensures Attribute(Marked(), "new", 3, Upstream) == Some("c")
  {
    MarkedAttrs();
    MarkedRuns();
  }

  lemma MarkedDownstream()
    ensures LookupDefined(Marked(), 0) && LookupDefined(Marked(), 1)
    ensures LookupDefined(Marked(), 2) && LookupDefined(Marked(), 3)
    ensures Attribute(Marked(), "new", 0, Downstream) == Some("a")
    ensures Attribute(Marked(), "new", 1, Downstream) == None
    ensures Attribute(Marked(), "new", 2, Downstream) == Some("c")
    ensures Attribute(Marked(), "new", 3, Downstream) == Some("c")
  {
    MarkedDownstreamFirst();
    MarkedDownstreamLast();
  }

  lemma MarkedDownstreamFirst()
    ensures LookupDefined(Marked(), 0) && LookupDefined(Marked(), 1)
    ensures Attribute(Marked(), "new", 0, Downstream) == Some("a")
    ensures Attribute(Marked(), "new", 1, Downstream) == None
  {
    MarkedAttrs();
    MarkedRuns();
  }

  lemma MarkedDownstreamLast()
    ensures LookupDefined(Marked(), 2) && LookupDefined(Marked(), 3)
    ensures Attribute(Marked(), "new", 2, Downstream) == Some("c")
    ensures Attribute(Marked(), "new", 3, Downstream) == Some("c")
  {
    MarkedAttrs();
    MarkedRuns();
  }

  /** `testCombiningAppend`: a woman followed by a skin tone, a zero-width
      joiner and a fire engine form one cluster, so the appended bytes take
      the attributes of the first text and the result is one run. */
  lemma CombiningAppendScenario()
    ensures var a: Attributes := map["a" := "a"];
      var woman := InitWithAttributes([0xF0, 0x9F, 0x91, 0xA9], a);
      var rest := InitWithAttributes([0xF0, 0x9F, 0x8F, 0xBB, 0xE2, 0x80, 0x8D, 0xF0, 0x9F, 0x9A, 0x92], map["b" := "b"]);
      && AppendTextDefined(NoOffset, woman, rest)
      && Valid(AppendText(NoOffset, woman, rest).0)
      && Attrs(AppendText(NoOffset, woman, rest).0) == Repeat(a, 15)
  {
    var a: Attributes := map["a" := "a"];
    var b: Attributes := map["b" := "b"];
    var woman := InitWithAttributes([0xF0, 0x9F, 0x91, 0xA9], a);
    var rest := InitWithAttributes([0xF0, 0x9F, 0x8F, 0xBB, 0xE2, 0x80, 0x8D, 0xF0, 0x9F, 0x9A, 0x92], b);
    assert a != b by { assert "a" in a && "a" !in b; }
    assert !LastRunsMatch(woman.runs.rs, rest.runs.rs);
    var bytes := woman.bytes + rest.bytes;
    assert |bytes| == 15;
    assert Overrun(NoOffset, bytes, 4) == 11 by {
      assert NextBoundary(NoOffset, bytes, 4) == 15;
    }
    assert AppendTextDefined(NoOffset, woman, rest) by {
      assert Append(woman.runs, rest.runs) == Rich([Run(4, a), Run(11, b)]);
    }
    SeamRunKeptCases(woman, rest);
    AppendTextValid(NoOffset, woman, rest);
    AppendTextRepairsSeam(NoOffset, woman, rest);
    assert Attrs(rest)[11..] == [];
    RepeatSplit(a, 4, 11);
  }

  /** `testInsertTextStart`: inserting "z" carrying an attribute at the start
      of plain "abc" makes the text rich, with "z" attributed and "abc" not. */
  lemma InsertTextStartScenario()
    ensures var z := InitWithAttributes([0x7A], map["new" := "attr"]);
      && ReplaceDefined(EveryOffset, Init(ABC), 0, 0, z)
      && var r := Insert(EveryOffset, Init(ABC), 0, z).0;
         && Valid(r) && IsRich(r) && r.bytes == [0x7A] + ABC
         && Attrs(r) == [map["new" := "attr"], map[], map[], map[]]
  {
    var t := Init(ABC);
    var z := InitWithAttributes([0x7A], map["new" := "attr"]);
    var u := AsRich(t);
    assert Upgrade(t, z) == u;
    assert SplitText(u, 0) == (Init([]), u);
    assert SplitText(Init([]), 0) == (Init([]), Init([]));
    AppendTextAttrs(EveryOffset, Init([]), z);
    var withS := AppendText(EveryOffset, Init([]), z).0;
    assert withS.bytes == [0x7A];
    assert Valid(withS) by { AppendTextValid(EveryOffset, Init([]), z); }
    assert IsRich(withS);
    assert Attrs(withS) == [map["new" := "attr"]] by {
      ExpandSingle(Run(1, map["new" := "attr"]));
    }
    assert map["new" := "attr"] != map[] by { assert "new" in map["new" := "attr"]; }
    assert !LastRunsMatch(withS.runs.rs, u.runs.rs);
    assert IsBoundary(EveryOffset, withS.bytes + u.bytes, 1);
    assert AppendTextDefined(EveryOffset, withS, u);
    AppendTextValid(EveryOffset, withS, u);
    AppendTextAttrs(EveryOffset, withS, u);
  }
}
