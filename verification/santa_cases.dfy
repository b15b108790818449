/** The matcher as written, evaluated on fixed keys and draws and compared
    with the claims of its test suite (frontend/src/scripts/SantaSelector.test.js): that no match pairs
    two members of one group, and that nobody gives to their own giver. */
module SantaCases {
  import opened Wrappers
  import opened Seqs
  import opened OrderedTable
  import opened Santa

  /** Three groups, the first of two. The draws 3, 1, 1 shuffle the members
      to `a c b d`; the walk then ends with `a` giving to `b`, both of the
      first group, because the fallback to the starting member does not look
      at groups, though no group is longer than half the members. */
  lemma SameGroupPair()
    ensures ValidDraws(|MemberKeys([["a", "b"], ["c"], ["d"]])|, [3, 1, 1])
    ensures SantaSelector([["a", "b"], ["c"], ["d"]], [3, 1, 1])
      == Success([("b", "c"), ("c", "d"), ("d", "a"), ("a", "b")])
    ensures LastRow([["a", "b"], ["c"], ["d"]], "a") == LastRow([["a", "b"], ["c"], ["d"]], "b")
  {
    KeysOfThree();
    ShuffleOfThree();
    MatchOfThree();
  }

  lemma MatchOfThree()
    ensures Distinct(["a", "c", "b", "d"])
    ensures forall m :: m in ["a", "c", "b", "d"] ==> LastRow([["a", "b"], ["c"], ["d"]], m) >= 0
    ensures MatchKeys([["a", "b"], ["c"], ["d"]], ["a", "c", "b", "d"])
      == Success([("b", "c"), ("c", "d"), ("d", "a"), ("a", "b")])
  {
    var g := [["a", "b"], ["c"], ["d"]];
    var keys := ["a", "c", "b", "d"];
    MembersOfThree();
    WalkOfThree();
    FitsOfThree();
    assert MatchKeys(g, keys) == Success(WalkKeys(g, keys));
  }

  lemma FitsOfThree()
    ensures FirstTooBig([["a", "b"], ["c"], ["d"]], 4, 0) == None
  {
    assert FirstTooBig([["a", "b"], ["c"], ["d"]], 4, 3) == None;
  }

  lemma KeysOfThree()
    ensures MemberKeys([["a", "b"], ["c"], ["d"]]) == ["a", "b", "c", "d"]
  {
    LookupOfThree();
    var t3 := Table([("a", (0, 0)), ("b", (0, 1)), ("c", (1, 0)), ("d", (2, 0))]);
    assert Keys(t3) == ["a", "b", "c", "d"];
  }

  lemma LookupOfTwo()
    ensures GroupLookup([["a", "b"], ["c"]]) == Table([("a", (0, 0)), ("b", (0, 1)), ("c", (1, 0))])
  {
    var groups := [["a", "b"], ["c"]];
    var t0: Table<(nat, nat)> := Empty();
    assert RowPut(t0, ["a"], 0) == Table([("a", (0, 0))]);
    assert RowPut(t0, ["a", "b"], 0) == Table([("a", (0, 0)), ("b", (0, 1))]) by {
      assert ["a", "b"][..1] == ["a"];
    }
    assert groups[..0] == [] && groups[..1] == [["a", "b"]];
    var t1 := Table([("a", (0, 0)), ("b", (0, 1))]);
    assert GroupLookup(groups[..1]) == t1;
    assert RowPut(t1, ["c"], 1) == Table([("a", (0, 0)), ("b", (0, 1)), ("c", (1, 0))]) by {
      assert Find(t1.entries, "c").None?;
    }
  }

  lemma LookupOfThree()
    ensures GroupLookup([["a", "b"], ["c"], ["d"]])
      == Table([("a", (0, 0)), ("b", (0, 1)), ("c", (1, 0)), ("d", (2, 0))])
  {
    var groups := [["a", "b"], ["c"], ["d"]];
    LookupOfTwo();
    assert groups[..2] == [["a", "b"], ["c"]];
    var t2 := Table([("a", (0, 0)), ("b", (0, 1)), ("c", (1, 0))]);
    assert RowPut(t2, ["d"], 2) == Table(t2.entries + [("d", (2, 0))]) by {
      assert Find(t2.entries, "d").None?;
    }
  }

  lemma ShuffleOfThree()
    ensures ValidDraws(4, [3, 1, 1])
    ensures Shuffle(["a", "b", "c", "d"], [3, 1, 1]) == ["a", "c", "b", "d"]
  {
    var a := ["a", "b", "c", "d"];
    var b := ["a", "c", "b", "d"];
    DrawsOfThree();
    SwapsOfThree();
    assert ShuffleFrom(b, [3, 1, 1], 2) == b;
    assert ShuffleFrom(a, [3, 1, 1], 1) == b;
  }

  lemma DrawsOfThree()
    ensures ValidDraws(4, [3, 1, 1])
  {
    var d := [3, 1, 1];
    assert d[0] <= 3 && d[1] <= 2 && d[2] <= 1;
  }

  lemma SwapsOfThree()
    ensures Swap(["a", "b", "c", "d"], 3, 3) == ["a", "b", "c", "d"]
    ensures Swap(["a", "b", "c", "d"], 2, 1) == ["a", "c", "b", "d"]
    ensures Swap(["a", "c", "b", "d"], 1, 1) == ["a", "c", "b", "d"]
  {
    var a := ["a", "b", "c", "d"];
    var b := ["a", "c", "b", "d"];
    assert a[3 := a[3]][3 := a[3]] == a;
    assert a[2 := a[1]][1 := a[2]] == b;
    assert b[1 := b[1]][1 := b[1]] == b;
  }

  /** The walk over the keys `a c b d`: the halves are `a c` and `b d`, and
      the walk starts at `b`. */
  lemma RowsOfThree()
    ensures LastRow([["a", "b"], ["c"], ["d"]], "a") == 0
    ensures LastRow([["a", "b"], ["c"], ["d"]], "b") == 0
    ensures LastRow([["a", "b"], ["c"], ["d"]], "c") == 1
    ensures LastRow([["a", "b"], ["c"], ["d"]], "d") == 2
  {}

  /** Every key of the three-group case is distinct and sits in some group. */
  lemma MembersOfThree()
    ensures Distinct(["a", "c", "b", "d"])
    ensures forall m :: m in ["a", "c", "b", "d"] ==> LastRow([["a", "b"], ["c"], ["d"]], m) >= 0
  {
    var g := [["a", "b"], ["c"], ["d"]];
    var keys := ["a", "c", "b", "d"];
    RowsOfThree();
    forall m | m in keys ensures LastRow(g, m) >= 0 {
      assert m == "a" || m == "b" || m == "c" || m == "d";
    }
    assert Distinct(keys);
  }

  lemma WalkOfThree()
    ensures WalkKeys([["a", "b"], ["c"], ["d"]], ["a", "c", "b", "d"])
      == [("b", "c"), ("c", "d"), ("d", "a"), ("a", "b")]
  {
    MembersOfThree();
    var g := [["a", "b"], ["c"], ["d"]];
    var keys := ["a", "c", "b", "d"];
    var l, r := ["a", "c"], ["b", "d"];
    assert keys[..2] == l && keys[2..] == r;
    var w0 := Walk("b", false, {}, [2, 1, 1], []);
    assert seq(|g|, i requires 0 <= i < |g| => |g[i]|) == [2, 1, 1];
    assert SetOf(keys) == {"a", "b", "c", "d"};
    assert StartWalk(g, keys) == w0;
    WalkStarts(g, keys);
    WalkFromThree();
  }

  lemma WalkFromThree()
    ensures WalkFrom(Walk("b", false, {}, [2, 1, 1], []), [["a", "b"], ["c"], ["d"]], {"a", "b", "c", "d"}, ["a", "c"], ["b", "d"], "b")
      == [("b", "c"), ("c", "d"), ("d", "a"), ("a", "b")]
  {
    var g := [["a", "b"], ["c"], ["d"]];
    var ks := {"a", "b", "c", "d"};
    var l, r := ["a", "c"], ["b", "d"];
    var w0 := Walk("b", false, {}, [2, 1, 1], []);
    var w1 := Walk("c", true, {"b"}, [2, 0, 1], [("b", "c")]);
    var w2 := Walk("d", false, {"b", "c"}, [2, 0, 0], [("b", "c"), ("c", "d")]);
    var w3 := Walk("a", true, {"b", "c", "d"}, [1, 0, 0], [("b", "c"), ("c", "d"), ("d", "a")]);
    var w4 := Walk("b", false, {"b", "c", "d", "a"}, [0, 0, 0], [("b", "c"), ("c", "d"), ("d", "a"), ("a", "b")]);
    RowsOfThree();
    assert Frame(w0, g, ks, "b") && ChainSoFar(w0, ks, "b") && AllIn(l, ks) && AllIn(r, ks);
    StepOfThree0();
    StepProgress(w0, g, ks, l, r, "b");
    StepOfThree1();
    StepProgress(w1, g, ks, l, r, "b");
    StepOfThree2();
    StepProgress(w2, g, ks, l, r, "b");
    StepOfThree3();
    CrossingExtend([], ("b", "c"), g, "b");
    CrossingExtend(w1.matches, ("c", "d"), g, "b");
    CrossingExtend(w2.matches, ("d", "a"), g, "b");
    assert WalkFrom(w3, g, ks, l, r, "b") == w4.matches;
    assert WalkFrom(w2, g, ks, l, r, "b") == w4.matches;
    assert WalkFrom(w1, g, ks, l, r, "b") == w4.matches;
  }

  /** `b` (group 0) seeks group 2 on the left, finds none, and takes `c`. */
  lemma StepOfThree0()
    ensures Step(Walk("b", false, {}, [2, 1, 1], []), [["a", "b"], ["c"], ["d"]], {"a", "b", "c", "d"}, ["a", "c"], ["b", "d"], "b")
      == Walk("c", true, {"b"}, [2, 0, 1], [("b", "c")])
  {
    var g := [["a", "b"], ["c"], ["d"]];
    RowsOfThree();
    MaximalGroupSpec([2, 1, 1], 0);
    assert MaximalGroup([2, 1, 1], 0) == 2;
    var both := ["a", "c"] + ["b", "d"];
    assert both == ["a", "c", "b", "d"];
    assert SeekGroup(["a", "c"], g, 2, {}) == None;
    assert SeekOther(both, g, 0, None, {"b"}) == Some(1) by {
      assert both[1] == "c";
    }
  }

  /** `c` (group 1) seeks group 0 on the right, where `b` is visited, and
      takes `d`. */
  lemma StepOfThree1()
    ensures Step(Walk("c", true, {"b"}, [2, 0, 1], [("b", "c")]), [["a", "b"], ["c"], ["d"]], {"a", "b", "c", "d"}, ["a", "c"], ["b", "d"], "b")
      == Walk("d", false, {"b", "c"}, [2, 0, 0], [("b", "c"), ("c", "d")])
  {
    RowsOfThree();
    ReceiverOfThree1();
  }

  lemma ReceiverOfThree1()
    ensures LastRow([["a", "b"], ["c"], ["d"]], "c") >= 0
    ensures Receiver(Walk("c", true, {"b"}, [2, 0, 1], [("b", "c")]), [["a", "b"], ["c"], ["d"]], ["a", "c"], ["b", "d"], "b") == "d"
  {
    var g := [["a", "b"], ["c"], ["d"]];
    RowsOfThree();
    MaximalGroupSpec([2, 0, 1], 1);
    assert MaximalGroup([2, 0, 1], 1) == 0;
    var both := ["b", "d"] + ["a", "c"];
    assert both == ["b", "d", "a", "c"];
    assert SeekGroup(["b", "d"], g, 0, {"b"}) == None;
    assert SeekOther(both, g, 1, Some("b"), {"b", "c"}) == Some(1) by {
      assert both[1] == "d";
    }
  }

  /** `d` (group 2) seeks group 0 on the left and takes `a`. */
  lemma StepOfThree2()
    ensures Step(Walk("d", false, {"b", "c"}, [2, 0, 0], [("b", "c"), ("c", "d")]), [["a", "b"], ["c"], ["d"]], {"a", "b", "c", "d"}, ["a", "c"], ["b", "d"], "b")
      == Walk("a", true, {"b", "c", "d"}, [1, 0, 0], [("b", "c"), ("c", "d"), ("d", "a")])
  {
    var g := [["a", "b"], ["c"], ["d"]];
    RowsOfThree();
    MaximalGroupSpec([2, 0, 0], 2);
    assert MaximalGroup([2, 0, 0], 2) == 0;
    var l := ["a", "c"];
    assert SeekGroup(l, g, 0, {"b", "c"}) == Some(0) by {
      assert l[0] == "a";
    }
  }

  /** `a` (group 0) finds every other member visited and falls back to the
      starting member `b`, of its own group. */
  lemma StepOfThree3()
    ensures Step(Walk("a", true, {"b", "c", "d"}, [1, 0, 0], [("b", "c"), ("c", "d"), ("d", "a")]), [["a", "b"], ["c"], ["d"]], {"a", "b", "c", "d"}, ["a", "c"], ["b", "d"], "b")
      == Walk("b", false, {"b", "c", "d", "a"}, [0, 0, 0], [("b", "c"), ("c", "d"), ("d", "a"), ("a", "b")])
  {
    RowsOfThree();
    ReceiverOfThree3();
  }

  lemma ReceiverOfThree3()
    ensures LastRow([["a", "b"], ["c"], ["d"]], "a") >= 0
    ensures Receiver(Walk("a", true, {"b", "c", "d"}, [1, 0, 0], [("b", "c"), ("c", "d"), ("d", "a")]), [["a", "b"], ["c"], ["d"]], ["a", "c"], ["b", "d"], "b") == "b"
  {
    var g := [["a", "b"], ["c"], ["d"]];
    RowsOfThree();
    MaximalGroupSpec([1, 0, 0], 0);
    assert MaximalGroup([1, 0, 0], 0) == 2;
    var both := ["b", "d"] + ["a", "c"];
    assert both == ["b", "d", "a", "c"];
    assert SeekGroup(["b", "d"], g, 2, {"b", "c", "d"}) == None;
    assert SeekOther(both, g, 0, Some("d"), {"b", "c", "d", "a"}) == None by {
      assert forall j :: 0 <= j < |both| ==> both[j] in {"b", "c", "d", "a"};
    }
  }

  /** With one member in each of two groups the only possible matching is a
      2-cycle, which the matcher returns though the test suite rules 2-cycles
      out. */
  lemma TwoMembersCycle()
    ensures ValidDraws(|MemberKeys([["a"], ["b"]])|, [1])
    ensures SantaSelector([["a"], ["b"]], [1]) == Success([("b", "a"), ("a", "b")])
  {
    KeysOfTwo();
    ShuffleOfTwo();
    MatchOfTwo();
  }

  lemma ShuffleOfTwo()
    ensures ValidDraws(2, [1])
    ensures Shuffle(["a", "b"], [1]) == ["a", "b"]
  {
    assert Swap(["a", "b"], 1, 1) == ["a", "b"] by {
      assert ["a", "b"][1 := "b"][1 := "b"] == ["a", "b"];
    }
    assert ShuffleFrom(["a", "b"], [1], 1) == ["a", "b"];
  }

  lemma KeysOfTwo()
    ensures MemberKeys([["a"], ["b"]]) == ["a", "b"]
  {
    var g := [["a"], ["b"]];
    var t0: Table<(nat, nat)> := Empty();
    assert g[..1] == [["a"]] && g[..0] == [];
    assert GroupLookup(g[..1]) == Table([("a", (0, 0))]) by {
      assert RowPut(t0, ["a"], 0) == Table([("a", (0, 0))]);
    }
    var t1 := Table([("a", (0, 0))]);
    assert RowPut(t1, ["b"], 1) == Table([("a", (0, 0)), ("b", (1, 0))]) by {
      assert Find(t1.entries, "b").None?;
    }
  }

  lemma MatchOfTwo()
    ensures MatchKeys([["a"], ["b"]], ["a", "b"]) == Success([("b", "a"), ("a", "b")])
  {
    var g := [["a"], ["b"]];
    var keys := ["a", "b"];
    assert LastRow(g, "a") == 0 && LastRow(g, "b") == 1;
    assert forall m :: m in keys ==> LastRow(g, m) >= 0;
    assert Distinct(keys);
    assert FirstTooBig(g, 2, 0) == None by {
      assert FirstTooBig(g, 2, 2) == None;
    }
    var l, r := ["a"], ["b"];
    assert keys[..1] == l && keys[1..] == r;
    assert SetOf(keys) == {"a", "b"};
    var w0 := Walk("b", false, {}, [1, 1], []);
    assert seq(|g|, i requires 0 <= i < |g| => |g[i]|) == [1, 1];
    assert StartWalk(g, keys) == w0;
    WalkStarts(g, keys);
    WalkFromTwo();
    assert MatchKeys(g, keys) == Success(WalkKeys(g, keys));
  }

  /** `b` gives to `a`, the only member of the other group; `a` then finds
      nobody unvisited and falls back to `b`. */
  lemma WalkFromTwo()
    ensures WalkFrom(Walk("b", false, {}, [1, 1], []), [["a"], ["b"]], {"a", "b"}, ["a"], ["b"], "b")
      == [("b", "a"), ("a", "b")]
  {
    var g := [["a"], ["b"]];
    var ks := {"a", "b"};
    var l, r := ["a"], ["b"];
    var w0 := Walk("b", false, {}, [1, 1], []);
    var w1 := Walk("a", true, {"b"}, [0, 1], [("b", "a")]);
    var w2 := Walk("b", false, {"b", "a"}, [0, 0], [("b", "a"), ("a", "b")]);
    assert LastRow(g, "a") == 0 && LastRow(g, "b") == 1;
    assert Frame(w0, g, ks, "b") && ChainSoFar(w0, ks, "b") && AllIn(l, ks) && AllIn(r, ks);
    StepsOfTwo();
    StepProgress(w0, g, ks, l, r, "b");
    CrossingExtend([], ("b", "a"), g, "b");
    assert WalkFrom(w1, g, ks, l, r, "b") == w2.matches;
  }

  lemma StepsOfTwo()
    ensures Step(Walk("b", false, {}, [1, 1], []), [["a"], ["b"]], {"a", "b"}, ["a"], ["b"], "b")
      == Walk("a", true, {"b"}, [0, 1], [("b", "a")])
    ensures Step(Walk("a", true, {"b"}, [0, 1], [("b", "a")]), [["a"], ["b"]], {"a", "b"}, ["a"], ["b"], "b")
      == Walk("b", false, {"b", "a"}, [0, 0], [("b", "a"), ("a", "b")])
  {
    var g := [["a"], ["b"]];
    var l, r := ["a"], ["b"];
    assert LastRow(g, "a") == 0 && LastRow(g, "b") == 1;
    MaximalGroupSpec([1, 1], 1);
    assert MaximalGroup([1, 1], 1) == 0;
    assert SeekGroup(l, g, 0, {}) == Some(0) by { assert l[0] == "a"; }
    MaximalGroupSpec([0, 1], 0);
    assert MaximalGroup([0, 1], 0) == 1;
    assert SeekGroup(r, g, 1, {"b"}) == None;
    assert SeekOther(r + l, g, 0, Some("b"), {"b", "a"}) == None by {
      assert r + l == ["b", "a"];
    }
  }
}
