/** The tree `root -> A -> {L1, L2}` with an emulators entry per leaf, and
    the `emulators` read from L1 one level up. */
module EmulatorsExample {
  import opened Json
  import opened Topology
  import opened LevelOrder
  import opened Grouping
  import opened HeightText
  import opened EmulatorsQuery

  const ExampleTopology: Obj := map[
    "max_height" := JString("2"),
    "root" := JObject(map["children" := JArray([JString("A")])]),
    "A" := JObject(map["parent" := JString("root"), "children" := JArray([JString("L1"), JString("L2")])]),
    "L1" := JObject(map["parent" := JString("A"), "children" := JArray([])]),
    "L2" := JObject(map["parent" := JString("A"), "children" := JArray([])])
  ]

  const ExampleEmulators: Obj := map[
    "L1" := JObject(map["ip" := JArray([JString("1.1.1.1")])]),
    "L2" := JObject(map["ip" := JArray([JString("2.2.2.2")])])
  ]

  const ExampleRank: map<string, nat> := map["root" := 2, "A" := 1, "L1" := 0, "L2" := 0]

  lemma ExampleWellFormed()
    ensures WellFormed(ExampleTopology, ExampleRank)
  {
    var t, rank := ExampleTopology, ExampleRank;
    forall n | IsNode(t, n)
      ensures Ranked(t, rank, n)
    {
      assert n in t.Keys;
      assert n == "root" || n == "A" || n == "L1" || n == "L2";
      if n == "A" {
        assert Children(t, n) == ["L1", "L2"];
      } else if n == "root" {
        assert Children(t, n) == ["A"];
      } else {
        assert Children(t, n) == [];
      }
    }
  }

  lemma ExampleLeaves()
    ensures WellFormed(ExampleTopology, ExampleRank)
    ensures CanClimb(ExampleTopology, "L1", 1) && IsNode(ExampleTopology, Ancestor(ExampleTopology, "L1", 1))
    ensures Leaves(ExampleTopology, "L1", 1, ExampleRank) == ["L2"]
  {
    var t, rank := ExampleTopology, ExampleRank;
    ExampleWellFormed();
    assert Ancestor(t, "L1", 1) == "A";
    assert Children(t, "A") == ["L1", "L2"];
    assert Children(t, "L2") == [];
    assert Excluding(["L1", "L2"], "L1") == Excluding(["L1"], "L1") + ["L2"];
    assert Excluding(["L1"], "L1") == [];
    assert [ "A" ][1..] + ["L2"] == ["L2"];
    assert Leaves(t, "L1", 1, rank) == Bfs(t, rank, ["L2"], "L1");
  }

  lemma ExampleMaxHeight()
    ensures HasString(ExampleTopology, "max_height") && ExampleTopology["max_height"].s == "2"
    ensures !LexLess(ExampleTopology["max_height"].s, "1")
  {
    LexLessSingle('2', '1');
  }

  lemma ExampleSubtree()
    ensures SubtreeAdmissible(ExampleTopology, ExampleEmulators, "L1", 1, ExampleRank)
  {
    ExampleLeaves();
    ExampleGrouped();
  }

  lemma ExampleAdmissible()
    ensures Admissible(ExampleTopology, ExampleEmulators, "L1", "1", ExampleRank)
  {
    ExampleMaxHeight();
    HeightOne();
    ExampleSubtree();
  }

  lemma ExampleGrouped()
    ensures HasParent(ExampleTopology, "L2") && Parent(ExampleTopology, "L2") == "A"
    ensures Readable(ExampleTopology, ExampleEmulators, "L1", "A", ["L2"])
    ensures Grouped(ExampleTopology, ExampleEmulators, "L1", ["L2"]) ==
      map["A" := JObject(map["L2" := JObject(map["ip" := JArray([JString("2.2.2.2")])])])]
  {
    var t, emu := ExampleTopology, ExampleEmulators;
    assert HasParent(t, "L2") && Parent(t, "L2") == "A";
    assert SameParent(t, ["L2"], "A");
    GroupedSingleParent(t, emu, "L1", ["L2"], "A");
    assert Entries(emu, "L1", ["L2"]) == map["L2" := emu["L2"]];
  }

  /** `emulators(L1, 1)` answers `{"A": {"L2": {"ip": ["2.2.2.2"]}}}`: L1 is on
      the excluded branch, and its sibling L2 is grouped under A. */
  lemma ExampleQuery()
    ensures Admissible(ExampleTopology, ExampleEmulators, "L1", "1", ExampleRank)
    ensures EmulatorsReply(ExampleTopology, ExampleEmulators, "L1", "1", ExampleRank) ==
      Body(JObject(map["A" := JObject(map["L2" := JObject(map["ip" := JArray([JString("2.2.2.2")])])])]))
  {
    ExampleMaxHeight();
    HeightOne();
    ExampleAdmissible();
    ExampleLeaves();
    ExampleGrouped();
  }
}
