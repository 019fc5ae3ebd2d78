/**
 Concrete call sequences on a BiMap[string, int], with "" and 0 as Go's zero
 values, and the maps they leave behind.
 */
module BiMapScenarios {
  import opened BiMapState

  /** Setting the same pair twice stores it once. */
  lemma SetSamePairTwice()
    ensures var s := PutAll(Empty(), [("a", 1), ("a", 1)]);
            && s.forward == map["a" := 1]
            && s.inverse == map[1 := "a"]
            && Consistent(s) && |s.forward| == 1
  {
    var s0 := Empty<string, int>();
    PutAllSnoc(s0, [], "a", 1);
    PutAllSnoc(s0, [("a", 1)], "a", 1);
    var s1 := PutAll(s0, [("a", 1)]);
    assert s1 == State(map["a" := 1], map[1 := "a"]);
    PutStoredPair(s1, "a", 1);
  }

  /** Set("a", 1); Set("b", 2); Delete("a") leaves only b -> 2 in both directions. */
  lemma SetSetDelete()
    ensures var s := Remove(PutAll(Empty(), [("a", 1), ("b", 2)]), "a", 0);
            && s.forward == map["b" := 2]
            && s.inverse == map[2 := "b"]
            && Consistent(s)
  {
    var s0 := Empty<string, int>();
    PutAllSnoc(s0, [], "a", 1);
    PutAllSnoc(s0, [("a", 1)], "b", 2);
    var s2 := PutAll(s0, [("a", 1), ("b", 2)]);
    assert s2 == State(map["a" := 1, "b" := 2], map[1 := "a", 2 := "b"]);
    assert s2.forward - {"a"} == map["b" := 2];
    assert s2.inverse - {1} == map[2 := "b"];
  }

  /** Set("a", 1); Set("a", 2) keeps the stale inverse entry 1 -> "a". */
  lemma RebindOrphan()
    ensures var s := PutAll(Empty(), [("a", 1), ("a", 2)]);
            && s.forward == map["a" := 2]
            && s.inverse == map[1 := "a", 2 := "a"]
            && !Consistent(s)
  {
    var s0 := Empty<string, int>();
    PutAllSnoc(s0, [], "a", 1);
    PutAllSnoc(s0, [("a", 1)], "a", 2);
    var s1 := PutAll(s0, [("a", 1)]);
    assert s1 == State(map["a" := 1], map[1 := "a"]);
    PutRebindKeyOrphans(s1, "a", 2);
  }

  /** Collect([("x", 1), ("y", 2), ("x", 3)]): x ends at 3, the size is 2, and the
      stale inverse entry 1 -> "x" is still there. */
  lemma CollectRebind()
    ensures var s := PutAll(Empty(), [("x", 1), ("y", 2), ("x", 3)]);
            && s.forward == map["x" := 3, "y" := 2]
            && |s.forward| == 2
            && s.inverse == map[1 := "x", 2 := "y", 3 := "x"]
            && 1 in s.inverse && At(s.inverse, 3, "") == "x"
  {
    var s0 := Empty<string, int>();
    PutAllSnoc(s0, [], "x", 1);
    PutAllSnoc(s0, [("x", 1)], "y", 2);
    PutAllSnoc(s0, [("x", 1), ("y", 2)], "x", 3);
    assert PutAll(s0, [("x", 1)]) == State(map["x" := 1], map[1 := "x"]);
    var s2 := PutAll(s0, [("x", 1), ("y", 2)]);
    assert s2 == State(map["x" := 1, "y" := 2], map[1 := "x", 2 := "y"]);
    assert s2.forward["x" := 3] == map["x" := 3, "y" := 2];
    assert [("x", 1), ("y", 2)] + [("x", 3)] == [("x", 1), ("y", 2), ("x", 3)];
    var s3 := PutAll(s0, [("x", 1), ("y", 2), ("x", 3)]);
    assert s3 == State(map["x" := 3, "y" := 2], map[1 := "x", 2 := "y", 3 := "x"]);
    assert s3.forward.Keys == {"x", "y"};
  }

  /** Delete of an absent key when the zero value 0 is live: the inverse entry 0 -> "a"
      goes, the forward entry "a" -> 0 stays. */
  lemma DeleteAbsentKeyErasesZero()
    ensures var s := Remove(PutAll(Empty(), [("a", 0)]), "b", 0);
            && s.forward == map["a" := 0]
            && s.inverse == map[]
            && !Consistent(s)
  {
    var s0 := Empty<string, int>();
    PutAllSnoc(s0, [], "a", 0);
    var s1 := PutAll(s0, [("a", 0)]);
    assert s1 == State(map["a" := 0], map[0 := "a"]);
    RemoveAbsent(s1, "b", 0);
    assert s1.inverse - {0} == map[];
  }
}
