/** What deep unmerges lead to: a run of five edits after which the root walk no longer ends. */
module DeepUnmerge {
  import opened Types
  import opened ProvinceForest
  import opened ForestRuns
  import opened AcyclicRuns

  function Bare(id: ProvinceID, parent: ProvinceID, children: set<ProvinceID>): Province {
    var corner := Point2D(0, 0);
    Province(id, Color(0, 0, 0), Land, false, "", "", 0, BoundingBox(corner, corner), parent, children)
  }

  /** Provinces 1, 2 and 3 with the given parents and children. */
  function Trio(
    p1: ProvinceID, c1: set<ProvinceID>, p2: ProvinceID, c2: set<ProvinceID>, p3: ProvinceID, c3: set<ProvinceID>)
    : ProvinceMap
  {
    map[1 := Bare(1, p1, c1), 2 := Bare(2, p2, c2), 3 := Bare(3, p3, c3)]
  }

  lemma SuccessfulMerge(m: ProvinceMap, a: ProvinceID, na: nat, ra: ProvinceID, b: ProvinceID, nb: nat, rb: ProvinceID)
    requires Walk(m, a, na, Value(ra)) && Walk(m, b, nb, Value(rb)) && ra != rb && a != b && a in m && b in m
    ensures Terminates(m, a) && Terminates(m, b)
    ensures ra in m && rb in m && Merged(m, a, b) == (Linked(m, ra, rb), Success)
  {
    WalkGivesRoot(m, a, na, Value(ra));
    WalkGivesRoot(m, b, nb, Value(rb));
    WalkEndsAtRoot(m, a, na, ra);
    WalkEndsAtRoot(m, b, nb, rb);
  }

  /**
    From three fresh provinces: merge 1 into 2, 2 into 3, unmerge 1 (which is
    deep), merge 3 into 1, unmerge 2 (deep again). Now 1 and 3 are each other's
    parent, and the root walk from them runs for ever.
   */
  lemma DeepUnmergesBuildACycle()
    ensures Fresh(Trio(0, {}, 0, {}, 0, {}))
    ensures
      var m := Trio(0, {}, 0, {}, 0, {});
      Terminates(m, 1) && Terminates(m, 2) && Merged(m, 1, 2) == (Trio(2, {}, 0, {1}, 0, {}), Success)
    ensures
      var m := Trio(2, {}, 0, {1}, 0, {});
      Terminates(m, 2) && Terminates(m, 3) && Merged(m, 2, 3) == (Trio(2, {}, 3, {1}, 0, {2}), Success)
    ensures
      var m := Trio(2, {}, 3, {1}, 0, {2});
      Deep(m, 1) && Terminates(m, 2) && Unmerged(m, 1) == (Trio(0, {}, 3, {1}, 0, {2}), Success)
    ensures
      var m := Trio(0, {}, 3, {1}, 0, {2});
      Terminates(m, 3) && Terminates(m, 1) && Merged(m, 3, 1) == (Trio(0, {3}, 3, {1}, 1, {2}), Success)
    ensures
      var m := Trio(0, {3}, 3, {1}, 1, {2});
      Deep(m, 2) && Loops(m, 2) && Terminates(m, 3) && Unmerged(m, 2) == (Trio(3, {1, 3}, 0, {}, 1, {2}), Success)
    ensures !Terminates(Trio(3, {1, 3}, 0, {}, 1, {2}), 1)
  {
    MergeSteps();
    FirstUnmergeStep();
    SecondUnmergeStep();
    LastUnmergeLoops();
  }

  /** Province 2 lists 1, which stands above its parent. Afterwards 1 and 3 are each other's parent. */
  lemma LastUnmergeLoops()
    ensures Loops(Trio(0, {3}, 3, {1}, 1, {2}), 2)
    ensures !Terminates(Trio(3, {1, 3}, 0, {}, 1, {2}), 1)
  {
    var before, after := Trio(0, {3}, 3, {1}, 1, {2}), Trio(3, {1, 3}, 0, {}, 1, {2});
    assert Leads(before, 1, 0, 1) && Leads(before, 3, 1, 1);
    assert Leads(after, 1, 0, 1) && Leads(after, 3, 1, 1) && Leads(after, 1, 2, 1);
    CycleNeverEnds(after, 1, 2);
  }

  lemma MergeSteps()
    ensures Fresh(Trio(0, {}, 0, {}, 0, {}))
    ensures
      var m := Trio(0, {}, 0, {}, 0, {});
      Terminates(m, 1) && Terminates(m, 2) && Merged(m, 1, 2) == (Trio(2, {}, 0, {1}, 0, {}), Success)
    ensures
      var m := Trio(2, {}, 0, {1}, 0, {});
      Terminates(m, 2) && Terminates(m, 3) && Merged(m, 2, 3) == (Trio(2, {}, 3, {1}, 0, {2}), Success)
    ensures
      var m := Trio(0, {}, 3, {1}, 0, {2});
      Terminates(m, 3) && Terminates(m, 1) && Merged(m, 3, 1) == (Trio(0, {3}, 3, {1}, 1, {2}), Success)
  {
    var none: set<ProvinceID> := {};
    assert none + {1} == {1} && none + {2} == {2} && none + {3} == {3};
    SuccessfulMerge(Trio(0, {}, 0, {}, 0, {}), 1, 0, 1, 2, 0, 2);
    assert Linked(Trio(0, {}, 0, {}, 0, {}), 1, 2) == Trio(2, {}, 0, {1}, 0, {});
    SuccessfulMerge(Trio(2, {}, 0, {1}, 0, {}), 2, 0, 2, 3, 0, 3);
    assert Linked(Trio(2, {}, 0, {1}, 0, {}), 2, 3) == Trio(2, {}, 3, {1}, 0, {2});
    SuccessfulMerge(Trio(0, {}, 3, {1}, 0, {2}), 3, 0, 3, 1, 0, 1);
    assert Linked(Trio(0, {}, 3, {1}, 0, {2}), 3, 1) == Trio(0, {3}, 3, {1}, 1, {2});
  }

  lemma FirstUnmergeStep()
    ensures
      var m := Trio(2, {}, 3, {1}, 0, {2});
      Deep(m, 1) && Terminates(m, 2) && Unmerged(m, 1) == (Trio(0, {}, 3, {1}, 0, {2}), Success)
  {
    var m := Trio(2, {}, 3, {1}, 0, {2});
    assert Walk(m, 3, 0, Value(3));
    WalkGivesRoot(m, 2, 1, Value(3));
    var none: set<ProvinceID> := {};
    assert {2} - {1} + none == {2};
    assert Unmerged(m, 1).0 == Trio(0, {}, 3, {1}, 0, {2});
  }

  lemma SecondUnmergeStep()
    ensures
      var m := Trio(0, {3}, 3, {1}, 1, {2});
      Deep(m, 2) && Loops(m, 2) && Terminates(m, 3) && Unmerged(m, 2) == (Trio(3, {1, 3}, 0, {}, 1, {2}), Success)
  {
    LastUnmergeLoops();
    var m := Trio(0, {3}, 3, {1}, 1, {2});
    assert Walk(m, 1, 0, Value(1));
    WalkGivesRoot(m, 3, 1, Value(1));
    assert {3} - {2} + {1} == {1, 3};
    assert Unmerged(m, 2).0 == Trio(3, {1, 3}, 0, {}, 1, {2});
  }
}
