/**
  Whole runs of merges and unmerges, seen as operations on a partition of the
  provinces. The partition knows nothing of parents and children.
 */
module ForestRuns {
  import opened Types
  import opened ProvinceForest
  import opened ForestLaws

  // ----- The abstract partition -----

  type Partition = set<set<ProvinceID>>

  ghost predicate Covers(P: Partition, x: ProvinceID) {
    exists B :: B in P && x in B
  }

  ghost function Block(P: Partition, x: ProvinceID): set<ProvinceID>
    requires Covers(P, x)
  {
    var B :| B in P && x in B;
    B
  }

  /** The blocks of `a` and `b` become one. */
  ghost function Unite(P: Partition, a: ProvinceID, b: ProvinceID): Partition {
    if Covers(P, a) && Covers(P, b)
    then P - {Block(P, a), Block(P, b)} + {Block(P, a) + Block(P, b)}
    else P
  }

  /** `t` leaves its block. */
  ghost function Separate(P: Partition, t: ProvinceID): Partition {
    if Covers(P, t)
    then P - {Block(P, t)} + {{t}} + (if Block(P, t) == {t} then {} else {Block(P, t) - {t}})
    else P
  }

  // ----- Runs -----

  datatype Edit = Merge(a: ProvinceID, b: ProvinceID) | Unmerge(t: ProvinceID)

  ghost function Step(m: ProvinceMap, e: Edit): (m': ProvinceMap)
    requires Forest(m)
    ensures Acyclic(m') && (Forest(m') <==> Shallow(m, e))
  {
    match e
    case Merge(a, b) => MergeUnitesTwoGroups(m, a, b); Merged(m, a, b).0
    case Unmerge(t) => UnmergeIsolatesProvince(m, t); Unmerged(m, t).0
  }

  /** The edit does not unmerge a province whose parent has a parent. */
  ghost predicate Shallow(m: ProvinceMap, e: Edit) {
    e.Unmerge? ==> !Deep(m, e.t)
  }

  ghost function AbstractStep(P: Partition, e: Edit): Partition {
    match e
    case Merge(a, b) => Unite(P, a, b)
    case Unmerge(t) => Separate(P, t)
  }

  /** Every unmerge of the run is shallow when its turn comes. */
  ghost predicate ShallowRun(m: ProvinceMap, es: seq<Edit>)
    requires Forest(m)
    decreases es
  {
    es == [] || (Shallow(m, es[0]) && ShallowRun(Step(m, es[0]), es[1..]))
  }

  /** Every map that the run passes through is a forest. */
  ghost predicate ForestThroughout(m: ProvinceMap, es: seq<Edit>)
    decreases es
  {
    Forest(m) && (es == [] || ForestThroughout(Step(m, es[0]), es[1..]))
  }

  ghost function Run(m: ProvinceMap, es: seq<Edit>): ProvinceMap
    requires Forest(m) && ShallowRun(m, es)
    decreases es
  {
    if es == [] then m else Run(Step(m, es[0]), es[1..])
  }

  ghost function AbstractRun(P: Partition, es: seq<Edit>): Partition
    decreases es
  {
    if es == [] then P else AbstractRun(AbstractStep(P, es[0]), es[1..])
  }

  // ----- Refinement -----

  lemma BlockIsGroup(m: ProvinceMap, x: ProvinceID)
    requires Acyclic(m)
    ensures Covers(Groups(m), x) <==> x in m
    ensures x in m ==> Block(Groups(m), x) == Group(m, x)
  {
    if x in m {
      GroupsPartition(m, x, x);
      assert Group(m, x) in Groups(m);
      var B := Block(Groups(m), x);
      var y :| y in m && B == Group(m, y);
      GroupsPartition(m, y, x);
    }
    if Covers(Groups(m), x) {
      var B :| B in Groups(m) && x in B;
      var y :| y in m && B == Group(m, y);
    }
  }

  /** One group of the united map is a block of the united partition. */
  lemma UnitedGroup(m: ProvinceMap, a: ProvinceID, b: ProvinceID, x: ProvinceID)
    requires Acyclic(m) && a in m && b in m && x in m
    ensures
      var P, A, B := Groups(m), Group(m, a), Group(m, b);
      (if x in A + B then A + B else Group(m, x)) in P - {A, B} + {A + B}
  {
    GroupsPartition(m, x, a);
    GroupsPartition(m, x, b);
    assert Group(m, x) in Groups(m);
  }

  lemma UnitedGroups(m: ProvinceMap, m': ProvinceMap, a: ProvinceID, b: ProvinceID)
    requires Acyclic(m) && Acyclic(m') && m'.Keys == m.Keys && a in m && b in m
    requires forall x :: x in m ==>
      Group(m', x) == if x in Group(m, a) + Group(m, b) then Group(m, a) + Group(m, b) else Group(m, x)
    ensures Groups(m') == Groups(m) - {Group(m, a), Group(m, b)} + {Group(m, a) + Group(m, b)}
  {
    var A, B := Group(m, a), Group(m, b);
    var Q := Groups(m) - {A, B} + {A + B};
    forall G | G in Groups(m') ensures G in Q {
      var x :| x in m' && G == Group(m', x);
      UnitedGroup(m, a, b, x);
    }
    forall G | G in Q ensures G in Groups(m') {
      if G == A + B {
        GroupsPartition(m, a, a);
        assert G == Group(m', a);
      } else {
        var x :| x in m && G == Group(m, x);
        GroupsPartition(m, a, x);
        GroupsPartition(m, b, x);
        assert G == Group(m', x);
      }
    }
  }

  lemma MergeRefinesUnite(m: ProvinceMap, a: ProvinceID, b: ProvinceID)
    requires Forest(m)
    ensures Groups(Step(m, Merge(a, b))) == Unite(Groups(m), a, b)
  {
    MergeUnitesTwoGroups(m, a, b);
    BlockIsGroup(m, a);
    BlockIsGroup(m, b);
    if a in m && b in m {
      var A, B := Group(m, a), Group(m, b);
      if A == B {
        assert A in Groups(m);
        assert A + B == A;
        assert Groups(m) - {A, B} + {A + B} == Groups(m);
      } else {
        UnitedGroups(m, Step(m, Merge(a, b)), a, b);
      }
    }
  }

  /** One group of the map without `t` is a block of the separated partition. */
  lemma SeparatedGroup(m: ProvinceMap, t: ProvinceID, x: ProvinceID)
    requires Acyclic(m) && t in m && x in m && x != t
    ensures
      var P, T := Groups(m), Group(m, t);
      Group(m, x) - {t} in P - {T} + {{t}} + (if T == {t} then {} else {T - {t}})
  {
    GroupsPartition(m, t, x);
    GroupsPartition(m, x, t);
    assert Group(m, x) in Groups(m);
    if t !in Group(m, x) {
      assert Group(m, x) - {t} == Group(m, x);
    }
  }

  lemma SeparatedGroups(m: ProvinceMap, m': ProvinceMap, t: ProvinceID)
    requires Acyclic(m) && Acyclic(m') && m'.Keys == m.Keys && t in m
    requires Group(m', t) == {t}
    requires forall x :: x in m && x != t ==> Group(m', x) == Group(m, x) - {t}
    ensures
      var P, T := Groups(m), Group(m, t);
      Groups(m') == P - {T} + {{t}} + (if T == {t} then {} else {T - {t}})
  {
    var P, T := Groups(m), Group(m, t);
    var Q := P - {T} + {{t}} + (if T == {t} then {} else {T - {t}});
    forall G | G in Groups(m') ensures G in Q {
      var x :| x in m' && G == Group(m', x);
      if x != t { SeparatedGroup(m, t, x); }
    }
    forall G | G in Q ensures G in Groups(m') { SeparatedBlock(m, m', t, G); }
  }

  /** Conversely, a block of the separated partition is a group of the map without `t`. */
  lemma SeparatedBlock(m: ProvinceMap, m': ProvinceMap, t: ProvinceID, G: set<ProvinceID>)
    requires Acyclic(m) && Acyclic(m') && m'.Keys == m.Keys && t in m
    requires Group(m', t) == {t}
    requires forall x :: x in m && x != t ==> Group(m', x) == Group(m, x) - {t}
    requires
      var P, T := Groups(m), Group(m, t);
      G in P - {T} + {{t}} + (if T == {t} then {} else {T - {t}})
    ensures G in Groups(m')
  {
    var T := Group(m, t);
    if G == {t} {
      assert G == Group(m', t);
    } else if T != {t} && G == T - {t} {
      GroupsPartition(m, t, t);
      assert T - {t} != {};
      var x :| x in T && x != t;
      GroupsPartition(m, t, x);
      assert G == Group(m', x);
    } else {
      var x :| x in m && G == Group(m, x);
      GroupsPartition(m, t, x);
      GroupsPartition(m, x, t);
      assert G - {t} == G;
      assert G == Group(m', x);
    }
  }

  lemma UnmergeRefinesSeparate(m: ProvinceMap, t: ProvinceID)
    requires Forest(m)
    ensures Groups(Step(m, Unmerge(t))) == Separate(Groups(m), t)
  {
    UnmergeIsolatesProvince(m, t);
    BlockIsGroup(m, t);
    if t in m {
      SeparatedGroups(m, Step(m, Unmerge(t)), t);
    }
  }

  lemma StepRefines(m: ProvinceMap, e: Edit)
    requires Forest(m)
    ensures Step(m, e).Keys == m.Keys && Groups(Step(m, e)) == AbstractStep(Groups(m), e)
  {
    match e
    case Merge(a, b) => MergeUnitesTwoGroups(m, a, b); MergeRefinesUnite(m, a, b);
    case Unmerge(t) => UnmergeIsolatesProvince(m, t); UnmergeRefinesSeparate(m, t);
  }

  /** Parent fields and child sets implement the partition, edit by edit, for a whole run. */
  lemma {:induction false} RunRefinesPartition(m: ProvinceMap, es: seq<Edit>)
    requires Forest(m) && ShallowRun(m, es)
    ensures Forest(Run(m, es))
    ensures Run(m, es).Keys == m.Keys
    ensures Groups(Run(m, es)) == AbstractRun(Groups(m), es)
    decreases es
  {
    if es != [] {
      StepRefines(m, es[0]);
      RunRefinesPartition(Step(m, es[0]), es[1..]);
    }
  }

  /** A run stays within forests exactly when each of its unmerges is shallow. */
  lemma {:induction false} RunKeepsForestIffShallow(m: ProvinceMap, es: seq<Edit>)
    requires Forest(m)
    ensures ForestThroughout(m, es) <==> ShallowRun(m, es)
    decreases es
  {
    if es != [] && Shallow(m, es[0]) {
      RunKeepsForestIffShallow(Step(m, es[0]), es[1..]);
    }
  }

  /** Freshly imported provinces have neither parents nor children. */
  ghost predicate Fresh(m: ProvinceMap) {
    Keyed(m) && forall id :: id in m ==> m[id].parent == INVALID_PROVINCE && m[id].children == {}
  }

  /** A fresh import is a forest of singletons, where every run may start. */
  lemma FreshIsForest(m: ProvinceMap)
    requires Fresh(m)
    ensures Forest(m)
    ensures Groups(m) == set id | id in m :: {id}
  {
    forall id | id in m ensures HasRoot(m, id) {
      ClimbsFromRoot(m, id);
    }
    forall p, c | p in m && c in m ensures Agree(m, p, c) {}
    forall id | id in m ensures Group(m, id) == {id} {
      forall x | x in m ensures Root(m, x) == x { RootStep(m, x); }
    }
  }
}
