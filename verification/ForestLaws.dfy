/** What merging and unmerging do to a merge forest and to its groups. */
module ForestLaws {
  import opened Types
  import opened ProvinceForest

  // ----- Groups partition the provinces -----

  /** Groups cover the provinces, and two groups that meet are the same group. */
  lemma GroupsPartition(m: ProvinceMap, x: ProvinceID, y: ProvinceID)
    requires Acyclic(m) && x in m && y in m
    ensures x in Group(m, x) && Group(m, x) <= m.Keys
    ensures Group(m, x) == Group(m, y) <==> Root(m, x) == Root(m, y)
    ensures y in Group(m, x) <==> Group(m, x) == Group(m, y)
    ensures Group(m, x) == Group(m, y) || Group(m, x) !! Group(m, y)
  {
    assert x in Group(m, x);
  }

  // ----- Merge -----

  lemma {:induction false} LinkedWalk(m: ProvinceMap, a: ProvinceID, b: ProvinceID, x: ProvinceID, n: nat, r: ProvinceID)
    requires Keyed(m) && a in m && b in m && a != b
    requires m[a].parent == INVALID_PROVINCE && m[b].parent == INVALID_PROVINCE
    requires Walk(m, x, n, Value(r))
    ensures Climbs(Linked(m, a, b), x, if r == a then b else r)
    decreases n
  {
    var m' := Linked(m, a, b);
    ClimbsFromRoot(m', b);
    ClimbsFromParent(m', a, b);
    if n == 0 {
      if r != a { ClimbsFromRoot(m', x); }
    } else {
      LinkedWalk(m, a, b, m[x].parent, n - 1, r);
      ClimbsFromParent(m', x, if r == a then b else r);
    }
  }

  /** Linking two parentless provinces of any map keeps every walk finite. */
  lemma {:induction false} LinkedWalkEnds(
    m: ProvinceMap, a: ProvinceID, b: ProvinceID, x: ProvinceID, n: nat, res: Maybe<ProvinceID>)
    requires a in m && b in m && a != b && INVALID_PROVINCE !in {a, b}
    requires m[a].parent == INVALID_PROVINCE && m[b].parent == INVALID_PROVINCE
    requires Walk(m, x, n, res)
    ensures Terminates(Linked(m, a, b), x)
    decreases n
  {
    var m' := Linked(m, a, b);
    if x == a {
      assert Walk(m', b, 0, Value(b));
      assert Walk(m', a, 1, Value(b));
    } else if n == 0 {
      assert Walk(m', x, 0, res);
    } else {
      LinkedWalkEnds(m, a, b, m[x].parent, n - 1, res);
      var n': nat, res' :| Walk(m', m[x].parent, n', res');
      assert Walk(m', x, n' + 1, res');
    }
  }

  lemma MergedKeepsWalksFinite(m: ProvinceMap, id1: ProvinceID, id2: ProvinceID, x: ProvinceID)
    requires Terminates(m, id1) && Terminates(m, id2) && Terminates(m, x)
    ensures Terminates(Merged(m, id1, id2).0, x) && Merged(m, id1, id2).0.Keys == m.Keys
  {
    if RootResult(m, id1).Value? && RootResult(m, id2).Value? {
      WalkResultExists(m, id1);
      WalkResultExists(m, id2);
      var n: nat, res :| Walk(m, x, n, res);
      if RootResult(m, id1) != RootResult(m, id2) {
        LinkedWalkEnds(m, RootResult(m, id1).value, RootResult(m, id2).value, x, n, res);
      }
    }
  }

  lemma LinkedRoot(m: ProvinceMap, a: ProvinceID, b: ProvinceID)
    requires Forest(m) && a in m && b in m && a != b
    requires m[a].parent == INVALID_PROVINCE && m[b].parent == INVALID_PROVINCE
    ensures Acyclic(Linked(m, a, b))
    ensures forall x :: x in m ==> Root(Linked(m, a, b), x) == if Root(m, x) == a then b else Root(m, x)
  {
    var m' := Linked(m, a, b);
    forall x | x in m
      ensures Climbs(m', x, if Root(m, x) == a then b else Root(m, x))
    {
      var n: nat :| Walk(m, x, n, Value(Root(m, x)));
      LinkedWalk(m, a, b, x, n, Root(m, x));
    }
    assert Acyclic(m') by {
      forall x | x in m' ensures HasRoot(m', x) {}
    }
    forall x | x in m
      ensures Root(m', x) == if Root(m, x) == a then b else Root(m, x)
    {
      ClimbsIsFunctional(m', x, Root(m', x), if Root(m, x) == a then b else Root(m, x));
    }
  }

  lemma LinkedIsForest(m: ProvinceMap, a: ProvinceID, b: ProvinceID)
    requires Forest(m) && a in m && b in m && a != b
    requires m[a].parent == INVALID_PROVINCE && m[b].parent == INVALID_PROVINCE
    ensures Forest(Linked(m, a, b))
  {
    LinkedRoot(m, a, b);
    var m' := Linked(m, a, b);
    forall p, c | p in m' && c in m' ensures Agree(m', p, c) {
      assert Agree(m, p, c);
    }
  }

  /** What the code's merge computes on a forest. */
  lemma MergedOnForest(m: ProvinceMap, a: ProvinceID, b: ProvinceID)
    requires Forest(m)
    ensures a in m && b in m ==> Terminates(m, a) && Terminates(m, b)
    ensures Merged(m, a, b) ==
            if a == b then (m, Unexpected)
            else if a !in m || b !in m then (m, ValueNotFound)
            else if Root(m, a) == Root(m, b) then (m, Unexpected)
            else (RootIsProvince(m, a); RootIsProvince(m, b); Linked(m, Root(m, a), Root(m, b)), Success)
  {
    if a in m && b in m {
      RootResultIsRoot(m, a);
      RootResultIsRoot(m, b);
    }
  }

  /**
    A merge keeps the forest. It succeeds exactly on two provinces of different
    groups; it then unites those two groups, leaves every other group alone and
    turns one root into a non-root. A failed merge changes nothing.
   */
  lemma MergeUnitesTwoGroups(m: ProvinceMap, a: ProvinceID, b: ProvinceID)
    requires Forest(m)
    ensures a in m && b in m ==> Terminates(m, a) && Terminates(m, b)
    ensures
      var (m', status) := Merged(m, a, b);
      && Forest(m')
      && m'.Keys == m.Keys
      && (status == Success <==> a in m && b in m && Group(m, a) != Group(m, b))
      && (status != Success ==> m' == m)
      && (status == Success ==>
            && Root(m, a) in Roots(m)
            && Roots(m') == Roots(m) - {Root(m, a)}
            && |Roots(m')| == |Roots(m)| - 1
            && forall x :: x in m ==>
                 Group(m', x) == if x in Group(m, a) + Group(m, b) then Group(m, a) + Group(m, b) else Group(m, x))
  {
    MergedOnForest(m, a, b);
    if a in m && b in m {
      GroupsPartition(m, a, b);
      if Root(m, a) != Root(m, b) { LinkedUnitesTwoGroups(m, a, b); }
    }
  }

  lemma LinkedUnitesTwoGroups(m: ProvinceMap, a: ProvinceID, b: ProvinceID)
    requires Forest(m) && a in m && b in m && Root(m, a) != Root(m, b)
    ensures Root(m, a) in m && Root(m, b) in m
    ensures
      var m' := Linked(m, Root(m, a), Root(m, b));
      && Forest(m')
      && m'.Keys == m.Keys
      && Root(m, a) in Roots(m)
      && Roots(m') == Roots(m) - {Root(m, a)}
      && |Roots(m')| == |Roots(m)| - 1
      && forall x :: x in m ==>
           Group(m', x) == if x in Group(m, a) + Group(m, b) then Group(m, a) + Group(m, b) else Group(m, x)
  {
    var ra, rb := Root(m, a), Root(m, b);
    RootIsProvince(m, a);
    RootIsProvince(m, b);
    LinkedIsForest(m, ra, rb);
    LinkedRoot(m, ra, rb);
    assert Roots(Linked(m, ra, rb)) == Roots(m) - {ra};
    RedirectedGroups(m, Linked(m, ra, rb), a, b);
  }

  /** Redirecting one root to another unites their two groups. */
  lemma RedirectedGroups(m: ProvinceMap, m': ProvinceMap, a: ProvinceID, b: ProvinceID)
    requires Acyclic(m) && Acyclic(m') && m'.Keys == m.Keys && a in m && b in m
    requires forall x :: x in m ==> Root(m', x) == if Root(m, x) == Root(m, a) then Root(m, b) else Root(m, x)
    ensures forall x :: x in m ==>
      Group(m', x) == if x in Group(m, a) + Group(m, b) then Group(m, a) + Group(m, b) else Group(m, x)
  {
    forall x | x in m
      ensures Group(m', x) == if x in Group(m, a) + Group(m, b) then Group(m, a) + Group(m, b) else Group(m, x)
    {
      assert forall y :: y in m ==> (y in Group(m', x) <==> Root(m', y) == Root(m', x));
    }
  }

  // ----- Unmerge -----

  lemma UnmergeTerminates(m: ProvinceMap, t: ProvinceID)
    requires Forest(m)
    ensures t in m && m[t].parent in m ==>
      Terminates(m, m[t].parent) && RootResult(m, m[t].parent) == Value(Root(m, t))
  {
    if t in m && m[t].parent in m {
      RootResultIsRoot(m, m[t].parent);
      RootStep(m, t);
    }
  }

  /** After unmerging a root, its first child is a root and the other children sit below that child. */
  lemma HandedOverShape(m: ProvinceMap, t: ProvinceID)
    requires Forest(m) && t in m && m[t].parent == INVALID_PROVINCE && m[t].children != {}
    ensures Unmerged(m, t).0.Keys == m.Keys
    ensures
      var m', heir := Unmerged(m, t).0, Front(m[t].children);
      && heir in m && heir != t
      && forall x :: x in m ==>
        && m'[x].id == x
        && m'[x].parent == (if x == heir then INVALID_PROVINCE else if m[x].parent == t then heir else m[x].parent)
        && m'[x].children ==
           if x == t then {} else if x == heir then m[x].children + (m[t].children - {heir}) else m[x].children
  {
    forall x | x in m ensures x in m[t].children <==> m[x].parent == t {
      assert Agree(m, t, x);
    }
  }

  /** After unmerging a non-root, its children have moved below its parent, and the root lists them. */
  lemma RaisedShape(m: ProvinceMap, t: ProvinceID)
    requires Forest(m) && t in m && m[t].parent in m
    requires Terminates(m, m[t].parent)
    ensures Unmerged(m, t).0.Keys == m.Keys
    ensures
      var m', p, r := Unmerged(m, t).0, m[t].parent, Root(m, t);
      && p != t && r in m && r != t && (p == r <==> !Deep(m, t))
      && forall x :: x in m ==>
        && m'[x].id == x
        && m'[x].parent == (if x == t then INVALID_PROVINCE else if m[x].parent == t then p else m[x].parent)
        && m'[x].children == if x == t then {} else if x == r then m[x].children - {t} + m[t].children else m[x].children
  {
    UnmergeTerminates(m, t);
    RootIsProvince(m, t);
    RootStep(m, t);
    RootStep(m, m[t].parent);
    ClimbsFromParent(m, t, Root(m, t));
    forall x | x in m ensures x in m[t].children <==> m[x].parent == t {
      assert Agree(m, t, x);
    }
  }

  /** A root hands its group to its first child. */
  lemma {:induction false} HandedOverWalk(m: ProvinceMap, t: ProvinceID, x: ProvinceID, n: nat, r: ProvinceID)
    requires Forest(m) && t in m && m[t].parent == INVALID_PROVINCE && m[t].children != {}
    requires x in m && x != t && Walk(m, x, n, Value(r))
    ensures Climbs(Unmerged(m, t).0, x, if r == t then Front(m[t].children) else r)
    decreases n
  {
    var m' := Unmerged(m, t).0;
    var heir := Front(m[t].children);
    HandedOverShape(m, t);
    ClimbsFromRoot(m', heir);
    if n == 0 {
      ClimbsFromRoot(m', x);
    } else if m[x].parent == t {
      WalkIsDeterministic(m, t, n - 1, Value(r), 0, Value(t));
      if x != heir { ClimbsFromParent(m', x, heir); }
    } else {
      assert Agree(m, t, x);
      HandedOverWalk(m, t, m[x].parent, n - 1, r);
      assert x != heir;
      ClimbsFromParent(m', x, if r == t then heir else r);
    }
  }

  /** `t` is cut off, and its children move up to its parent. */
  ghost predicate Reparented(m: ProvinceMap, m': ProvinceMap, t: ProvinceID) {
    && m'.Keys == m.Keys && t in m && m[t].parent in m && m[t].parent != t && INVALID_PROVINCE !in m
    && forall x :: x in m ==>
         m'[x].parent == if x == t then INVALID_PROVINCE else if m[x].parent == t then m[t].parent else m[x].parent
  }

  lemma {:induction false} ReparentedWalk(
    m: ProvinceMap, m': ProvinceMap, t: ProvinceID, x: ProvinceID, n: nat, r: ProvinceID)
    requires Reparented(m, m', t) && x in m && x != t && Walk(m, x, n, Value(r))
    ensures Climbs(m', x, r)
    decreases n
  {
    if n == 0 {
      ClimbsFromRoot(m', x);
    } else if m[x].parent == t {
      var p := m[t].parent;
      if x == p { WalkIsDeterministic(m, x, n, Value(r), n - 2, Value(r)); }
      ReparentedWalk(m, m', t, p, n - 2, r);
      ClimbsFromParent(m', x, r);
    } else {
      ReparentedWalk(m, m', t, m[x].parent, n - 1, r);
      ClimbsFromParent(m', x, r);
    }
  }

  /** The root of `x` once `t` has left its group. */
  ghost function RootAfterUnmerge(m: ProvinceMap, t: ProvinceID, x: ProvinceID): ProvinceID
    requires Acyclic(m) && t in m && x in m
  {
    if x == t then t
    else if Root(m, x) == t && m[t].children != {} then Front(m[t].children)
    else Root(m, x)
  }

  lemma UnmergedClimb(m: ProvinceMap, t: ProvinceID, x: ProvinceID)
    requires Forest(m) && t in m && x in m
    requires m[t].parent in m ==> Terminates(m, m[t].parent)
    ensures Unmerged(m, t).0.Keys == m.Keys
    ensures Climbs(Unmerged(m, t).0, x, RootAfterUnmerge(m, t, x))
  {
    var m', r := Unmerged(m, t).0, Root(m, x);
    var n: nat :| Walk(m, x, n, Value(r));
    if m[t].parent == INVALID_PROVINCE && m[t].children == {} {
      if x == t { ClimbsFromRoot(m, t); }
    } else if m[t].parent == INVALID_PROVINCE {
      HandedOverShape(m, t);
      if x == t { ClimbsFromRoot(m', t); } else { HandedOverWalk(m, t, x, n, r); }
    } else {
      RaisedShape(m, t);
      RootIsProvince(m, x);
      if x == t { ClimbsFromRoot(m', t); } else { ReparentedWalk(m, m', t, x, n, r); }
    }
  }

  lemma UnmergedRoot(m: ProvinceMap, t: ProvinceID)
    requires Forest(m) && t in m
    requires m[t].parent in m ==> Terminates(m, m[t].parent)
    ensures Acyclic(Unmerged(m, t).0) && Unmerged(m, t).0.Keys == m.Keys
    ensures forall x :: x in m ==> Root(Unmerged(m, t).0, x) == RootAfterUnmerge(m, t, x)
  {
    var m' := Unmerged(m, t).0;
    UnmergedClimb(m, t, t);
    forall x | x in m
      ensures HasRoot(m', x) && Climbs(m', x, RootAfterUnmerge(m, t, x))
    {
      UnmergedClimb(m, t, x);
    }
    forall x | x in m
      ensures Root(m', x) == RootAfterUnmerge(m, t, x)
    {
      ClimbsIsFunctional(m', x, Root(m', x), RootAfterUnmerge(m, t, x));
    }
  }

  /** A root that is not alone in its group has a child. */
  lemma {:induction false} RootHasChild(m: ProvinceMap, x: ProvinceID, n: nat, r: ProvinceID)
    requires Forest(m) && Walk(m, x, n, Value(r)) && x != r
    ensures r in m && m[r].children != {}
    decreases n
  {
    if m[x].parent == r {
      assert Agree(m, r, x);
    } else {
      RootHasChild(m, m[x].parent, n - 1, r);
    }
  }

  /** Apart from `t`, provinces agree on their root afterwards exactly when they did before. */
  lemma RootAfterUnmergeSeparates(m: ProvinceMap, t: ProvinceID, x: ProvinceID, y: ProvinceID)
    requires Forest(m) && t in m && x in m && y in m && x != t && y != t
    ensures RootAfterUnmerge(m, t, x) != t
    ensures RootAfterUnmerge(m, t, x) == RootAfterUnmerge(m, t, y) <==> Root(m, x) == Root(m, y)
  {
    RootIsProvince(m, x);
    RootIsProvince(m, y);
    if Root(m, x) == t || Root(m, y) == t {
      var z := if Root(m, x) == t then x else y;
      var n: nat :| Walk(m, z, n, Value(t));
      RootHasChild(m, z, n, t);
      assert Agree(m, t, Front(m[t].children));
    }
  }

  lemma HandedOverIsMirrored(m: ProvinceMap, t: ProvinceID)
    requires Forest(m) && t in m && m[t].parent == INVALID_PROVINCE && m[t].children != {}
    ensures Keyed(Unmerged(m, t).0) && Closed(Unmerged(m, t).0) && Mirrored(Unmerged(m, t).0)
  {
    HandedOverShape(m, t);
    var m' := Unmerged(m, t).0;
    forall p, c | p in m' && c in m' ensures Agree(m', p, c) {
      assert Agree(m, p, c) && Agree(m, t, c);
    }
  }

  lemma RaisedIsMirrored(m: ProvinceMap, t: ProvinceID)
    requires Forest(m) && t in m && m[t].parent in m && !Deep(m, t)
    requires Terminates(m, m[t].parent)
    ensures Keyed(Unmerged(m, t).0) && Closed(Unmerged(m, t).0) && Mirrored(Unmerged(m, t).0)
  {
    RaisedShape(m, t);
    var m' := Unmerged(m, t).0;
    forall p, c | p in m' && c in m' ensures Agree(m', p, c) {
      assert Agree(m, p, c) && Agree(m, t, c);
    }
  }

  /** Unmerging below a child of a root leaves that child listing a province that is no longer its own. */
  lemma DeepUnmergeBreaksMirror(m: ProvinceMap, t: ProvinceID)
    requires Forest(m) && Deep(m, t) && Terminates(m, m[t].parent)
    ensures !Mirrored(Unmerged(m, t).0)
  {
    RaisedShape(m, t);
    var m', p := Unmerged(m, t).0, m[t].parent;
    assert Agree(m, p, t);
    assert !Agree(m', p, t);
  }

  /**
    A known target becomes a group of its own, the rest of its group stays
    together, and every other group stays as it was. Parents and child sets
    still agree, so that the result is a forest again, exactly when the target is
    unknown, a root or a child of a root.
   */
  lemma UnmergeIsolatesProvince(m: ProvinceMap, t: ProvinceID)
    requires Forest(m)
    ensures t in m && m[t].parent in m ==> Terminates(m, m[t].parent)
    ensures
      var (m', status) := Unmerged(m, t);
      && (Forest(m') <==> !Deep(m, t))
      && m'.Keys == m.Keys
      && (status == Success <==> t in m)
      && (status != Success ==> m' == m)
      && Acyclic(m')
      && (t in m ==>
            && Group(m', t) == {t}
            && forall x :: x in m && x != t ==> Group(m', x) == Group(m, x) - {t})
  {
    UnmergeTerminates(m, t);
    var (m', status) := Unmerged(m, t);
    if t in m {
      if Deep(m, t) {
        DeepUnmergeBreaksMirror(m, t);
      } else if m[t].parent != INVALID_PROVINCE {
        RaisedIsMirrored(m, t);
      } else if m[t].children != {} {
        HandedOverIsMirrored(m, t);
      }
      UnmergedRoot(m, t);
      UnmergedGroups(m, t);
    }
  }

  lemma UnmergedGroups(m: ProvinceMap, t: ProvinceID)
    requires Forest(m) && t in m
    requires m[t].parent in m ==> Terminates(m, m[t].parent)
    requires Acyclic(Unmerged(m, t).0) && Unmerged(m, t).0.Keys == m.Keys
    ensures Group(Unmerged(m, t).0, t) == {t}
    ensures forall x :: x in m && x != t ==> Group(Unmerged(m, t).0, x) == Group(m, x) - {t}
  {
    UnmergedRoot(m, t);
    var m' := Unmerged(m, t).0;
    forall x, y | x in m && y in m && x != t && y != t
      ensures Root(m', x) != t && (Root(m', x) == Root(m', y) <==> Root(m, x) == Root(m, y))
    {
      RootAfterUnmergeSeparates(m, t, x, y);
    }
    SeparatedRoots(m, m', t);
  }

  /** Where `t` is a root of its own and all other roots coincide as before. */
  lemma SeparatedRoots(m: ProvinceMap, m': ProvinceMap, t: ProvinceID)
    requires Acyclic(m) && Acyclic(m') && m'.Keys == m.Keys && t in m && Root(m', t) == t
    requires forall x, y :: x in m && y in m && x != t && y != t ==>
      Root(m', x) != t && (Root(m', x) == Root(m', y) <==> Root(m, x) == Root(m, y))
    ensures Group(m', t) == {t}
    ensures forall x :: x in m && x != t ==> Group(m', x) == Group(m, x) - {t}
  {
  }
}
