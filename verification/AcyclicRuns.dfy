/**
  Runs that leave the forests: which edits keep every root walk finite once child
  sets are stale, and what saving and loading repairs.
 */
module AcyclicRuns {
  import opened Types
  import opened ProvinceForest
  import opened ForestLaws
  import opened ForestRuns

  /** Every parent chain ends and every id exists. Child sets need not agree with the parents. */
  ghost predicate Sound(m: ProvinceMap) {
    Keyed(m) && Closed(m) && Acyclic(m)
  }

  // ----- Parent chains -----

  /** `n` steps along parents lead from `x` to `y`. */
  ghost predicate Leads(m: ProvinceMap, x: ProvinceID, n: nat, y: ProvinceID)
    decreases n
  {
    && x in m
    && if n == 0 then x == y
       else m[x].parent != INVALID_PROVINCE && m[x].parent != x && Leads(m, m[x].parent, n - 1, y)
  }

  /** `y` is `x` or one of its ancestors. */
  ghost predicate Above(m: ProvinceMap, x: ProvinceID, y: ProvinceID) {
    exists n: nat :: Leads(m, x, n, y)
  }

  /** Walking on from an ancestor is the rest of the walk. */
  lemma {:induction false} WalkFromAncestor(
    m: ProvinceMap, x: ProvinceID, n: nat, res: Maybe<ProvinceID>, k: nat, y: ProvinceID)
    requires INVALID_PROVINCE !in m && Walk(m, x, n, res) && Leads(m, x, k, y)
    ensures k <= n && Walk(m, y, n - k, res)
    decreases k
  {
    if k > 0 {
      WalkFromAncestor(m, m[x].parent, n - 1, res, k - 1, y);
    }
  }

  /** A province that is its own ancestor has no end to its walk. */
  lemma CycleNeverEnds(m: ProvinceMap, x: ProvinceID, k: nat)
    requires INVALID_PROVINCE !in m && Leads(m, x, k, x) && k > 0
    ensures !Terminates(m, x)
  {
    if Terminates(m, x) {
      var n: nat, res :| Walk(m, x, n, res);
      WalkFromAncestor(m, x, n, res, k, x);
      WalkIsDeterministic(m, x, n, res, n - k, res);
      assert false;
    }
  }

  lemma {:induction false} LeadsOn(m: ProvinceMap, x: ProvinceID, n: nat, y: ProvinceID)
    requires Leads(m, x, n, y) && y in m && m[y].parent in m && m[y].parent !in {INVALID_PROVINCE, y}
    ensures Leads(m, x, n + 1, m[y].parent)
    decreases n
  {
    if n > 0 {
      LeadsOn(m, m[x].parent, n - 1, y);
    } else {
      assert Leads(m, m[y].parent, 0, m[y].parent);
    }
  }

  // ----- One edit -----

  /** A listed child of `t` is its parent or stands above its parent: a stale entry. */
  ghost predicate Loops(m: ProvinceMap, t: ProvinceID) {
    t in m && m[t].parent in m && exists c :: c in m[t].children && Above(m, m[t].parent, c)
  }

  /** How a province with a parent is unmerged in any sound map. */
  lemma RaisedStep(m: ProvinceMap, t: ProvinceID)
    requires Sound(m) && t in m && m[t].parent != INVALID_PROVINCE
    ensures m[t].parent in m && m[t].parent != t && Terminates(m, m[t].parent)
    ensures Root(m, t) in m && Root(m, t) != t
    ensures
      var r := Root(m, t);
      Unmerged(m, t) == (Isolated(Raised(WithoutChild(m, r, t), m[t].parent, r, m[t].children), t), Success)
  {
    RootStep(m, t);
    RootIsProvince(m, t);
    RootResultIsRoot(m, m[t].parent);
    ClimbsFromParent(m, t, Root(m, t));
  }

  lemma RaisedParents(m: ProvinceMap, t: ProvinceID)
    requires Sound(m) && t in m && m[t].parent != INVALID_PROVINCE
    ensures m[t].parent in m && m[t].parent != t && Terminates(m, m[t].parent) && Unmerged(m, t).1 == Success
    ensures Unmerged(m, t).0.Keys == m.Keys && Keyed(Unmerged(m, t).0) && Closed(Unmerged(m, t).0)
    ensures Regrafted(m, Unmerged(m, t).0, t)
  {
    RaisedStep(m, t);
    RegraftedBy(m, Unmerged(m, t).0, t, Root(m, t));
  }

  lemma RegraftedBy(m: ProvinceMap, m': ProvinceMap, t: ProvinceID, r: ProvinceID)
    requires Keyed(m) && Closed(m) && t in m && m[t].parent in m && r in m
    requires m' == Isolated(Raised(WithoutChild(m, r, t), m[t].parent, r, m[t].children), t)
    ensures m'.Keys == m.Keys && Keyed(m') && Closed(m') && Regrafted(m, m', t)
  {
    var m1 := WithoutChild(m, r, t);
    assert forall x :: x in m ==> m1[x].parent == m[x].parent && m1[x].id == x && m1[x].children <= m.Keys;
    RaisedKeepsIDs(m1, m[t].parent, r, m[t].children);
  }

  lemma RaisedKeepsIDs(m: ProvinceMap, parent: ProvinceID, root: ProvinceID, done: set<ProvinceID>)
    requires done <= m.Keys && forall x :: x in m ==> m[x].id == x && m[x].children <= m.Keys
    ensures
      var m' := Raised(m, parent, root, done);
      && m'.Keys == m.Keys
      && forall x :: x in m ==>
           && m'[x].parent == (if x in done then parent else m[x].parent)
           && m'[x].id == x && m'[x].children <= m.Keys
  {
  }

  /** `t` is cut off, and all that it lists goes below its parent. */
  ghost predicate Regrafted(m: ProvinceMap, m': ProvinceMap, t: ProvinceID) {
    && m'.Keys == m.Keys && t in m
    && forall x :: x in m ==>
         m'[x].parent ==
         if x == t then INVALID_PROVINCE else if x in m[t].children then m[t].parent else m[x].parent
  }

  /** A chain without the target and without listed children stays. */
  lemma {:induction false} ChainStays(m: ProvinceMap, m': ProvinceMap, t: ProvinceID, x: ProvinceID, n: nat, r: ProvinceID)
    requires INVALID_PROVINCE !in m && Regrafted(m, m', t) && Walk(m, x, n, Value(r))
    requires forall c :: c in m[t].children || c == t ==> !Above(m, x, c)
    ensures Climbs(m', x, r)
    decreases n
  {
    WalkEndsAtRoot(m, x, n, r);
    assert Leads(m, x, 0, x);
    assert Above(m, x, x);
    if n == 0 {
      ClimbsFromRoot(m', x);
    } else {
      forall c | c in m[t].children || c == t ensures !Above(m, m[x].parent, c) {
        if Above(m, m[x].parent, c) {
          var k: nat :| Leads(m, m[x].parent, k, c);
          assert Leads(m, x, k + 1, c);
        }
      }
      ChainStays(m, m', t, m[x].parent, n - 1, r);
      ClimbsFromParent(m', x, r);
    }
  }

  /** If the parent of the target still has a root, so has everything else. */
  lemma {:induction false} RegraftedWalk(
    m: ProvinceMap, m': ProvinceMap, t: ProvinceID, root: ProvinceID, x: ProvinceID, n: nat, r: ProvinceID)
    requires INVALID_PROVINCE !in m && Regrafted(m, m', t) && Walk(m, x, n, Value(r)) && x in m
    requires m[t].parent !in m[t].children && Climbs(m', m[t].parent, root) && m[t].parent != INVALID_PROVINCE
    ensures HasRoot(m', x)
    decreases n
  {
    if x == t {
      ClimbsFromRoot(m', x);
    } else if x in m[t].children {
      ClimbsFromParent(m', x, root);
    } else if n == 0 {
      ClimbsFromRoot(m', x);
    } else {
      var n': nat := n - 1;
      assert Walk(m, m[x].parent, n', Value(r));
      WalkEndsAtRoot(m, x, n, r);
      RegraftedWalk(m, m', t, root, m[x].parent, n', r);
      var r' :| Climbs(m', m[x].parent, r');
      ClimbsFromParent(m', x, r');
    }
  }

  /** In a sound map nothing stands above its own parent. */
  lemma NotAboveParent(m: ProvinceMap, t: ProvinceID)
    requires Sound(m) && t in m && m[t].parent in m
    ensures !Above(m, m[t].parent, t)
  {
    RootResultIsRoot(m, t);
    ClimbsFromParent(m, t, Root(m, t));
    if Above(m, m[t].parent, t) {
      var k: nat :| Leads(m, m[t].parent, k, t);
      assert Leads(m, t, k + 1, t);
      CycleNeverEnds(m, t, k + 1);
    }
  }

  /** The first listed child on a chain is still reached. */
  lemma {:induction false} FirstListedIsReached(
    m: ProvinceMap, m': ProvinceMap, t: ProvinceID, x: ProvinceID, k: nat, c: ProvinceID)
    requires Regrafted(m, m', t) && Leads(m, x, k, c) && c in m[t].children && !Above(m, x, t)
    ensures exists j: nat, d :: d in m[t].children && d != t && Leads(m', x, j, d)
    decreases k
  {
    assert Leads(m, x, 0, x);
    if x in m[t].children {
      assert Leads(m', x, 0, x);
    } else {
      if Above(m, m[x].parent, t) {
        var i: nat :| Leads(m, m[x].parent, i, t);
        assert Leads(m, x, i + 1, t);
      }
      FirstListedIsReached(m, m', t, m[x].parent, k - 1, c);
      var j: nat, d :| d in m[t].children && d != t && Leads(m', m[x].parent, j, d);
      assert Leads(m', x, j + 1, d);
    }
  }

  /** What a looping unmerge leaves: the target's old parent is its own parent, or its walk never ends. */
  lemma LoopingUnmerge(m: ProvinceMap, m': ProvinceMap, t: ProvinceID)
    requires Sound(m) && Regrafted(m, m', t) && Loops(m, t)
    ensures
      var p := m[t].parent;
      if p in m[t].children then p in m' && m'[p].parent == p else !Terminates(m', p)
  {
    var p := m[t].parent;
    NotAboveParent(m, t);
    assert Leads(m, p, 0, p);
    if p !in m[t].children {
      var c :| c in m[t].children && Above(m, p, c);
      var k: nat :| Leads(m, p, k, c);
      FirstListedIsReached(m, m', t, p, k, c);
      var j: nat, d :| d in m[t].children && d != t && Leads(m', p, j, d);
      assert d in m && m'[d].parent == p;
      LeadsOn(m', p, j, d);
      CycleNeverEnds(m', p, j + 1);
    }
  }

  lemma HarmlessUnmerge(m: ProvinceMap, m': ProvinceMap, t: ProvinceID)
    requires Sound(m) && Regrafted(m, m', t) && m[t].parent in m && !Loops(m, t)
    ensures Acyclic(m')
  {
    var p := m[t].parent;
    var n: nat :| Walk(m, p, n, Value(Root(m, p)));
    NotAboveParent(m, t);
    assert Leads(m, p, 0, p);
    ChainStays(m, m', t, p, n, Root(m, p));
    forall x | x in m' ensures HasRoot(m', x) {
      var n: nat :| Walk(m, x, n, Value(Root(m, x)));
      RegraftedWalk(m, m', t, Root(m, p), x, n, Root(m, x));
    }
  }

  /** A root hands over whatever it lists: every chain still ends. */
  lemma {:induction false} InheritedWalk(
    m: ProvinceMap, m': ProvinceMap, heir: ProvinceID, done: set<ProvinceID>, x: ProvinceID, n: nat, r: ProvinceID)
    requires INVALID_PROVINCE !in m && m'.Keys == m.Keys && heir in done && heir in m
    requires forall y :: y in m ==>
      m'[y].parent == if y == heir then INVALID_PROVINCE else if y in done then heir else m[y].parent
    requires x in m && Walk(m, x, n, Value(r))
    ensures HasRoot(m', x)
    decreases n
  {
    ClimbsFromRoot(m', heir);
    if x in done {
      if x != heir { ClimbsFromParent(m', x, heir); }
    } else if n == 0 {
      ClimbsFromRoot(m', x);
    } else {
      var n': nat := n - 1;
      assert Walk(m, m[x].parent, n', Value(r));
      InheritedWalk(m, m', heir, done, m[x].parent, n', r);
      var r' :| Climbs(m', m[x].parent, r');
      ClimbsFromParent(m', x, r');
    }
  }

  lemma RootUnmergeIsSound(m: ProvinceMap, t: ProvinceID)
    requires Sound(m) && t in m && m[t].parent == INVALID_PROVINCE
    ensures Sound(Unmerged(m, t).0) && Unmerged(m, t).0.Keys == m.Keys && Unmerged(m, t).1 == Success
  {
    if m[t].children != {} {
      var m', heir := Unmerged(m, t).0, Front(m[t].children);
      forall x | x in m' ensures HasRoot(m', x) {
        var n: nat :| Walk(m, x, n, Value(Root(m, x)));
        InheritedWalk(m, m', heir, m[t].children, x, n, Root(m, x));
      }
    }
  }

  /**
    In any map whose chains end, however stale its child sets, an unmerge keeps
    every chain finite if and only if the target lists neither its parent nor
    anything above it. Otherwise the old parent is left as its own parent or
    with a walk that never ends.
   */
  lemma UnmergeKeepsSoundIff(m: ProvinceMap, t: ProvinceID)
    requires Sound(m)
    ensures t in m && m[t].parent in m ==> Terminates(m, m[t].parent)
    ensures
      var (m', status) := Unmerged(m, t);
      && m'.Keys == m.Keys && Keyed(m') && Closed(m')
      && (status == Success <==> t in m)
      && (status != Success ==> m' == m)
      && (Sound(m') <==> !Loops(m, t))
      && (Loops(m, t) ==>
            var p := m[t].parent;
            if p in m[t].children then m'[p].parent == p else !Terminates(m', p))
  {
    if t in m && m[t].parent == INVALID_PROVINCE {
      RootUnmergeIsSound(m, t);
    } else if t in m {
      RaisedParents(m, t);
      var m', p := Unmerged(m, t).0, m[t].parent;
      if Loops(m, t) {
        LoopingUnmerge(m, m', t);
        if HasRoot(m', p) { NoRoot(m', p); }
      } else {
        HarmlessUnmerge(m, m', t);
      }
    }
  }

  lemma NoRoot(m: ProvinceMap, p: ProvinceID)
    requires HasRoot(m, p)
    ensures Terminates(m, p) && (p in m ==> m[p].parent != p || p == INVALID_PROVINCE)
  {
    var r :| Climbs(m, p, r);
    var n: nat :| Walk(m, p, n, Value(r));
  }

  /** A merge keeps every chain finite, however stale the child sets are. */
  lemma MergeKeepsSound(m: ProvinceMap, a: ProvinceID, b: ProvinceID)
    requires Sound(m)
    ensures a in m && b in m ==> Terminates(m, a) && Terminates(m, b)
    ensures Sound(Merged(m, a, b).0) && Merged(m, a, b).0.Keys == m.Keys
    ensures Merged(m, a, b).1 == Success <==> a in m && b in m && Root(m, a) != Root(m, b)
  {
    if a in m && b in m {
      RootResultIsRoot(m, a);
      RootResultIsRoot(m, b);
      RootIsProvince(m, a);
      RootIsProvince(m, b);
      if Root(m, a) != Root(m, b) { LinkedIsSound(m, Root(m, a), Root(m, b)); }
    }
  }

  lemma LinkedIsSound(m: ProvinceMap, a: ProvinceID, b: ProvinceID)
    requires Sound(m) && a in m && b in m && a != b
    requires m[a].parent == INVALID_PROVINCE && m[b].parent == INVALID_PROVINCE
    ensures Sound(Linked(m, a, b))
  {
    var m' := Linked(m, a, b);
    forall x | x in m' ensures HasRoot(m', x) {
      var n: nat :| Walk(m, x, n, Value(Root(m, x)));
      LinkedWalk(m, a, b, x, n, Root(m, x));
    }
  }

  // ----- Runs -----

  ghost function SoundStep(m: ProvinceMap, e: Edit): (m': ProvinceMap)
    requires Sound(m)
    ensures m'.Keys == m.Keys && (Sound(m') <==> Harmless(m, e))
  {
    match e
    case Merge(a, b) => MergeKeepsSound(m, a, b); Merged(m, a, b).0
    case Unmerge(t) => UnmergeKeepsSoundIff(m, t); Unmerged(m, t).0
  }

  ghost predicate Harmless(m: ProvinceMap, e: Edit) {
    e.Unmerge? ==> !Loops(m, e.t)
  }

  /** No unmerge of the run meets a stale entry above its target when its turn comes. */
  ghost predicate HarmlessRun(m: ProvinceMap, es: seq<Edit>)
    requires Sound(m)
    decreases es
  {
    es == [] || (Harmless(m, es[0]) && HarmlessRun(SoundStep(m, es[0]), es[1..]))
  }

  /** In every map that the run passes through, all chains end. */
  ghost predicate SoundThroughout(m: ProvinceMap, es: seq<Edit>)
    decreases es
  {
    Sound(m) && (es == [] || SoundThroughout(SoundStep(m, es[0]), es[1..]))
  }

  /** A run of merges and unmerges, deep or not, keeps all chains finite exactly when each of its unmerges is harmless. */
  lemma {:induction false} RunStaysSoundIffHarmless(m: ProvinceMap, es: seq<Edit>)
    requires Sound(m)
    ensures SoundThroughout(m, es) <==> HarmlessRun(m, es)
    decreases es
  {
    if es != [] && Harmless(m, es[0]) {
      RunStaysSoundIffHarmless(SoundStep(m, es[0]), es[1..]);
    }
  }

  /** In a forest every edit is harmless: it takes an earlier deep unmerge to build a cycle. */
  lemma ForestsAreHarmless(m: ProvinceMap, e: Edit)
    requires Forest(m)
    ensures Harmless(m, e) && SoundStep(m, e) == Step(m, e)
  {
    if e.Unmerge? {
      UnmergeIsolatesProvince(m, e.t);
      UnmergeKeepsSoundIff(m, e.t);
    }
  }

  lemma {:induction false} ShallowRunsAreHarmless(m: ProvinceMap, es: seq<Edit>)
    requires Forest(m) && ShallowRun(m, es)
    ensures HarmlessRun(m, es)
    decreases es
  {
    if es != [] {
      ForestsAreHarmless(m, es[0]);
      ShallowRunsAreHarmless(Step(m, es[0]), es[1..]);
    }
  }
}
