/**
  The merge forest: `parent` fields and mirrored `children` sets.

  The first part says what the operations do to a province map, for maps of
  any shape; the second part is about forests.
 */
module ProvinceForest {
  import opened Types

  // ----- The root walk -----

  /** Starting at `id`, the walk along parents takes `n` steps and then answers `res`. */
  ghost predicate Walk(m: ProvinceMap, id: ProvinceID, n: nat, res: Maybe<ProvinceID>)
    decreases n
  {
    if id == INVALID_PROVINCE then n == 0 && res == Failure(Unexpected)
    else if id !in m then n == 0 && res == Failure(ValueNotFound)
    else if m[id].parent == INVALID_PROVINCE then n == 0 && res == Value(id)
    else if m[id].parent == id then n == 0 && res == Failure(Unexpected)
    else n > 0 && Walk(m, m[id].parent, n - 1, res)
  }

  ghost predicate Terminates(m: ProvinceMap, id: ProvinceID) {
    exists n: nat, res :: Walk(m, id, n, res)
  }

  ghost function RootResult(m: ProvinceMap, id: ProvinceID): Maybe<ProvinceID>
    requires Terminates(m, id)
  {
    var n: nat, res :| Walk(m, id, n, res);
    res
  }

  lemma {:induction false} WalkIsDeterministic(
    m: ProvinceMap, id: ProvinceID, n: nat, res: Maybe<ProvinceID>, n': nat, res': Maybe<ProvinceID>)
    requires Walk(m, id, n, res) && Walk(m, id, n', res')
    ensures n == n' && res == res'
    decreases n
  {
    if n > 0 {
      WalkIsDeterministic(m, m[id].parent, n - 1, res, n' - 1, res');
    }
  }

  lemma WalkGivesRoot(m: ProvinceMap, id: ProvinceID, n: nat, res: Maybe<ProvinceID>)
    requires Walk(m, id, n, res)
    ensures Terminates(m, id) && RootResult(m, id) == res
  {
    var n': nat, res' :| Walk(m, id, n', res') && res' == RootResult(m, id);
    WalkIsDeterministic(m, id, n, res, n', res');
  }

  // ----- Forests -----

  /** Provinces sit under their own id, and the empty id is not one of them. */
  ghost predicate Keyed(m: ProvinceMap) {
    && INVALID_PROVINCE !in m
    && forall id :: id in m ==> m[id].id == id
  }

  /** Every id that a province mentions exists. */
  ghost predicate Closed(m: ProvinceMap) {
    forall id :: id in m ==>
      && m[id].children <= m.Keys
      && (m[id].parent == INVALID_PROVINCE || m[id].parent in m)
  }

  /** `c` is in `p.children` exactly when `c.parent` is `p`. */
  ghost predicate Agree(m: ProvinceMap, p: ProvinceID, c: ProvinceID)
    requires p in m && c in m
  {
    c in m[p].children <==> m[c].parent == p
  }

  ghost predicate Mirrored(m: ProvinceMap) {
    forall p, c {:trigger Agree(m, p, c)} :: p in m && c in m ==> Agree(m, p, c)
  }

  /** The parent chain of `id` ends at `r`, which has no parent. */
  ghost predicate Climbs(m: ProvinceMap, id: ProvinceID, r: ProvinceID) {
    exists n: nat :: Walk(m, id, n, Value(r))
  }

  ghost predicate HasRoot(m: ProvinceMap, id: ProvinceID) {
    exists r :: Climbs(m, id, r)
  }

  /** Every parent chain ends at a province without a parent. */
  ghost predicate Acyclic(m: ProvinceMap) {
    forall id {:trigger HasRoot(m, id)} :: id in m ==> HasRoot(m, id)
  }

  ghost predicate Forest(m: ProvinceMap) {
    Keyed(m) && Closed(m) && Mirrored(m) && Acyclic(m)
  }

  ghost function Root(m: ProvinceMap, id: ProvinceID): (r: ProvinceID)
    requires Acyclic(m) && id in m
    ensures Climbs(m, id, r)
  {
    assert HasRoot(m, id);
    var r :| Climbs(m, id, r);
    r
  }

  lemma RootIsProvince(m: ProvinceMap, id: ProvinceID)
    requires Acyclic(m) && id in m
    ensures Root(m, id) in m && m[Root(m, id)].parent == INVALID_PROVINCE
  {
    ClimbsIsFunctional(m, id, Root(m, id), Root(m, id));
  }

  lemma {:induction false} WalkEndsAtRoot(m: ProvinceMap, id: ProvinceID, n: nat, r: ProvinceID)
    requires Walk(m, id, n, Value(r))
    ensures r in m && r != INVALID_PROVINCE && m[r].parent == INVALID_PROVINCE
    decreases n
  {
    if n > 0 {
      WalkEndsAtRoot(m, m[id].parent, n - 1, r);
    }
  }

  lemma ClimbsIsFunctional(m: ProvinceMap, id: ProvinceID, r: ProvinceID, r': ProvinceID)
    requires Climbs(m, id, r) && Climbs(m, id, r')
    ensures r == r' && r in m && m[r].parent == INVALID_PROVINCE
  {
    var n: nat :| Walk(m, id, n, Value(r));
    var n': nat :| Walk(m, id, n', Value(r'));
    WalkIsDeterministic(m, id, n, Value(r), n', Value(r'));
    WalkEndsAtRoot(m, id, n, r);
  }

  lemma ClimbsFromParent(m: ProvinceMap, id: ProvinceID, r: ProvinceID)
    requires id in m && id != INVALID_PROVINCE && m[id].parent != INVALID_PROVINCE
    ensures Climbs(m, id, r) <==> m[id].parent != id && Climbs(m, m[id].parent, r)
  {
    if m[id].parent != id && Climbs(m, m[id].parent, r) {
      var n: nat :| Walk(m, m[id].parent, n, Value(r));
      assert Walk(m, id, n + 1, Value(r));
    }
    if Climbs(m, id, r) {
      var n: nat :| Walk(m, id, n, Value(r));
      assert Walk(m, m[id].parent, n - 1, Value(r));
    }
  }

  lemma ClimbsFromRoot(m: ProvinceMap, id: ProvinceID)
    requires id in m && id != INVALID_PROVINCE && m[id].parent == INVALID_PROVINCE
    ensures Climbs(m, id, id)
  {
    assert Walk(m, id, 0, Value(id));
  }

  ghost function Roots(m: ProvinceMap): set<ProvinceID> {
    set id | id in m && m[id].parent == INVALID_PROVINCE
  }

  /** The provinces that share the root of `id`. */
  ghost function Group(m: ProvinceMap, id: ProvinceID): set<ProvinceID>
    requires Acyclic(m) && id in m
  {
    set x | x in m && Root(m, x) == Root(m, id)
  }

  ghost function Groups(m: ProvinceMap): set<set<ProvinceID>>
    requires Acyclic(m)
  {
    set id | id in m :: Group(m, id)
  }

  /** In a forest the code's walk ends, and ends at the root. */
  lemma RootResultIsRoot(m: ProvinceMap, id: ProvinceID)
    requires Acyclic(m) && id in m
    ensures Terminates(m, id) && RootResult(m, id) == Value(Root(m, id))
  {
    var n: nat :| Walk(m, id, n, Value(Root(m, id)));
    WalkGivesRoot(m, id, n, Value(Root(m, id)));
  }

  /** The root of a province is its own, or that of its parent. */
  lemma RootStep(m: ProvinceMap, id: ProvinceID)
    requires Acyclic(m) && Keyed(m) && id in m
    ensures m[id].parent == INVALID_PROVINCE <==> Root(m, id) == id
    ensures m[id].parent != INVALID_PROVINCE ==> m[id].parent in m && Root(m, m[id].parent) == Root(m, id)
  {
    var r := Root(m, id);
    RootIsProvince(m, id);
    if m[id].parent == INVALID_PROVINCE {
      ClimbsFromRoot(m, id);
      ClimbsIsFunctional(m, id, r, id);
    } else {
      ClimbsFromParent(m, id, r);
      var n: nat :| Walk(m, m[id].parent, n, Value(r));
      assert m[id].parent in m;
      ClimbsIsFunctional(m, m[id].parent, r, Root(m, m[id].parent));
    }
  }

  // ----- Merging -----

  /** `a` becomes a child of `b`. */
  ghost function Linked(m: ProvinceMap, a: ProvinceID, b: ProvinceID): ProvinceMap
    requires a in m && b in m
  {
    var m1 := m[a := m[a].(parent := b)];
    m1[b := m1[b].(children := m1[b].children + {a})]
  }

  ghost function Merged(m: ProvinceMap, id1: ProvinceID, id2: ProvinceID): (ProvinceMap, Status)
    requires id1 in m && id2 in m ==> Terminates(m, id1) && Terminates(m, id2)
  {
    if id1 == id2 then (m, Unexpected)
    else if id1 !in m || id2 !in m then (m, ValueNotFound)
    else
      match (RootResult(m, id1), RootResult(m, id2))
      case (Failure(s), _) => (m, s)
      case (_, Failure(s)) => (m, s)
      case (Value(r1), Value(r2)) =>
        WalkResultExists(m, id1); WalkResultExists(m, id2);
        if r1 == r2 then (m, Unexpected) else (Linked(m, r1, r2), Success)
  }

  lemma WalkResultExists(m: ProvinceMap, id: ProvinceID)
    requires Terminates(m, id) && RootResult(m, id).Value?
    ensures RootResult(m, id).value in m && RootResult(m, id).value != INVALID_PROVINCE
    ensures m[RootResult(m, id).value].parent == INVALID_PROVINCE
  {
    var n: nat, res :| Walk(m, id, n, res);
    WalkGivesRoot(m, id, n, res);
    WalkEndsAtRoot(m, id, n, res.value);
  }

  // ----- Unmerging -----

  /** The first element of a `std::set`. */
  ghost function Front(s: set<ProvinceID>): (x: ProvinceID)
    requires s != {}
    ensures x in s && forall y :: y in s ==> x <= y
  {
    FrontExists(s);
    var x :| x in s && forall y :: y in s ==> x <= y;
    x
  }

  lemma {:induction false} FrontExists(s: set<ProvinceID>)
    requires s != {}
    ensures exists x :: x in s && forall y :: y in s ==> x <= y
  {
    var z :| z in s;
    if s - {z} == {} {
      assert s == {z};
    } else {
      FrontExists(s - {z});
      var x :| x in s - {z} && forall y :: y in s - {z} ==> x <= y;
      var least := if z < x then z else x;
      assert forall y :: y in s ==> y == z || y in s - {z};
      assert least in s && forall y :: y in s ==> least <= y;
    }
  }

  /** `t` hands the children in `done` to `heir`, one of them; `heir` itself becomes a root. */
  ghost function HandedOver(m: ProvinceMap, heir: ProvinceID, done: set<ProvinceID>): ProvinceMap {
    map x | x in m ::
      var parent := if x in done then (if x == heir then INVALID_PROVINCE else heir) else m[x].parent;
      var children := if x == heir then m[x].children + (done - {heir}) else m[x].children;
      m[x].(parent := parent, children := children)
  }

  /** The children in `done` move below `parent`, and `root` lists them. */
  ghost function Raised(m: ProvinceMap, parent: ProvinceID, root: ProvinceID, done: set<ProvinceID>): ProvinceMap {
    map x | x in m ::
      var newParent := if x in done then parent else m[x].parent;
      var children := if x == root then m[x].children + done else m[x].children;
      m[x].(parent := newParent, children := children)
  }

  ghost function WithoutChild(m: ProvinceMap, p: ProvinceID, c: ProvinceID): ProvinceMap
    requires p in m
  {
    m[p := m[p].(children := m[p].children - {c})]
  }

  /** `t` is left without parent and children. */
  ghost function Isolated(m: ProvinceMap, t: ProvinceID): ProvinceMap
    requires t in m
  {
    m[t := m[t].(parent := INVALID_PROVINCE, children := {})]
  }

  ghost function Unmerged(m: ProvinceMap, t: ProvinceID): (ProvinceMap, Status)
    requires t in m && m[t].parent in m ==> Terminates(m, m[t].parent)
  {
    if t !in m then (m, ValueNotFound)
    else if m[t].parent == INVALID_PROVINCE then
      if m[t].children == {} then (m, Success)
      else if !(m[t].children <= m.Keys) then (m, ValueNotFound)
      else
        var m1 := HandedOver(m, Front(m[t].children), m[t].children);
        (m1[t := m1[t].(children := {})], Success)
    else if m[t].parent !in m then (m, ValueNotFound)
    else
      match RootResult(m, m[t].parent)
      case Failure(s) => (m, s)
      case Value(root) =>
        WalkResultExists(m, m[t].parent);
        if !(m[t].children <= m.Keys) then (m, ValueNotFound)
        else (Isolated(Raised(WithoutChild(m, root, t), m[t].parent, root, m[t].children), t), Success)
  }

  /** The parent of `t` has a parent itself. */
  ghost predicate Deep(m: ProvinceMap, t: ProvinceID) {
    t in m && m[t].parent in m && m[m[t].parent].parent != INVALID_PROVINCE
  }
}
