/** The province map of a project and the operations that edit and query its merge forest. */
module ProvinceProject {
  import opened Types
  import opened Collections
  import opened ProvinceForest
  import opened ForestLaws

  /** `s` contains the parent and the children of each of its provinces. */
  ghost predicate ClosedUnderLinks(m: ProvinceMap, s: set<ProvinceID>) {
    forall x :: x in s && x in m ==> m[x].children <= s && (m[x].parent in m ==> m[x].parent in s)
  }

  /** `s` is the least set of provinces that holds `id` and is closed under links. */
  ghost predicate IsComponent(m: ProvinceMap, id: ProvinceID, s: set<ProvinceID>) {
    && id in s && s <= m.Keys
    && ClosedUnderLinks(m, s)
    && forall s' :: id in s' && ClosedUnderLinks(m, s') ==> s <= s'
  }

  lemma GroupIsClosed(m: ProvinceMap, id: ProvinceID)
    requires Forest(m) && id in m
    ensures ClosedUnderLinks(m, Group(m, id))
  {
    forall x | x in Group(m, id)
      ensures m[x].children <= Group(m, id) && (m[x].parent in m ==> m[x].parent in Group(m, id))
    {
      RootStep(m, x);
      forall c | c in m[x].children ensures c in Group(m, id) {
        assert Agree(m, x, c);
        RootStep(m, c);
      }
    }
  }

  lemma {:induction false} ClosedSetClimbs(m: ProvinceMap, s: set<ProvinceID>, x: ProvinceID, n: nat, r: ProvinceID)
    requires Forest(m) && ClosedUnderLinks(m, s) && Walk(m, x, n, Value(r))
    ensures x in s <==> r in s
    decreases n
  {
    if n > 0 {
      ClosedSetClimbs(m, s, m[x].parent, n - 1, r);
      assert Agree(m, m[x].parent, x);
    }
  }

  /** In a forest, what is linked to `id` is exactly what shares its root. */
  lemma ComponentIsGroup(m: ProvinceMap, id: ProvinceID, s: set<ProvinceID>)
    requires Forest(m) && id in m
    ensures IsComponent(m, id, s) <==> s == Group(m, id)
  {
    GroupIsClosed(m, id);
    GroupsPartition(m, id, id);
    forall s' | id in s' && ClosedUnderLinks(m, s') ensures Group(m, id) <= s' {
      forall x | x in Group(m, id) ensures x in s' {
        var r := Root(m, id);
        var n: nat :| Walk(m, id, n, Value(r));
        ClosedSetClimbs(m, s', id, n, r);
        var k: nat :| Walk(m, x, k, Value(r));
        ClosedSetClimbs(m, s', x, k, r);
      }
    }
  }

  /**
    After a deep unmerge the group query gives two answers: from the old parent
    it still reaches the target, through the entry that was not removed, while
    from the target it reaches nothing else.
   */
  lemma DeepUnmergeConfusesQuery(m: ProvinceMap, t: ProvinceID, s: set<ProvinceID>)
    requires Forest(m) && Deep(m, t)
    ensures Terminates(m, m[t].parent)
    ensures
      var m', p := Unmerged(m, t).0, m[t].parent;
      && IsComponent(m', t, {t})
      && (IsComponent(m', p, s) ==> t in s)
      && Acyclic(m') && p in m' && t !in Group(m', p)
  {
    UnmergeIsolatesProvince(m, t);
    RaisedShape(m, t);
    assert Agree(m, m[t].parent, t);
  }

  ghost predicate AllTerminate(m: ProvinceMap, ids: seq<ProvinceID>) {
    forall s :: s in ids ==> Terminates(m, s)
  }

  /** Merging `root` with each member of a selection in turn; failures are ignored. */
  ghost function MergedAll(m: ProvinceMap, root: ProvinceID, selected: seq<ProvinceID>): (m': ProvinceMap)
    requires Terminates(m, root) && AllTerminate(m, selected)
    ensures m'.Keys == m.Keys
    ensures forall x {:trigger Terminates(m', x)} :: Terminates(m, x) ==> Terminates(m', x)
    decreases selected
  {
    if selected == [] then m
    else
      var before, last := MergedAll(m, root, selected[..|selected| - 1]), selected[|selected| - 1];
      AttemptKeepsWalksFinite(before, root, last);
      Attempted(before, root, last)
  }

  /** One attempt to merge; the root is not merged with itself. */
  ghost function Attempted(m: ProvinceMap, root: ProvinceID, s: ProvinceID): ProvinceMap
    requires Terminates(m, root) && Terminates(m, s)
  {
    if s == root then m else Merged(m, root, s).0
  }

  lemma AttemptKeepsWalksFinite(m: ProvinceMap, root: ProvinceID, s: ProvinceID)
    requires Terminates(m, root) && Terminates(m, s)
    ensures Attempted(m, root, s).Keys == m.Keys
    ensures forall x {:trigger Terminates(Attempted(m, root, s), x)} ::
      Terminates(m, x) ==> Terminates(Attempted(m, root, s), x)
  {
    forall x | Terminates(m, x)
      ensures Terminates(Attempted(m, root, s), x) && Attempted(m, root, s).Keys == m.Keys
    {
      if s != root { MergedKeepsWalksFinite(m, root, s, x); }
    }
    assert Terminates(m, root);
  }

  /** The old groups of the valid members of a selection, together. */
  ghost function GroupsOf(m: ProvinceMap, selected: seq<ProvinceID>): set<ProvinceID>
    requires Acyclic(m)
    decreases selected
  {
    if selected == [] then {}
    else
      var last := selected[|selected| - 1];
      GroupsOf(m, selected[..|selected| - 1]) + if last in m then Group(m, last) else {}
  }

  /** `m'` has the groups of `m`, except that the groups within `united` are one. */
  ghost predicate UnitedInto(m: ProvinceMap, m': ProvinceMap, united: set<ProvinceID>)
    requires Acyclic(m)
  {
    && Acyclic(m') && m'.Keys == m.Keys
    && forall x {:trigger Group(m', x)} :: x in m ==> Group(m', x) == if x in united then united else Group(m, x)
  }

  /** In a forest every walk ends, also that of an id that is no province. */
  lemma AllWalksEnd(m: ProvinceMap, ids: seq<ProvinceID>)
    requires Acyclic(m)
    ensures AllTerminate(m, ids)
  {
    forall s | s in ids ensures Terminates(m, s) {
      if s in m {
        RootResultIsRoot(m, s);
      } else {
        assert Walk(m, s, 0, Failure(if s == INVALID_PROVINCE then Unexpected else ValueNotFound));
      }
    }
  }

  lemma {:induction false} MergedAllGroups(m: ProvinceMap, root: ProvinceID, selected: seq<ProvinceID>)
    requires Forest(m) && root in m && Terminates(m, root) && AllTerminate(m, selected)
    ensures Forest(MergedAll(m, root, selected))
    ensures UnitedInto(m, MergedAll(m, root, selected), Group(m, root) + GroupsOf(m, selected))
    decreases selected
  {
    if selected == [] {
      forall x | x in m ensures Group(m, x) == if x in Group(m, root) then Group(m, root) else Group(m, x) {
        GroupsPartition(m, root, x);
      }
    } else {
      var prior, last := selected[..|selected| - 1], selected[|selected| - 1];
      var united := Group(m, root) + GroupsOf(m, prior);
      MergedAllGroups(m, root, prior);
      GroupsPartition(m, root, root);
      MergedOneMore(m, root, MergedAll(m, root, prior), united, last);
      GroupsOfAppended(m, root, selected);
    }
  }

  lemma GroupsOfAppended(m: ProvinceMap, root: ProvinceID, selected: seq<ProvinceID>)
    requires Acyclic(m) && root in m && selected != []
    ensures
      var last := selected[|selected| - 1];
      Group(m, root) + GroupsOf(m, selected) ==
      Group(m, root) + GroupsOf(m, selected[..|selected| - 1]) + if last in m then Group(m, last) else {}
  {
  }

  lemma GroupStaysWithin(m: ProvinceMap, m': ProvinceMap, united: set<ProvinceID>, z: ProvinceID)
    requires Acyclic(m) && UnitedInto(m, m', united) && z in m && z in united
    ensures Group(m, z) <= united
  {
    forall y | y in Group(m, z) ensures y in united {
      GroupsPartition(m, z, y);
      GroupsPartition(m, z, z);
      GroupsPartition(m', y, z);
      GroupsPartition(m', y, y);
    }
  }

  lemma MergedOneMore(m: ProvinceMap, root: ProvinceID, before: ProvinceMap, united: set<ProvinceID>, last: ProvinceID)
    requires Forest(m) && Forest(before) && root in m && root in united && UnitedInto(m, before, united)
    requires Terminates(before, root) && Terminates(before, last)
    ensures Forest(Attempted(before, root, last))
    ensures UnitedInto(m, Attempted(before, root, last), united + if last in m then Group(m, last) else {})
  {
    MergeUnitesTwoGroups(before, root, last);
    var m' := Attempted(before, root, last);
    if last in m {
      GroupsPartition(before, root, last);
      GroupsPartition(before, last, last);
      GroupsPartition(m, last, last);
      assert Group(before, root) == united;
      var all := united + Group(m, last);
      if last in united {
        GroupStaysWithin(m, before, united, last);
        assert all == united;
      }
      forall x | x in m ensures Group(m', x) == if x in all then all else Group(m, x) {
        GroupsPartition(before, root, x);
        GroupsPartition(before, last, x);
        GroupsPartition(m, last, x);
      }
    } else {
      assert united + {} == united;
    }
  }

  /**
    Merging a selection into the root of its first member leaves one group, the
    union of the old groups of the selected provinces; other groups stay.
   */
  lemma SelectionBecomesOneGroup(m: ProvinceMap, selected: seq<ProvinceID>)
    requires Forest(m) && selected != [] && selected[0] in m
    ensures Terminates(m, selected[0]) && Terminates(m, Root(m, selected[0])) && AllTerminate(m, selected)
    ensures
      var m', united := MergedAll(m, Root(m, selected[0]), selected), GroupsOf(m, selected);
      && RootResult(m, selected[0]) == Value(Root(m, selected[0]))
      && Forest(m') && m'.Keys == m.Keys
      && (forall s :: s in selected && s in m ==> Group(m', s) == united)
      && (forall x :: x in m && x !in united ==> Group(m', x) == Group(m, x))
  {
    var root := Root(m, selected[0]);
    RootIsProvince(m, selected[0]);
    RootStep(m, root);
    RootResultIsRoot(m, selected[0]);
    AllWalksEnd(m, selected);
    AllWalksEnd(m, [root]);
    assert root in [root];
    MergedAllGroups(m, root, selected);
    forall s | s in selected && s in m ensures Group(m, s) <= GroupsOf(m, selected) && s in GroupsOf(m, selected) {
      GroupsOfContains(m, selected, s);
      GroupsPartition(m, s, s);
    }
    var m' := MergedAll(m, root, selected);
    assert Group(m, selected[0]) == Group(m, root);
    assert Group(m, root) + GroupsOf(m, selected) == GroupsOf(m, selected);
  }

  lemma {:induction false} GroupsOfContains(m: ProvinceMap, selected: seq<ProvinceID>, s: ProvinceID)
    requires Acyclic(m) && s in selected && s in m
    ensures Group(m, s) <= GroupsOf(m, selected)
    decreases selected
  {
    if s != selected[|selected| - 1] {
      GroupsOfContains(m, selected[..|selected| - 1], s);
    }
  }

  // ----- Breadth-first search -----

  /** What has been visited is linked only to what is visited or queued. */
  ghost predicate Frontier(m: ProvinceMap, visited: set<ProvinceID>, queue: seq<ProvinceID>) {
    forall x :: x in visited ==>
      && x in m
      && (forall c :: c in m[x].children ==> c in visited || c in queue)
      && (m[x].parent in m ==> m[x].parent in visited || m[x].parent in queue)
  }

  /** Every closed set with `id` contains all that is visited or queued. */
  ghost predicate Necessary(m: ProvinceMap, id: ProvinceID, visited: set<ProvinceID>, queue: seq<ProvinceID>) {
    forall s :: id in s && ClosedUnderLinks(m, s) ==>
      visited <= s && forall x :: x in queue && x in m ==> x in s
  }

  ghost predicate Searching(m: ProvinceMap, id: ProvinceID, visited: set<ProvinceID>, queue: seq<ProvinceID>) {
    && Frontier(m, visited, queue)
    && Necessary(m, id, visited, queue)
    && (id in m ==> id in visited || id in queue)
  }

  lemma SkipStep(m: ProvinceMap, id: ProvinceID, visited: set<ProvinceID>, queue: seq<ProvinceID>)
    requires queue != [] && Searching(m, id, visited, queue) && (queue[0] !in m || queue[0] in visited)
    requires forall x :: x in m ==> m[x].children <= m.Keys
    ensures Searching(m, id, visited, queue[1..])
  {
    assert queue == [queue[0]] + queue[1..];
  }

  lemma VisitStep(
    m: ProvinceMap, id: ProvinceID, visited: set<ProvinceID>, queue: seq<ProvinceID>, queue': seq<ProvinceID>)
    requires queue != [] && Searching(m, id, visited, queue) && queue[0] in m && INVALID_PROVINCE !in m
    requires
      var next, visited' := m[queue[0]], visited + {queue[0]};
      forall x :: x in queue' <==>
        || x in queue[1..]
        || x in next.children - visited'
        || (x == next.parent && x !in visited' && x != INVALID_PROVINCE)
    ensures Searching(m, id, visited + {queue[0]}, queue')
  {
    assert queue == [queue[0]] + queue[1..];
  }

  lemma HandedOverNone(m: ProvinceMap, heir: ProvinceID)
    ensures HandedOver(m, heir, {}) == m
  {
    forall x | x in m ensures HandedOver(m, heir, {})[x] == m[x] {
      assert m[x].children + ({} - {heir}) == m[x].children;
    }
  }

  lemma HandedOverOneMore(m: ProvinceMap, heir: ProvinceID, done: set<ProvinceID>, c: ProvinceID)
    requires heir in m && c in m
    ensures
      var m1 := HandedOver(m, heir, done);
      HandedOver(m, heir, done + {c}) ==
      if c == heir then m1[c := m1[c].(parent := INVALID_PROVINCE)]
      else m1[c := m1[c].(parent := heir)][heir := m1[heir].(children := m1[heir].children + {c})]
  {
    var m1 := HandedOver(m, heir, done);
    assert m[heir].children + (done + {c} - {heir}) == if c == heir then m1[heir].children else m1[heir].children + {c};
  }

  lemma RaisedNone(m: ProvinceMap, parent: ProvinceID, root: ProvinceID)
    ensures Raised(m, parent, root, {}) == m
  {
    forall x | x in m ensures Raised(m, parent, root, {})[x] == m[x] {
      assert m[x].children + {} == m[x].children;
    }
  }

  lemma RaisedOneMore(m: ProvinceMap, parent: ProvinceID, root: ProvinceID, done: set<ProvinceID>, c: ProvinceID)
    requires root in m && c in m
    ensures
      var m1 := Raised(m, parent, root, done);
      var m2 := m1[c := m1[c].(parent := parent)];
      Raised(m, parent, root, done + {c}) == m2[root := m2[root].(children := m2[root].children + {c})]
  {
    assert m[root].children + (done + {c}) == m[root].children + done + {c};
  }

  class ProvinceProject {
    var provinces: ProvinceMap

    constructor (provinces: ProvinceMap)
      ensures this.provinces == provinces
    {
      this.provinces := provinces;
    }

    method GetRootProvinceParent(id: ProvinceID) returns (r: Maybe<ProvinceID>)
      requires Terminates(provinces, id)
      ensures r == RootResult(provinces, id)
    {
      ghost var n: nat, res :| Walk(provinces, id, n, res);
      WalkGivesRoot(provinces, id, n, res);
      var rootId := id;
      while rootId != INVALID_PROVINCE
        invariant Walk(provinces, rootId, n, res)
        decreases n
      {
        if rootId !in provinces {
          return Failure(ValueNotFound);
        }
        var province := provinces[rootId];
        if province.parent == INVALID_PROVINCE {
          return Value(rootId);
        }
        if province.parent == rootId {
          return Failure(Unexpected);
        }
        rootId := province.parent;
        n := n - 1;
      }
      return Failure(Unexpected);
    }

    method MergeProvinces(id1: ProvinceID, id2: ProvinceID) returns (status: Status)
      requires id1 in provinces && id2 in provinces ==> Terminates(provinces, id1) && Terminates(provinces, id2)
      modifies this
      ensures (provinces, status) == Merged(old(provinces), id1, id2)
    {
      if id1 == id2 {
        return Unexpected;
      }
      if id1 !in provinces || id2 !in provinces {
        return ValueNotFound;
      }
      var root1 := GetRootProvinceParent(id1);
      if root1.Failure? {
        return root1.status;
      }
      var root2 := GetRootProvinceParent(id2);
      if root2.Failure? {
        return root2.status;
      }
      if root1.value == root2.value {
        return Unexpected;
      }
      WalkResultExists(provinces, id1);
      WalkResultExists(provinces, id2);
      var a, b := root1.value, root2.value;
      provinces := provinces[a := provinces[a].(parent := b)];
      provinces := provinces[b := provinces[b].(children := provinces[b].children + {a})];
      return Success;
    }

    /** The children as the code collects them: all of them in order, or a failure if one does not exist. */
    method CollectChildren(children: set<ProvinceID>) returns (r: Maybe<seq<ProvinceID>>)
      ensures r == Failure(ValueNotFound) || r.Value?
      ensures r.Value? <==> children <= provinces.Keys
      ensures r.Value? ==> (forall c :: c in r.value <==> c in children) && |r.value| == |children|
      ensures r.Value? && children != {} ==> r.value[0] == Front(children)
    {
      var rest := children;
      var collected: seq<ProvinceID> := [];
      while rest != {}
        invariant rest <= children <= rest + provinces.Keys
        invariant forall c :: c in collected <==> c in children && c !in rest
        invariant |collected| + |rest| == |children|
        invariant collected == [] ==> rest == children
        invariant collected != [] ==> collected[0] == Front(children)
        decreases rest
      {
        var child := First(rest);
        if child !in provinces {
          return Failure(ValueNotFound);
        }
        collected := collected + [child];
        rest := rest - {child};
      }
      return Value(collected);
    }

    method First(s: set<ProvinceID>) returns (x: ProvinceID)
      requires s != {}
      ensures x == Front(s)
    {
      x :| x in s;
      var rest := s - {x};
      while rest != {}
        invariant x in s && rest <= s
        invariant forall y :: y in s && y !in rest ==> x <= y
        decreases rest
      {
        var y :| y in rest;
        if y < x { x := y; }
        rest := rest - {y};
      }
    }

    method UnmergeProvince(id: ProvinceID) returns (status: Status)
      requires Keyed(provinces)
      requires id in provinces && provinces[id].parent in provinces ==> Terminates(provinces, provinces[id].parent)
      modifies this
      ensures (provinces, status) == Unmerged(old(provinces), id)
    {
      if id !in provinces {
        return ValueNotFound;
      }
      var province := provinces[id];
      if province.parent == INVALID_PROVINCE {
        if province.children == {} {
          return Success;
        }
        var children := CollectChildren(province.children);
        if children.Failure? {
          return children.status;
        }
        assert Members(children.value) == province.children;
        HandOverChildren(children.value[0], children.value);
        provinces := provinces[id := provinces[id].(children := {})];
        return Success;
      }
      if province.parent !in provinces {
        return ValueNotFound;
      }
      var root := GetRootProvinceParent(province.parent);
      if root.Failure? {
        return root.status;
      }
      WalkResultExists(provinces, province.parent);
      var children := CollectChildren(province.children);
      if children.Failure? {
        return children.status;
      }
      provinces := provinces[root.value := provinces[root.value].(children := provinces[root.value].children - {id})];
      assert Members(children.value) == province.children;
      RaiseChildren(province.parent, root.value, children.value);
      provinces := provinces[id := provinces[id].(parent := INVALID_PROVINCE, children := {})];
      return Success;
    }

    method HandOverChildren(heir: ProvinceID, children: seq<ProvinceID>)
      requires heir in children && forall c :: c in children ==> c in provinces
      modifies this
      ensures provinces == HandedOver(old(provinces), heir, Members(children))
    {
      HandedOverNone(provinces, heir);
      assert Members(children[..0]) == {};
      for i := 0 to |children|
        invariant provinces == HandedOver(old(provinces), heir, Members(children[..i]))
      {
        var child := children[i];
        if child != heir {
          provinces := provinces[child := provinces[child].(parent := heir)];
          provinces := provinces[heir := provinces[heir].(children := provinces[heir].children + {child})];
        } else {
          provinces := provinces[child := provinces[child].(parent := INVALID_PROVINCE)];
        }
        HandedOverOneMore(old(provinces), heir, Members(children[..i]), child);
        NextMember(children, i);
      }
      assert children[..|children|] == children;
    }

    method RaiseChildren(parent: ProvinceID, root: ProvinceID, children: seq<ProvinceID>)
      requires root in provinces && forall c :: c in children ==> c in provinces
      modifies this
      ensures provinces == Raised(old(provinces), parent, root, Members(children))
    {
      RaisedNone(provinces, parent, root);
      assert Members(children[..0]) == {};
      for i := 0 to |children|
        invariant provinces == Raised(old(provinces), parent, root, Members(children[..i]))
      {
        var child := children[i];
        provinces := provinces[child := provinces[child].(parent := parent)];
        provinces := provinces[root := provinces[root].(children := provinces[root].children + {child})];
        RaisedOneMore(old(provinces), parent, root, Members(children[..i]), child);
        NextMember(children, i);
      }
      assert children[..|children|] == children;
    }

    /** Breadth-first search from `id`; the queue may hold an id more than once. */
    method GetMergedProvinces(id: ProvinceID) returns (connected: set<ProvinceID>)
      requires INVALID_PROVINCE !in provinces
      requires forall x :: x in provinces ==> provinces[x].children <= provinces.Keys
      ensures id in provinces ==> IsComponent(provinces, id, connected)
      ensures id !in provinces ==> connected == {}
      ensures Forest(provinces) && id in provinces ==> connected == Group(provinces, id)
    {
      connected := {};
      var toSearch := [id];
      while toSearch != []
        invariant connected <= provinces.Keys
        invariant Searching(provinces, id, connected, toSearch)
        decreases provinces.Keys - connected, |toSearch|
      {
        ghost var queue := toSearch;
        var nextId := toSearch[0];
        toSearch := toSearch[1..];
        if nextId !in provinces {
          SkipStep(provinces, id, connected, queue);
          continue;
        }
        if nextId in connected {
          SkipStep(provinces, id, connected, queue);
        } else {
          var next := provinces[nextId];
          ghost var before := connected;
          connected := connected + {nextId};
          if next.parent !in connected && next.parent != INVALID_PROVINCE {
            toSearch := toSearch + [next.parent];
          }
          toSearch := PushUnvisited(next.children, connected, toSearch);
          VisitStep(provinces, id, before, queue, toSearch);
        }
      }
      if id !in provinces {
        assert ClosedUnderLinks(provinces, {id});
      } else if Forest(provinces) {
        ComponentIsGroup(provinces, id, connected);
      }
    }

    method PushUnvisited(children: set<ProvinceID>, connected: set<ProvinceID>, queue: seq<ProvinceID>)
      returns (queue': seq<ProvinceID>)
      ensures queue <= queue'
      ensures forall x :: x in queue' <==> x in queue || x in children - connected
    {
      queue' := queue;
      var rest := children;
      while rest != {}
        invariant rest <= children
        invariant queue <= queue'
        invariant forall x :: x in queue' <==> x in queue || x in children - rest - connected
        decreases rest
      {
        var child := First(rest);
        if child !in connected {
          queue' := queue' + [child];
        }
        rest := rest - {child};
      }
    }

    /** What the "merge provinces" button does to the selected provinces, in a map of any shape. */
    method MergeSelection(selected: seq<ProvinceID>)
      requires selected != [] && AllTerminate(provinces, selected)
      modifies this
      ensures
        match RootResult(old(provinces), selected[0])
        case Failure(_) => provinces == old(provinces)
        case Value(root) => Terminates(old(provinces), root) && provinces == MergedAll(old(provinces), root, selected)
    {
      var root := GetRootProvinceParent(selected[0]);
      if root.Failure? {
        return;
      }
      WalkResultExists(provinces, selected[0]);
      assert Walk(provinces, root.value, 0, Value(root.value));
      for i := 0 to |selected|
        invariant provinces == MergedAll(old(provinces), root.value, selected[..i])
      {
        assert selected[..i + 1][..i] == selected[..i];
        assert selected[i] in selected && Terminates(old(provinces), selected[i]);
        if selected[i] != root.value {
          var _ := MergeProvinces(root.value, selected[i]);
        }
      }
      assert selected[..|selected|] == selected;
    }
  }
}
