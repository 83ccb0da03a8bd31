/** The invariants that tie states, provinces, free ids and matrix together. */
module StateLaws {
  import opened Types
  import opened Collections
  import opened StateModel
  import Decimal

  // ----- The invariant -----

  ghost function Count(s: seq<ProvinceID>, p: ProvinceID): nat {
    multiset(s)[p]
  }

  /** The live state `s` lists `p` once if `p` names it, and otherwise not at all. */
  ghost predicate ListsRightly(w: World, s: StateID, p: ProvinceID)
    requires s in w.states
  {
    Count(w.states[s].provinces, p) == if p in w.provinces && w.provinces[p].state == s then 1 else 0
  }

  ghost predicate Mirrored(w: World) {
    forall s, p {:trigger ListsRightly(w, s, p)} :: s in w.states ==> ListsRightly(w, s, p)
  }

  /** A province names a live state, or one of the two ids that mean "none". */
  ghost predicate Homed(w: World) {
    forall p :: p in w.provinces ==> w.provinces[p].state in w.states || w.provinces[p].state in {0, NO_STATE}
  }

  ghost function Used(w: World): nat {
    |w.states| + |w.available|
  }

  /** Live ids and freed ids do not overlap, and together they are exactly 1 to their number. */
  ghost predicate IDsCompact(w: World) {
    && Distinct(w.available)
    && (forall id :: id in w.available ==> id !in w.states)
    && (forall id: StateID :: (id in w.states || id in w.available) <==> 1 <= id as int <= Used(w))
    && Used(w) < NO_STATE as int
  }

  ghost predicate MatrixCurrent(w: World) {
    && |w.matrix| == |w.labels|
    && forall i :: 0 <= i < |w.labels| ==> w.matrix[i] == StateAt(w.provinces, w.labels[i])
  }

  ghost predicate Keyed(w: World) {
    && (forall p :: p in w.provinces ==> w.provinces[p].id == p)
    && forall s :: s in w.states ==> w.states[s].id == s
  }

  ghost predicate Consistent(w: World) {
    Mirrored(w) && Homed(w) && IDsCompact(w) && MatrixCurrent(w) && Keyed(w)
  }

  /** In a consistent world a province is listed by at most one live state. */
  lemma AtMostOneState(w: World, p: ProvinceID, s: StateID, t: StateID)
    requires Mirrored(w) && s in w.states && t in w.states
    requires p in w.states[s].provinces && p in w.states[t].provinces
    ensures s == t && Count(w.states[s].provinces, p) == 1
  {
    assert ListsRightly(w, s, p) && ListsRightly(w, t, p);
  }

  /** A project without states, over freshly imported provinces, is consistent. */
  lemma EmptyProjectIsConsistent(provinces: ProvinceMap, labels: seq<ProvinceID>)
    requires forall p :: p in provinces ==> provinces[p].id == p && provinces[p].state == 0
    ensures Consistent(World(provinces, map[], [], labels, seq(|labels|, _ => 0)))
  {
  }

  // ----- Erasing -----

  lemma {:induction false} EraseFirstCount(s: seq<ProvinceID>, p: ProvinceID)
    ensures multiset(EraseFirst(s, p)) == multiset(s) - multiset{p}
  {
    if s != [] {
      assert s == [s[0]] + s[1..];
      if s[0] != p { EraseFirstCount(s[1..], p); }
    }
  }

  /** Leaving one's state keeps the listing right. */
  lemma LeaveKeepsMirror(w: World, p: ProvinceID)
    requires Mirrored(w) && p in w.provinces && NO_STATE !in w.states
    ensures Mirrored(Leave(w, p))
  {
    var w' := Leave(w, p);
    var home := w.provinces[p].state;
    forall s, q | s in w'.states ensures ListsRightly(w', s, q) {
      assert ListsRightly(w, s, q);
      if s == home { EraseFirstCount(w.states[s].provinces, p); }
    }
  }

  lemma {:induction false} ClaimedKeepsMirror(w: World, ids: seq<ProvinceID>, id: StateID)
    requires Mirrored(w) && NO_STATE !in w.states && id !in w.states
    requires forall p :: p in ids ==> p in w.provinces
    ensures
      var w' := Claimed(w, ids, id);
      && Mirrored(w') && w'.states.Keys == w.states.Keys
      && w' == w.(provinces := w'.provinces, states := w'.states)
      && (forall p :: p in w.provinces ==>
            w'.provinces[p] == if p in ids then w.provinces[p].(state := id) else w.provinces[p])
      && forall s :: s in w.states ==> w'.states[s] == w.states[s].(provinces := w'.states[s].provinces)
    decreases ids
  {
    if ids != [] {
      var prior, p := ids[..|ids| - 1], ids[|ids| - 1];
      assert ids == prior + [p];
      ClaimedKeepsMirror(w, prior, id);
      var before := Claimed(w, prior, id);
      LeaveKeepsMirror(before, p);
      var left, w' := Leave(before, p), Claimed(w, ids, id);
      forall s, q | s in w'.states ensures ListsRightly(w', s, q) {
        assert ListsRightly(left, s, q);
      }
    }
  }

  lemma {:induction false} DistinctCount(s: seq<ProvinceID>)
    ensures Distinct(s) <==> forall p :: p in s ==> Count(s, p) == 1
    decreases s
  {
    if s != [] {
      var rest, last := s[..|s| - 1], s[|s| - 1];
      assert s == rest + [last];
      DistinctCount(rest);
      if !Distinct(s) {
        var i, j :| 0 <= i < j < |s| && s[i] == s[j];
        if j < |s| - 1 {
          assert rest[i] == rest[j];
          var p :| p in rest && Count(rest, p) != 1;
          assert Count(rest, p) >= 1;
          assert p in s;
        } else {
          assert rest[i] == last;
          assert Count(rest, last) >= 1;
          assert last in s;
        }
      } else {
        forall p | p in s ensures Count(s, p) == 1 {
          if p == last { assert p !in rest; }
        }
      }
    }
  }

  // ----- Fresh ids -----

  /** The id that a new state takes is neither live, nor queued afterwards, nor a "none" id. */
  lemma NextIDIsFresh(w: World)
    requires IDsCompact(w)
    ensures
      var id, n := NextID(w), Used(w);
      && id !in w.states
      && 1 <= id as int <= n + 1
      && (w.available == [] ==> id as int == n + 1)
      && (w.available != [] ==> id as int <= n && id !in w.available[1..])
  {
    if w.available == [] {
    } else {
      assert w.available[0] in w.available;
    }
  }

  lemma NewIDStaysCompact(w: World, w': World)
    requires IDsCompact(w)
    requires w'.available == (if w.available != [] then w.available[1..] else [])
    requires w'.states.Keys == w.states.Keys + {NextID(w)}
    ensures IDsCompact(w') <==> w.available != [] || |w.states| + 1 < NO_STATE as int
  {
    NextIDIsFresh(w);
    assert |w'.states| == |w'.states.Keys| == |w.states.Keys| + 1;
    if w.available != [] {
      QueuedIDStaysCompact(w, w', NextID(w));
    } else {
      FollowingIDStaysCompact(w, w', NextID(w));
    }
  }

  lemma FollowingIDStaysCompact(w: World, w': World, id: StateID)
    requires IDsCompact(w) && w.available == [] && w'.available == []
    requires id as int == Used(w) + 1 && w'.states.Keys == w.states.Keys + {id} && |w'.states| == |w.states| + 1
    ensures IDsCompact(w') <==> Used(w') < NO_STATE as int
  {
    forall k: StateID ensures k in w'.states <==> 1 <= k as int <= Used(w) + 1 {
      assert k in w.states || k in w.available <==> 1 <= k as int <= Used(w);
    }
  }

  lemma QueuedIDStaysCompact(w: World, w': World, id: StateID)
    requires IDsCompact(w) && w.available != [] && w.available[0] == id
    requires w'.available == w.available[1..] && id !in w'.available
    requires w'.states.Keys == w.states.Keys + {id} && Used(w') == Used(w)
    ensures IDsCompact(w')
  {
    assert w.available == [id] + w'.available;
    forall k: StateID ensures (k in w'.states || k in w'.available) <==> k in w.states || k in w.available {
      assert k in w.available <==> k == id || k in w'.available;
    }
  }

  lemma FreedIDStaysCompact(w: World, w': World, id: StateID)
    requires IDsCompact(w) && id in w.states
    requires w'.available == w.available + [id] && w'.states.Keys == w.states.Keys - {id}
    ensures IDsCompact(w')
  {
    assert |w'.states| == |w'.states.Keys| == |w.states.Keys| - 1;
  }

  // ----- What each operation keeps -----

  ghost predicate Known(w: World, ids: seq<ProvinceID>) {
    forall p :: p in ids ==> p in w.provinces
  }

  /** The state that `AddNewState` adds, over provinces already claimed for it. */
  lemma AddedStateMirror(w: World, w': World, ids: seq<ProvinceID>, state: State)
    requires Mirrored(w) && state.id !in w.states && state.provinces == ids && Known(w, ids)
    requires w'.states == w.states[state.id := state] && w'.provinces == w.provinces
    requires forall p :: p in w.provinces ==> (w.provinces[p].state == state.id <==> p in ids)
    ensures Mirrored(w') <==> Distinct(ids)
  {
    DistinctCount(ids);
    forall s, p | s in w.states ensures ListsRightly(w', s, p) {
      assert ListsRightly(w, s, p);
    }
    if Distinct(ids) {
      forall s, p | s in w'.states ensures ListsRightly(w', s, p) {
        if s == state.id && p !in ids { assert Count(ids, p) == 0; }
      }
    } else {
      var p :| p in ids && Count(ids, p) != 1;
      assert !ListsRightly(w', state.id, p);
    }
  }

  /** A list without the members of `gone`. */
  ghost function Without(s: seq<ProvinceID>, gone: set<ProvinceID>): seq<ProvinceID> {
    if s == [] then [] else (if s[0] in gone then [] else [s[0]]) + Without(s[1..], gone)
  }

  lemma {:induction false} WithoutNone(s: seq<ProvinceID>, gone: set<ProvinceID>)
    requires forall p :: p in s ==> p !in gone
    ensures Without(s, gone) == s
  {
    if s != [] { WithoutNone(s[1..], gone); }
  }

  lemma {:induction false} EraseFirstIsWithout(s: seq<ProvinceID>, p: ProvinceID)
    requires Count(s, p) <= 1
    ensures EraseFirst(s, p) == Without(s, {p})
  {
    if s != [] {
      assert s == [s[0]] + s[1..];
      if s[0] == p { WithoutNone(s[1..], {p}); } else { EraseFirstIsWithout(s[1..], p); }
    }
  }

  lemma {:induction false} WithoutTwice(s: seq<ProvinceID>, a: set<ProvinceID>, b: set<ProvinceID>)
    ensures Without(Without(s, a), b) == Without(s, a + b)
  {
    if s != [] {
      WithoutTwice(s[1..], a, b);
      if s[0] in a {
        assert Without(s, a) == Without(s[1..], a);
      } else {
        assert Without(s, a)[1..] == Without(s[1..], a);
      }
    }
  }

  lemma LeaveLists(w: World, p: ProvinceID, s: StateID)
    requires Mirrored(w) && p in w.provinces && s in w.states
    ensures Leave(w, p).states[s].provinces == Without(w.states[s].provinces, {p})
  {
    var list := w.states[s].provinces;
    assert ListsRightly(w, s, p);
    if w.provinces[p].state == s { EraseFirstIsWithout(list, p); } else { WithoutNone(list, {p}); }
  }

  /** Claiming takes exactly the claimed provinces out of the lists of the other states, in place. */
  lemma {:induction false} ClaimedLists(w: World, ids: seq<ProvinceID>, id: StateID, s: StateID)
    requires Mirrored(w) && NO_STATE !in w.states && id !in w.states && s in w.states
    requires Known(w, ids)
    ensures s in Claimed(w, ids, id).states
    ensures Claimed(w, ids, id).states[s].provinces == Without(w.states[s].provinces, Members(ids))
    decreases ids
  {
    var list := w.states[s].provinces;
    if ids == [] {
      WithoutNone(list, Members(ids));
    } else {
      var prior, p := ids[..|ids| - 1], ids[|ids| - 1];
      ClaimedKeepsMirror(w, prior, id);
      ClaimedLists(w, prior, id, s);
      assert ids == prior + [p];
      OneMoreClaimed(Claimed(w, prior, id), list, prior, p, s);
    }
  }

  /** One more province leaves a list that the earlier ones have left. */
  lemma OneMoreClaimed(w: World, list: seq<ProvinceID>, prior: seq<ProvinceID>, p: ProvinceID, s: StateID)
    requires Mirrored(w) && p in w.provinces && s in w.states
    requires w.states[s].provinces == Without(list, Members(prior))
    ensures Leave(w, p).states[s].provinces == Without(list, Members(prior + [p]))
  {
    LeaveLists(w, p, s);
    MembersOfAppended(prior, p);
    WithoutTwice(list, Members(prior), {p});
  }

  ghost function Dequeued(w: World): World {
    w.(available := if w.available != [] then w.available[1..] else [])
  }

  lemma DequeuedIsMirrored(w: World)
    requires Mirrored(w)
    ensures Mirrored(Dequeued(w))
  {
    var v := Dequeued(w);
    forall s, p | s in v.states ensures ListsRightly(v, s, p) { assert ListsRightly(w, s, p); }
  }

  /** The new world, field by field. */
  lemma AddNewStateFields(w: World, ids: seq<ProvinceID>, color: Color)
    requires Mirrored(w) && IDsCompact(w) && Known(w, ids)
    ensures NextID(w) !in w.states && NextID(w) != 0
    ensures AddNewState(w, ids, color).0.states.Keys == w.states.Keys + {NextID(w)}
    ensures
      var (w', r) := AddNewState(w, ids, color);
      var id, claimed := NextID(w), Claimed(Dequeued(w), ids, NextID(w));
      && r == Value(id)
      && Mirrored(claimed) && claimed.states.Keys == w.states.Keys
      && w'.states == claimed.states[id := NewState(id, ids, color)]
      && w'.available == Dequeued(w).available
      && w'.provinces == claimed.provinces
      && w'.labels == w.labels
      && MatrixCurrent(w')
  {
    NextIDIsFresh(w);
    DequeuedIsMirrored(w);
    ClaimedKeepsMirror(Dequeued(w), ids, NextID(w));
  }

  lemma AddNewStateProvinces(w: World, ids: seq<ProvinceID>, color: Color, p: ProvinceID)
    requires Mirrored(w) && IDsCompact(w) && Known(w, ids) && p in w.provinces
    ensures
      var w' := AddNewState(w, ids, color).0;
      p in w'.provinces && w'.provinces[p] == if p in ids then w.provinces[p].(state := NextID(w)) else w.provinces[p]
  {
    AddNewStateFields(w, ids, color);
    DequeuedIsMirrored(w);
    ClaimedKeepsMirror(Dequeued(w), ids, NextID(w));
  }

  lemma AddNewStateLists(w: World, ids: seq<ProvinceID>, color: Color, s: StateID)
    requires Mirrored(w) && IDsCompact(w) && Known(w, ids) && s in w.states
    ensures
      var w' := AddNewState(w, ids, color).0;
      && s in w'.states
      && w'.states[s] == w.states[s].(provinces := Without(w.states[s].provinces, Members(ids)))
  {
    AddNewStateFields(w, ids, color);
    DequeuedIsMirrored(w);
    ClaimedKeepsMirror(Dequeued(w), ids, NextID(w));
    ClaimedLists(Dequeued(w), ids, NextID(w), s);
  }

  /** A passable state of this colour without manpower and category, with factor 1, named by its number. */
  ghost predicate IsNew(s: State, id: StateID, color: Color) {
    && s.id == id && s.color == color && !s.impassable
    && s.manpower == 0 && s.category == "" && s.buildingsMaxLevelFactor == 1.0
    && |s.name| > 5 && s.name[..5] == "STATE"
    && (forall c :: c in s.name[5..] ==> Decimal.IsDigit(c))
    && Decimal.ValueOf(s.name[5..]) == id as nat
  }

  lemma NewStateIsNew(id: StateID, ids: seq<ProvinceID>, color: Color)
    ensures IsNew(NewState(id, ids, color), id, color)
  {
    var digits := Decimal.Print(id as nat);
    Decimal.ValueOfPrint(id as nat);
    assert ("STATE" + digits)[..5] == "STATE" && ("STATE" + digits)[5..] == digits;
  }

  /**
    A new state takes an id that no live state has, and the colour that was
    generated for it. It lists exactly the given provinces, which leave their old
    states; nothing else changes.
   */
  lemma AddNewStateEffect(w: World, ids: seq<ProvinceID>, color: Color)
    requires Consistent(w) && Known(w, ids)
    ensures
      var (w', r) := AddNewState(w, ids, color);
      var id := NextID(w);
      && r == Value(id) && id !in w.states && id != 0
      && w'.states.Keys == w.states.Keys + {id}
      && w'.states[id].provinces == ids
      && IsNew(w'.states[id], id, color)
      && w'.available == (if w.available == [] then [] else w.available[1..])
      && w'.labels == w.labels
      && w'.provinces.Keys == w.provinces.Keys
      && (forall p :: p in w.provinces ==>
            w'.provinces[p] == if p in ids then w.provinces[p].(state := id) else w.provinces[p])
      && (forall s :: s in w.states ==>
            w'.states[s] == w.states[s].(provinces := Without(w.states[s].provinces, Members(ids))))
  {
    AddNewStateFields(w, ids, color);
    NewStateIsNew(NextID(w), ids, color);
    forall p | p in w.provinces
      ensures p in AddNewState(w, ids, color).0.provinces
      ensures AddNewState(w, ids, color).0.provinces[p] ==
              if p in ids then w.provinces[p].(state := NextID(w)) else w.provinces[p]
    {
      AddNewStateProvinces(w, ids, color, p);
    }
    forall s | s in w.states
      ensures s in AddNewState(w, ids, color).0.states
      ensures AddNewState(w, ids, color).0.states[s] ==
              w.states[s].(provinces := Without(w.states[s].provinces, Members(ids)))
    {
      AddNewStateLists(w, ids, color, s);
    }
  }

  lemma AddNewStateMirror(w: World, ids: seq<ProvinceID>, color: Color)
    requires Mirrored(w) && IDsCompact(w) && Homed(w) && Known(w, ids)
    requires w.available != [] || |w.states| + 1 < NO_STATE as int
    ensures Mirrored(AddNewState(w, ids, color).0) <==> Distinct(ids)
  {
    AddNewStateFields(w, ids, color);
    NextIDIsFresh(w);
    var id, w', claimed := NextID(w), AddNewState(w, ids, color).0, Claimed(Dequeued(w), ids, NextID(w));
    forall p | p in claimed.provinces ensures claimed.provinces[p].state == id <==> p in ids {
      assert w.provinces[p].state in w.states || w.provinces[p].state in {0, NO_STATE};
      AddNewStateProvinces(w, ids, color, p);
    }
    AddedStateMirror(claimed, w', ids, NewState(id, ids, color));
  }

  lemma AddNewStateHomed(w: World, ids: seq<ProvinceID>, color: Color)
    requires Mirrored(w) && IDsCompact(w) && Homed(w) && Keyed(w) && Known(w, ids)
    ensures Homed(AddNewState(w, ids, color).0) && Keyed(AddNewState(w, ids, color).0)
  {
    AddNewStateFields(w, ids, color);
    var w' := AddNewState(w, ids, color).0;
    forall p | p in w'.provinces
      ensures w'.provinces[p].state in w'.states || w'.provinces[p].state in {0, NO_STATE}
      ensures w'.provinces[p].id == p
    {
      AddNewStateProvinces(w, ids, color, p);
    }
    forall s | s in w'.states ensures w'.states[s].id == s {
      if s in w.states { AddNewStateLists(w, ids, color, s); }
    }
  }

  /**
    Adding a state keeps the world consistent exactly when the given provinces
    are distinct (if they exist) and an id is left to hand out.
   */
  lemma AddNewStateKeepsConsistent(w: World, ids: seq<ProvinceID>, color: Color)
    requires Consistent(w)
    ensures Consistent(AddNewState(w, ids, color).0) <==>
      (Known(w, ids) ==> Distinct(ids) && (w.available != [] || |w.states| + 1 < NO_STATE as int))
  {
    if Known(w, ids) {
      var w' := AddNewState(w, ids, color).0;
      AddNewStateHomed(w, ids, color);
      AddNewStateIDs(w, ids, color);
      if w.available != [] || |w.states| + 1 < NO_STATE as int {
        AddNewStateMirror(w, ids, color);
        assert Consistent(w') <==> Distinct(ids);
      } else {
        assert !IDsCompact(w');
      }
    }
  }

  lemma AddNewStateIDs(w: World, ids: seq<ProvinceID>, color: Color)
    requires Mirrored(w) && IDsCompact(w) && Known(w, ids)
    ensures
      var w' := AddNewState(w, ids, color).0;
      MatrixCurrent(w') && (IDsCompact(w') <==> w.available != [] || |w.states| + 1 < NO_STATE as int)
  {
    AddNewStateFields(w, ids, color);
    NewIDStaysCompact(w, AddNewState(w, ids, color).0);
  }

  /** Exactly the provinces that name the state are listed by it. */
  lemma RemovalDisowns(w: World, id: StateID)
    requires Mirrored(w) && id in w.states
    ensures
      var w' := RemoveState(w, id).0;
      && w'.provinces.Keys == w.provinces.Keys
      && forall p :: p in w.provinces ==>
           w'.provinces[p] == if w.provinces[p].state == id then w.provinces[p].(state := NO_STATE) else w.provinces[p]
  {
    forall p ensures p in w.states[id].provinces <==> p in w.provinces && w.provinces[p].state == id {
      assert ListsRightly(w, id, p);
      assert p in w.states[id].provinces <==> Count(w.states[id].provinces, p) > 0;
    }
  }

  lemma RemovalKeepsMirror(w: World, id: StateID)
    requires Mirrored(w) && id in w.states && NO_STATE !in w.states
    ensures Mirrored(RemoveState(w, id).0)
  {
    var w' := RemoveState(w, id).0;
    RemovalDisowns(w, id);
    forall s, p | s in w'.states ensures ListsRightly(w', s, p) {
      assert ListsRightly(w, s, p);
    }
  }

  lemma RemoveStateKeepsConsistent(w: World, id: StateID)
    requires Consistent(w)
    ensures
      var (w', status) := RemoveState(w, id);
      && Consistent(w')
      && (status == Success <==> id in w.states)
      && (status != Success ==> w' == w)
      && w'.states == w.states - {id}
      && (forall p :: p in w.provinces ==>
            p in w'.provinces && w'.provinces[p] ==
            if id in w.states && w.provinces[p].state == id then w.provinces[p].(state := NO_STATE) else w.provinces[p])
  {
    if id in w.states {
      RemovalDisowns(w, id);
      RemovalKeepsMirror(w, id);
      FreedIDStaysCompact(w, RemoveState(w, id).0, id);
    } else {
      assert w.states - {id} == w.states;
    }
  }

  lemma JoinKeepsMirror(w: World, p: ProvinceID, id: StateID)
    requires Mirrored(w) && p in w.provinces && NO_STATE !in w.states
    ensures Mirrored(MoveProvinceToState(w, p, id).0)
    ensures MoveProvinceToState(w, p, id).0.states.Keys == w.states.Keys
  {
    var left, w' := Leave(w, p), MoveProvinceToState(w, p, id).0;
    LeaveKeepsMirror(w, p);
    forall s, q | s in w'.states ensures ListsRightly(w', s, q) {
      assert ListsRightly(left, s, q);
    }
  }

  lemma SameIDsStayCompact(w: World, w': World)
    requires IDsCompact(w) && w'.states.Keys == w.states.Keys && w'.available == w.available
    ensures IDsCompact(w')
  {
    assert |w'.states| == |w'.states.Keys| == |w.states.Keys| == |w.states|;
  }

  lemma MovedIsHomed(w: World, p: ProvinceID, id: StateID)
    requires Homed(w) && Keyed(w) && p in w.provinces
    ensures
      var w' := MoveProvinceToState(w, p, id).0;
      && w'.provinces == WithState(w.provinces, p, id)
      && Keyed(w')
      && (Homed(w') <==> id in w.states || id in {0, NO_STATE})
  {
    var w' := MoveProvinceToState(w, p, id).0;
    assert w'.provinces == WithState(w.provinces, p, id);
    assert w'.states.Keys == w.states.Keys;
    assert w'.provinces[p].state == id;
  }

  /** Moving keeps the world consistent exactly when the target is live or means "none". */
  lemma MoveProvinceKeepsConsistent(w: World, p: ProvinceID, id: StateID)
    requires Consistent(w)
    ensures
      var (w', status) := MoveProvinceToState(w, p, id);
      && (Consistent(w') <==> (p in w.provinces ==> id in w.states || id in {0, NO_STATE}))
      && (status == Success <==> p in w.provinces)
      && (status != Success ==> w' == w)
      && (p in w.provinces ==> w'.provinces == WithState(w.provinces, p, id))
  {
    if p in w.provinces {
      JoinKeepsMirror(w, p, id);
      SameIDsStayCompact(w, MoveProvinceToState(w, p, id).0);
      MovedIsHomed(w, p, id);
    }
  }

  lemma RemoveProvinceKeepsConsistent(w: World, p: ProvinceID)
    requires Consistent(w)
    ensures
      var (w', status) := RemoveProvinceFromState(w, p);
      && Consistent(w')
      && (status == Success <==> p in w.provinces)
      && (status != Success ==> w' == w)
      && (p in w.provinces ==> w'.provinces == WithState(w.provinces, p, NO_STATE))
  {
    if p in w.provinces {
      var w' := RemoveProvinceFromState(w, p).0;
      LeaveKeepsMirror(w, p);
      forall s, q | s in w'.states ensures ListsRightly(w', s, q) {
        assert ListsRightly(Leave(w, p), s, q);
      }
      SameIDsStayCompact(w, w');
    }
  }

  /** A province given twice is listed twice by the new state. */
  lemma RepeatedProvinceBreaksConsistency(w: World, p: ProvinceID, color: Color)
    requires Consistent(w) && p in w.provinces && (w.available != [] || |w.states| + 1 < NO_STATE as int)
    ensures
      var w' := AddNewState(w, [p, p], color).0;
      !Consistent(w') && NextID(w) in w'.states && Count(w'.states[NextID(w)].provinces, p) == 2
  {
    AddNewStateKeepsConsistent(w, [p, p], color);
    AddNewStateEffect(w, [p, p], color);
    assert [p, p][0] == [p, p][1];
  }

  /** A province moved to a state that does not exist names it, and no list names the province. */
  lemma DeadTargetBreaksConsistency(w: World, p: ProvinceID, id: StateID)
    requires Consistent(w) && p in w.provinces && id !in w.states && id !in {0, NO_STATE}
    ensures
      var w' := MoveProvinceToState(w, p, id).0;
      && !Consistent(w') && p in w'.provinces && w'.provinces[p].state == id
      && forall s :: s in w'.states ==> p !in w'.states[s].provinces
  {
    MoveProvinceKeepsConsistent(w, p, id);
    JoinKeepsMirror(w, p, id);
    var w' := MoveProvinceToState(w, p, id).0;
    forall s | s in w'.states ensures p !in w'.states[s].provinces {
      assert ListsRightly(w', s, p);
    }
  }

  // ----- Runs -----

  datatype Command =
    | Add(ids: seq<ProvinceID>, color: Color)
    | Remove(id: StateID)
    | Move(p: ProvinceID, to: StateID)
    | Drop(p: ProvinceID)

  ghost function Perform(w: World, c: Command): World {
    match c
    case Add(ids, color) => AddNewState(w, ids, color).0
    case Remove(id) => RemoveState(w, id).0
    case Move(p, to) => MoveProvinceToState(w, p, to).0
    case Drop(p) => RemoveProvinceFromState(w, p).0
  }

  /** What a caller has to check before a command. */
  ghost predicate Safe(w: World, c: Command) {
    match c
    case Add(ids, _) => Known(w, ids) ==> Distinct(ids) && (w.available != [] || |w.states| + 1 < NO_STATE as int)
    case Move(p, to) => p in w.provinces ==> to in w.states || to in {0, NO_STATE}
    case _ => true
  }

  ghost predicate SafeRun(w: World, cs: seq<Command>)
    decreases cs
  {
    cs == [] || (Safe(w, cs[0]) && SafeRun(Perform(w, cs[0]), cs[1..]))
  }

  ghost predicate ConsistentThroughout(w: World, cs: seq<Command>)
    decreases cs
  {
    Consistent(w) && (cs == [] || ConsistentThroughout(Perform(w, cs[0]), cs[1..]))
  }

  /** A run passes through consistent worlds only, exactly when every command was safe. */
  lemma {:induction false} RunIsConsistentIffSafe(w: World, cs: seq<Command>)
    requires Consistent(w)
    ensures ConsistentThroughout(w, cs) <==> SafeRun(w, cs)
    decreases cs
  {
    if cs != [] {
      match cs[0] {
        case Add(ids, color) => AddNewStateKeepsConsistent(w, ids, color);
        case Remove(id) => RemoveStateKeepsConsistent(w, id);
        case Move(p, to) => MoveProvinceKeepsConsistent(w, p, to);
        case Drop(p) => RemoveProvinceKeepsConsistent(w, p);
      }
      if Safe(w, cs[0]) {
        RunIsConsistentIffSafe(Perform(w, cs[0]), cs[1..]);
      } else if cs[1..] == [] {
      } else {
        assert !Consistent(Perform(w, cs[0]));
      }
    }
  }
}
