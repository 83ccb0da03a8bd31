/** The state project, together with the parts of the map project that move provinces between states. */
module StateProject {
  import opened Types
  import opened StateModel
  import opened FreeIDs
  import Decimal

  class StateProject {
    var provinces: ProvinceMap
    var states: StateMap
    var availableStateIDs: seq<StateID>
    const labels: seq<ProvinceID>
    const stateIDMatrix: array<StateID>

    ghost predicate Valid()
      reads this
    {
      stateIDMatrix.Length == |labels| > 0
    }

    ghost function Contents(): World
      reads this, stateIDMatrix
    {
      World(provinces, states, availableStateIDs, labels, stateIDMatrix[..])
    }

    constructor (provinces: ProvinceMap, labels: seq<ProvinceID>)
      requires labels != []
      ensures Valid() && fresh(stateIDMatrix)
      ensures Contents() == World(provinces, map[], [], labels, seq(|labels|, _ => 0))
    {
      this.provinces := provinces;
      this.states := map[];
      this.availableStateIDs := [];
      this.labels := labels;
      this.stateIDMatrix := new StateID[|labels|](_ => 0);
    }

    method UpdateStateIDMatrix()
      requires Valid()
      modifies stateIDMatrix
      ensures Contents() == Painted(old(Contents()))
    {
      for i := 0 to |labels|
        invariant forall j :: 0 <= j < i ==> stateIDMatrix[j] == StateAt(provinces, labels[j])
      {
        stateIDMatrix[i] := if labels[i] in provinces then provinces[labels[i]].state else 0;
      }
    }

    /** Appends to the list of a live state. */
    method AddProvinceToState(id: StateID, p: ProvinceID) returns (status: Status)
      modifies this`states
      ensures status == if id in old(states) then Success else StateDoesNotExist
      ensures states ==
        if id in old(states) then old(states)[id := old(states)[id].(provinces := old(states)[id].provinces + [p])]
        else old(states)
    {
      if id !in states {
        return StateDoesNotExist;
      }
      states := states[id := states[id].(provinces := states[id].provinces + [p])];
      return Success;
    }

    /** Erases the first occurrence in the list of a live state. */
    method RemoveProvinceFromList(id: StateID, p: ProvinceID) returns (status: Status)
      modifies this`states
      ensures status == if id in old(states) then Success else StateDoesNotExist
      ensures states ==
        if id in old(states) then old(states)[id := old(states)[id].(provinces := EraseFirst(old(states)[id].provinces, p))]
        else old(states)
    {
      if id !in states {
        return StateDoesNotExist;
      }
      var list := Erase(states[id].provinces, p);
      states := states[id := states[id].(provinces := list)];
      return Success;
    }

    static method Erase(list: seq<ProvinceID>, p: ProvinceID) returns (r: seq<ProvinceID>)
      ensures r == EraseFirst(list, p)
    {
      for i := 0 to |list|
        invariant EraseFirst(list, p) == list[..i] + EraseFirst(list[i..], p)
      {
        assert list[i..] == [list[i]] + list[i + 1..];
        if list[i] == p {
          return list[..i] + list[i + 1..];
        }
        assert list[..i + 1] == list[..i] + [list[i]];
      }
      return list;
    }

    method LeaveState(p: ProvinceID, updateMatrix: bool)
      requires Valid() && p in provinces && provinces[p].id == p
      modifies this, stateIDMatrix
      ensures availableStateIDs == old(availableStateIDs)
      ensures Contents() == if updateMatrix then Painted(Leave(old(Contents()), p)) else Leave(old(Contents()), p)
    {
      var home := provinces[p].state;
      if home in states {
        var _ := RemoveProvinceFromList(home, provinces[p].id);
      }
      provinces := provinces[p := provinces[p].(state := NO_STATE)];
      if updateMatrix {
        UpdateStateIDMatrix();
      }
    }

    method RemoveProvinceFromState(p: ProvinceID) returns (status: Status)
      requires Valid() && (p in provinces ==> provinces[p].id == p)
      modifies this, stateIDMatrix
      ensures Valid() && (Contents(), status) == StateModel.RemoveProvinceFromState(old(Contents()), p)
    {
      if p !in provinces {
        return ValueNotFound;
      }
      LeaveState(p, true);
      return Success;
    }

    method MoveProvinceToState(p: ProvinceID, id: StateID) returns (status: Status)
      requires Valid() && (p in provinces ==> provinces[p].id == p)
      modifies this, stateIDMatrix
      ensures Valid() && (Contents(), status) == StateModel.MoveProvinceToState(old(Contents()), p, id)
    {
      if p !in provinces {
        return ValueNotFound;
      }
      LeaveState(p, true);
      provinces := provinces[p := provinces[p].(state := id)];
      var _ := AddProvinceToState(id, provinces[p].id);
      UpdateStateIDMatrix();
      return Success;
    }

    /** Decouples the provinces from their old states and assigns them to `id`. */
    method ClaimProvinces(ids: seq<ProvinceID>, id: StateID)
      requires Valid() && forall p :: p in provinces ==> provinces[p].id == p
      requires forall p :: p in ids ==> p in provinces
      modifies this, stateIDMatrix
      ensures Contents() == Claimed(old(Contents()), ids, id)
    {
      ghost var before := Contents();
      for i := 0 to |ids|
        invariant provinces.Keys == before.provinces.Keys
        invariant forall p :: p in provinces ==> provinces[p].id == p
        invariant Contents() == Claimed(before, ids[..i], id)
      {
        assert ids[..i + 1][..i] == ids[..i];
        LeaveState(ids[i], false);
        provinces := provinces[ids[i] := provinces[ids[i]].(state := id)];
      }
      assert ids[..|ids|] == ids;
    }

    method AllExist(ids: seq<ProvinceID>) returns (ok: bool)
      ensures ok <==> forall p :: p in ids ==> p in provinces
    {
      for i := 0 to |ids|
        invariant forall j :: 0 <= j < i ==> ids[j] in provinces
      {
        if ids[i] !in provinces {
          return false;
        }
      }
      return true;
    }

    method AddNewState(ids: seq<ProvinceID>, color: Color) returns (r: Maybe<StateID>)
      requires Valid() && forall p :: p in provinces ==> provinces[p].id == p
      modifies this, stateIDMatrix
      ensures Valid() && (Contents(), r) == StateModel.AddNewState(old(Contents()), ids, color)
    {
      var known := AllExist(ids);
      if !known {
        return Failure(ValueNotFound);
      }
      var id := ((|states| + 1) % 0x1_0000_0000) as StateID;
      if availableStateIDs != [] {
        id := availableStateIDs[0];
        availableStateIDs := availableStateIDs[1..];
      }
      ClaimProvinces(ids, id);
      states := states[id := State(id, "STATE" + Decimal.Print(id as nat), 0, "", 1.0, false, ids, color)];
      UpdateStateIDMatrix();
      return Value(id);
    }

    method RemoveState(id: StateID) returns (status: Status)
      requires Valid() && (id in states ==> forall p :: p in states[id].provinces ==> p in provinces)
      modifies this, stateIDMatrix
      ensures Valid() && (Contents(), status) == StateModel.RemoveState(old(Contents()), id)
    {
      if id !in states {
        return StateDoesNotExist;
      }
      var list := states[id].provinces;
      ghost var before := provinces;
      for i := 0 to |list|
        invariant Contents() == old(Contents()).(provinces := provinces)
        invariant provinces.Keys == before.Keys
        invariant forall p :: p in before ==>
          provinces[p] == if p in list[..i] then before[p].(state := NO_STATE) else before[p]
      {
        provinces := provinces[list[i] := provinces[list[i]].(state := NO_STATE)];
      }
      assert list[..|list|] == list;
      assert provinces == Disowned(before, list);
      availableStateIDs := availableStateIDs + [id];
      states := states - {id};
      UpdateStateIDMatrix();
      return Success;
    }

    /** What a load does once every line has been read into `states`. */
    method FinishLoad()
      requires Valid() && |states| <= NO_STATE as int
      modifies this`availableStateIDs, stateIDMatrix
      ensures Valid()
      ensures Contents() ==
        Painted(old(Contents()).(available := old(availableStateIDs) + FreeBelow(old(states.Keys), |old(states)|)))
    {
      ghost var before := availableStateIDs;
      var id := 1;
      while id < |states|
        invariant 1 <= id && (id <= |states| || id == 1)
        invariant availableStateIDs == before + FreeBelow(states.Keys, id)
      {
        if id as StateID !in states {
          availableStateIDs := availableStateIDs + [id as StateID];
        }
        id := id + 1;
      }
      UpdateStateIDMatrix();
    }
  }
}
