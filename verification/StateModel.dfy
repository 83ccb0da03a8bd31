/**
  States, the provinces they list, the queue of free state ids and the
  per-pixel matrix of state ids, as one value.
 */
module StateModel {
  import opened Types
  import Decimal

  datatype World = World(
    provinces: ProvinceMap,
    states: StateMap,
    available: seq<StateID>,
    labels: seq<ProvinceID>,
    matrix: seq<StateID>)

  // ----- What the operations do -----

  /** The state of the province at a pixel; 0 if there is no such province. */
  function StateAt(provinces: ProvinceMap, pixel: ProvinceID): StateID {
    if pixel in provinces then provinces[pixel].state else 0
  }

  function Painted(w: World): World {
    w.(matrix := seq(|w.labels|, i requires 0 <= i < |w.labels| => StateAt(w.provinces, w.labels[i])))
  }

  function EraseFirst(s: seq<ProvinceID>, p: ProvinceID): seq<ProvinceID> {
    if s == [] then [] else if s[0] == p then s[1..] else [s[0]] + EraseFirst(s[1..], p)
  }

  function WithState(provinces: ProvinceMap, p: ProvinceID, s: StateID): ProvinceMap
    requires p in provinces
  {
    provinces[p := provinces[p].(state := s)]
  }

  /** The province leaves the live state it names, if any, and names none. */
  function Leave(w: World, p: ProvinceID): World
    requires p in w.provinces
  {
    var s := w.provinces[p].state;
    var states :=
      if s in w.states then w.states[s := w.states[s].(provinces := EraseFirst(w.states[s].provinces, p))] else w.states;
    w.(states := states, provinces := WithState(w.provinces, p, NO_STATE))
  }

  /** Every province of the list leaves its state and names `id` instead. */
  function Claimed(w: World, ids: seq<ProvinceID>, id: StateID): (w': World)
    requires forall p :: p in ids ==> p in w.provinces
    ensures w'.provinces.Keys == w.provinces.Keys
    decreases ids
  {
    if ids == [] then w
    else
      var before := Claimed(w, ids[..|ids| - 1], id);
      var p := ids[|ids| - 1];
      var left := Leave(before, p);
      left.(provinces := WithState(left.provinces, p, id))
  }

  /** The id for a new state: the first freed one, or the number of states plus one. */
  function NextID(w: World): StateID {
    if w.available != [] then w.available[0]
    else ((|w.states| + 1) % 0x1_0000_0000) as StateID
  }

  function NewState(id: StateID, ids: seq<ProvinceID>, color: Color): State {
    State(id, "STATE" + Decimal.Print(id as nat), 0, "", 1.0, false, ids, color)
  }

  function AddNewState(w: World, ids: seq<ProvinceID>, color: Color): (World, Maybe<StateID>) {
    if exists p :: p in ids && p !in w.provinces then (w, Failure(ValueNotFound))
    else
      var id := NextID(w);
      var queue := if w.available != [] then w.available[1..] else [];
      var claimed := Claimed(w.(available := queue), ids, id);
      (Painted(claimed.(states := claimed.states[id := NewState(id, ids, color)])), Value(id))
  }

  /** Every province of the list names no state. */
  function Disowned(provinces: ProvinceMap, ids: seq<ProvinceID>): ProvinceMap {
    map p | p in provinces :: if p in ids then provinces[p].(state := NO_STATE) else provinces[p]
  }

  function RemoveState(w: World, id: StateID): (World, Status) {
    if id !in w.states then (w, StateDoesNotExist)
    else
      (Painted(w.(provinces := Disowned(w.provinces, w.states[id].provinces),
                  available := w.available + [id],
                  states := w.states - {id})),
       Success)
  }

  function MoveProvinceToState(w: World, p: ProvinceID, id: StateID): (World, Status) {
    if p !in w.provinces then (w, ValueNotFound)
    else
      var left := Leave(w, p);
      var states :=
        if id in left.states then left.states[id := left.states[id].(provinces := left.states[id].provinces + [p])]
        else left.states;
      (Painted(left.(provinces := WithState(left.provinces, p, id), states := states)), Success)
  }

  function RemoveProvinceFromState(w: World, p: ProvinceID): (World, Status) {
    if p !in w.provinces then (w, ValueNotFound) else (Painted(Leave(w, p)), Success)
  }
}
