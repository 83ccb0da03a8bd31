/** Saving a project and loading it again: which worlds come back consistent. */
module Reload {
  import opened Types
  import opened Collections
  import opened StateModel
  import opened StateLaws
  import opened FreeIDs
  import opened TextStream
  import ProvinceCsv
  import StateCsv

  /** What a load leaves, given the provinces and states of the files: free ids scanned anew, matrix rebuilt. */
  function LoadedWorld(provinces: ProvinceMap, states: StateMap, labels: seq<ProvinceID>): World
    requires |states| <= NO_STATE as int
  {
    Painted(World(provinces, states, FreeBelow(states.Keys, |states|), labels, []))
  }

  /** Ids, `state` fields and lists are those of the world; nothing else need be. */
  ghost predicate SameMembership(w: World, provinces: ProvinceMap, states: StateMap) {
    && provinces.Keys == w.provinces.Keys
    && (forall p :: p in w.provinces ==>
          provinces[p].id == w.provinces[p].id && provinces[p].state == w.provinces[p].state)
    && states.Keys == w.states.Keys
    && (forall s :: s in w.states ==>
          states[s].id == w.states[s].id && states[s].provinces == w.states[s].provinces)
  }

  /** Apart from the free ids, a load keeps a world consistent. */
  lemma LoadedIsConsistentIffGapsAreLow(w: World, provinces: ProvinceMap, states: StateMap)
    requires Consistent(w) && SameMembership(w, provinces, states)
    ensures |states| <= NO_STATE as int
    ensures Consistent(LoadedWorld(provinces, states, w.labels)) <==> GapsAreLow(w.states.Keys)
  {
    assert |states| == |states.Keys| == |w.states.Keys| == |w.states|;
    var w' := LoadedWorld(provinces, states, w.labels);
    ScanIsEnoughIffGapsAreLow(w');
    forall s, p | s in w'.states ensures ListsRightly(w', s, p) {
      assert ListsRightly(w, s, p);
    }
    assert Mirrored(w') && Homed(w') && MatrixCurrent(w') && Keyed(w');
  }

  // ----- Through the files -----

  ghost predicate CanBeSaved(w: World, ids: ProvinceCsv.IDText, factors: StateCsv.FactorText) {
    && INVALID_PROVINCE !in w.provinces
    && (forall p :: p in w.provinces ==> ProvinceCsv.Printable(w.provinces[p], ids))
    && forall s :: s in w.states ==> StateCsv.Printable(w.states[s], ids, factors)
  }

  ghost function StatesReloaded(
    m: StateMap, ids: ProvinceCsv.IDText, factors: StateCsv.FactorText, order: seq<StateID>, unique: nat -> Color)
    : Option<StateMap>
    requires forall s :: s in order ==> s in m
  {
    var text := Terminated(StateCsv.Lines(m, StateCsv.LinePrinter(ids, factors), order), '\n');
    match StateCsv.Loaded(Pieces(text, '\n'), StateCsv.LineParser(ids, factors), unique)
    case None => None
    case Some((loaded, _)) => Some(loaded)
  }

  lemma StatesKeepMembership(
    w: World, ids: ProvinceCsv.IDText, factors: StateCsv.FactorText, order: seq<StateID>, unique: nat -> Color)
    requires Keyed(w) && Enumerates(order, w.states)
    requires forall s :: s in w.states ==> StateCsv.Printable(w.states[s], ids, factors)
    ensures StatesReloaded(w.states, ids, factors, order, unique).Some?
    ensures
      var loaded := StatesReloaded(w.states, ids, factors, order, unique).value;
      && loaded.Keys == w.states.Keys
      && forall s :: s in w.states ==>
           loaded[s].id == w.states[s].id && loaded[s].provinces == w.states[s].provinces
  {
    StateCsv.LoadRestoresSave(w.states, ids, factors, order, unique);
    var loaded := StatesReloaded(w.states, ids, factors, order, unique).value;
    RestoredKeepsMembership(loaded, w.states, factors, order, unique);
  }

  lemma RestoredKeepsMembership(
    loaded: StateMap, m: StateMap, factors: StateCsv.FactorText, order: seq<StateID>, unique: nat -> Color)
    requires Enumerates(order, m) && StateCsv.Restores(loaded, m, order, StateCsv.Keeper(factors), unique)
    ensures loaded.Keys == m.Keys
    ensures forall s :: s in m ==> loaded[s].id == m[s].id && loaded[s].provinces == m[s].provinces
  {
    forall s | s in m
      ensures s in loaded && loaded[s].id == m[s].id && loaded[s].provinces == m[s].provinces
    {
      var i :| 0 <= i < |order| && order[i] == s;
    }
  }

  /**
    A consistent world that is saved and loaded comes back consistent if and only
    if every free id that is smaller than a live one is below the number of states.
    Rounded factors and new colours do not matter.
   */
  lemma ReloadIsConsistentIffGapsAreLow(
    w: World, ids: ProvinceCsv.IDText, factors: StateCsv.FactorText,
    provinceOrder: seq<ProvinceID>, stateOrder: seq<StateID>, held: Province, unique: nat -> Color)
    requires Consistent(w) && CanBeSaved(w, ids, factors)
    requires Enumerates(provinceOrder, w.provinces) && Enumerates(stateOrder, w.states)
    ensures
      var provinces := ProvinceCsv.Reloaded(w.provinces, ids, provinceOrder, held);
      var states := StatesReloaded(w.states, ids, factors, stateOrder, unique);
      && provinces.Some? && states.Some? && |states.value| <= NO_STATE as int
      && (Consistent(LoadedWorld(provinces.value, states.value, w.labels)) <==> GapsAreLow(w.states.Keys))
  {
    ProvinceCsv.LoadRestoresSave(w.provinces, ids, provinceOrder, held);
    StatesKeepMembership(w, ids, factors, stateOrder, unique);
    LoadedIsConsistentIffGapsAreLow(
      w, ProvinceCsv.Reloaded(w.provinces, ids, provinceOrder, held).value,
      StatesReloaded(w.states, ids, factors, stateOrder, unique).value);
  }

  // ----- A new state -----

  lemma NewWorldCanBeSaved(
    w: World, list: seq<ProvinceID>, color: Color, ids: ProvinceCsv.IDText, factors: StateCsv.FactorText)
    requires Consistent(w) && Known(w, list) && CanBeSaved(w, ids, factors) && factors.Readable(1.0)
    ensures
      var w' := AddNewState(w, list, color).0;
      forall s :: s in w'.states ==> w'.states[s].id == s && StateCsv.Printable(w'.states[s], ids, factors)
  {
    AddNewStateEffect(w, list, color);
    var w' := AddNewState(w, list, color).0;
    forall s | s in w'.states ensures w'.states[s].id == s && StateCsv.Printable(w'.states[s], ids, factors) {
      if s in w.states {
        WithoutIsWithin(w.states[s].provinces, Members(list));
      } else {
        NewStateIsPrintable(w, w'.states[s], color, ids, factors);
      }
    }
  }

  lemma NewStateIsPrintable(w: World, s: State, color: Color, ids: ProvinceCsv.IDText, factors: StateCsv.FactorText)
    requires IsNew(s, s.id, color) && Known(w, s.provinces) && factors.Readable(1.0) && Keyed(w)
    requires forall p :: p in w.provinces ==> ProvinceCsv.Printable(w.provinces[p], ids)
    ensures StateCsv.Printable(s, ids, factors)
  {
    var digits := s.name[5..];
    assert s.name == "STATE" + digits;
    assert ';' !in digits && '\n' !in digits;
    forall p | p in s.provinces ensures ids.Faithful(p) { assert ProvinceCsv.Printable(w.provinces[p], ids); }
  }

  lemma {:induction false} WithoutIsWithin(s: seq<ProvinceID>, gone: set<ProvinceID>)
    ensures forall p :: p in Without(s, gone) ==> p in s
  {
    if s != [] { WithoutIsWithin(s[1..], gone); }
  }

  lemma ColoredStateIsReloaded(
    m: StateMap, ids: ProvinceCsv.IDText, factors: StateCsv.FactorText, order: seq<StateID>, unique: nat -> Color,
    s: StateID)
    requires Enumerates(order, m) && s in m && m[s].color != Color(0, 0, 0)
    requires forall r :: r in m ==> m[r].id == r && StateCsv.Printable(m[r], ids, factors)
    ensures
      var loaded := StatesReloaded(m, ids, factors, order, unique);
      && loaded.Some? && s in loaded.value
      && loaded.value[s] ==
         m[s].(buildingsMaxLevelFactor := factors.Stored(m[s].buildingsMaxLevelFactor))
  {
    StateCsv.LoadRestoresSave(m, ids, factors, order, unique);
    var i :| 0 <= i < |order| && order[i] == s;
  }

  /**
    A new state with a colour comes back from a save and a load with the same name,
    colour, provinces and other fields. Its factor is what the text of 1 stands for.
   */
  lemma AddedStateIsReloaded(
    w: World, list: seq<ProvinceID>, color: Color, ids: ProvinceCsv.IDText, factors: StateCsv.FactorText,
    order: seq<StateID>, unique: nat -> Color)
    requires Consistent(w) && Known(w, list) && CanBeSaved(w, ids, factors) && factors.Readable(1.0)
    requires color != Color(0, 0, 0) && Enumerates(order, AddNewState(w, list, color).0.states)
    ensures
      var (w', id) := AddNewState(w, list, color);
      var loaded := StatesReloaded(w'.states, ids, factors, order, unique);
      && id.Value? && id.value in w'.states && w'.states[id.value].color == color
      && loaded.Some? && id.value in loaded.value
      && loaded.value[id.value] == w'.states[id.value].(buildingsMaxLevelFactor := factors.Stored(1.0))
      && (loaded.value[id.value] == w'.states[id.value] <==> factors.Stored(1.0) == 1.0)
  {
    AddNewStateEffect(w, list, color);
    NewWorldCanBeSaved(w, list, color, ids, factors);
    ColoredStateIsReloaded(AddNewState(w, list, color).0.states, ids, factors, order, unique, NextID(w));
  }

  /**
    Remove the second of three states, save and load: the freed id 2 is lost, and
    the next new state takes the id of the third.
   */
  lemma RemovedStateIsClobberedAfterReload(w: World, provinces: ProvinceMap, states: StateMap)
    requires Consistent(w) && w.states.Keys == {1, 2, 3} && SameMembership(RemoveState(w, 2).0, provinces, states)
    ensures Consistent(RemoveState(w, 2).0) && 2 in RemoveState(w, 2).0.available
    ensures |states| <= NO_STATE as int
    ensures
      var loaded := LoadedWorld(provinces, states, w.labels);
      2 !in loaded.available && NextID(loaded) == 3 && 3 in loaded.states
  {
    RemoveStateKeepsConsistent(w, 2);
    FreedIDIsQueued(w, 2);
    assert states.Keys == {1, 3};
    OneAndThreeLoaded(provinces, states, w.labels);
  }

  lemma FreedIDIsQueued(w: World, id: StateID)
    requires id in w.states
    ensures id in RemoveState(w, id).0.available
  {
    assert id in w.available + [id];
  }

  lemma OneAndThreeLoaded(provinces: ProvinceMap, states: StateMap, labels: seq<ProvinceID>)
    requires states.Keys == {1, 3}
    ensures |states| <= NO_STATE as int
    ensures
      var loaded := LoadedWorld(provinces, states, labels);
      2 !in loaded.available && NextID(loaded) == 3 && 3 in loaded.states
  {
    assert |states| == |states.Keys| == 2;
    LoadOfOneAndThreeClashes(LoadedWorld(provinces, states, labels));
    FreeBelowMembers(states.Keys, 2);
  }
}
