/** Undoable actions over a store of properties and continents, and the history that a manager keeps of them. */
module Actions {
  import opened Types

  /** The fields that property actions point to, by address, and the set of continents. */
  datatype Store<V> = Store(fields: map<nat, V>, continents: set<string>)

  /** `Transient` stands for the actions that are not undoable and leave the store alone, such as saving. */
  datatype Action<V> =
    | SetProperty(field: nat, oldValue: V, newValue: V)
    | CreateContinent(name: string)
    | RemoveContinent(name: string)
    | Transient
  {
    predicate CanBeUndone() { !Transient? }
  }

  /** Answers stage 0, before the change, and stage 1, after it. */
  type Callback = nat -> bool

  // ----- The change itself, without callbacks -----

  /** The store after the action; none if the action's guard refuses. */
  function Effect<V(==)>(a: Action<V>, s: Store<V>): Option<Store<V>>
  {
    match a
    case SetProperty(f, before, after) =>
      if f !in s.fields || s.fields[f] != before then None else Some(s.(fields := s.fields[f := after]))
    case CreateContinent(name) =>
      if name in s.continents then None else Some(s.(continents := s.continents + {name}))
    case RemoveContinent(name) =>
      if name !in s.continents then None else Some(s.(continents := s.continents - {name}))
    case Transient => Some(s)
  }

  /** The action that undoing `a` amounts to. */
  function Inverse<V>(a: Action<V>): Action<V> {
    match a
    case SetProperty(f, before, after) => SetProperty(f, after, before)
    case CreateContinent(name) => RemoveContinent(name)
    case RemoveContinent(name) => CreateContinent(name)
    case Transient => Transient
  }

  lemma EffectIsReversible<V>(a: Action<V>, s: Store<V>, s': Store<V>)
    ensures Effect(a, s) == Some(s') <==> Effect(Inverse(a), s') == Some(s)
  {
    match a
    case SetProperty(f, before, after) =>
      if Effect(a, s) == Some(s') { assert s'.fields[f := before] == s.fields; }
      if Effect(Inverse(a), s') == Some(s) { assert s.fields[f := after] == s'.fields; }
    case CreateContinent(name) =>
      if Effect(a, s) == Some(s') { assert s'.continents - {name} == s.continents; }
      if Effect(Inverse(a), s') == Some(s) { assert s.continents + {name} == s'.continents; }
    case RemoveContinent(name) =>
      if Effect(a, s) == Some(s') { assert s'.continents + {name} == s.continents; }
      if Effect(Inverse(a), s') == Some(s) { assert s.continents - {name} == s'.continents; }
    case Transient =>
  }

  // ----- One attempt, with its callbacks -----

  /**
    A refused property action rolls its field back. A continent action that is
    refused at stage 1 reports failure but keeps its change.
   */
  function Attempt<V(==)>(a: Action<V>, s: Store<V>, cb: Callback): (Store<V>, bool)
  {
    if !cb(0) then (s, false)
    else if Effect(a, s).None? then (s, false)
    else if cb(1) || a.Transient? then (Effect(a, s).value, true)
    else if a.SetProperty? then (s, false)
    else (Effect(a, s).value, false)
  }

  // ----- The manager's history -----

  /** The top of each stack is its last element. */
  datatype History<V> = History(store: Store<V>, done: seq<Action<V>>, undone: seq<Action<V>>)

  function DoAction<V(==)>(h: History<V>, a: Action<V>, cb: Callback): (History<V>, bool)
  {
    var (s, ok) := Attempt(a, h.store, cb);
    (if ok && a.CanBeUndone() then History(s, h.done + [a], []) else h.(store := s), ok)
  }

  function UndoAction<V(==)>(h: History<V>, cb: Callback): (History<V>, bool)
  {
    if h.done == [] then (h, false)
    else
      var a, rest := h.done[|h.done| - 1], h.done[..|h.done| - 1];
      var (s, ok) := Attempt(Inverse(a), h.store, cb);
      (if ok then History(s, rest, h.undone + [a]) else h.(store := s), ok)
  }

  function RedoAction<V(==)>(h: History<V>, cb: Callback): (History<V>, bool)
  {
    if h.undone == [] then (h, false)
    else
      var a, rest := h.undone[|h.undone| - 1], h.undone[..|h.undone| - 1];
      var (s, ok) := Attempt(a, h.store, cb);
      (if ok then History(s, h.done + [a], rest) else h.(store := s), ok)
  }

  function ClearHistory<V>(h: History<V>): History<V> {
    History(h.store, [], [])
  }
}
