/** What doing, undoing and redoing each kind of action does to store and stacks, and when it is refused. */
module ActionLaws {
  import opened Types
  import opened Actions

  /** The callback accepts both stages. */
  ghost predicate Accepts(cb: Callback) {
    cb(0) && cb(1)
  }

  /** The history with one more action on top of the done ones, or of the undone ones. */
  function WithDone<V>(h: History<V>, a: Action<V>): History<V> {
    h.(done := h.done + [a])
  }

  function WithUndone<V>(h: History<V>, a: Action<V>): History<V> {
    h.(undone := h.undone + [a])
  }

  /** An undo reads no more of the done actions than the top one, and a redo no more of the undone ones. */
  lemma TopsAreTaken<V>(h: History<V>, a: Action<V>)
    ensures WithDone(h, a).done != [] && WithUndone(h, a).undone != []
    ensures WithDone(h, a).done[|h.done|] == a && WithDone(h, a).done[..|h.done|] == h.done
    ensures WithUndone(h, a).undone[|h.undone|] == a && WithUndone(h, a).undone[..|h.undone|] == h.undone
  {
  }

  /** A property is in the store with this value. */
  ghost predicate FieldHolds<V>(s: Store<V>, f: nat, v: V) {
    f in s.fields && s.fields[f] == v
  }

  /**
    Doing sets a field that holds the old value, undoing one that holds the new
    value, and redoing is doing again. Anything else is refused and changes nothing.
   */
  lemma PropertyIsSet<V>(h: History<V>, f: nat, before: V, after: V, cb: Callback)
    ensures
      var a := SetProperty(f, before, after);
      var (h', ok) := DoAction(h, a, cb);
      && (ok <==> Accepts(cb) && FieldHolds(h.store, f, before))
      && h' == if ok then History(h.store.(fields := h.store.fields[f := after]), h.done + [a], []) else h
    ensures
      var a := SetProperty(f, before, after);
      var (h', ok) := UndoAction(WithDone(h, a), cb);
      && (ok <==> Accepts(cb) && FieldHolds(h.store, f, after))
      && h' == if ok then History(h.store.(fields := h.store.fields[f := before]), h.done, h.undone + [a])
               else WithDone(h, a)
    ensures
      var a := SetProperty(f, before, after);
      var (h', ok) := RedoAction(WithUndone(h, a), cb);
      && (ok <==> Accepts(cb) && FieldHolds(h.store, f, before))
      && h' == if ok then History(h.store.(fields := h.store.fields[f := after]), h.done + [a], h.undone)
               else WithUndone(h, a)
  {
    TopsAreTaken(h, SetProperty(f, before, after));
  }

  /** The store once a continent has been added, or removed. */
  function WithContinent<V>(s: Store<V>, name: string): Store<V> {
    s.(continents := s.continents + {name})
  }

  function WithoutContinent<V>(s: Store<V>, name: string): Store<V> {
    s.(continents := s.continents - {name})
  }

  /**
    Doing adds a continent that is not there, and undoing removes one that is. If
    the callback refuses afterwards, the change stays but the stacks do not move.
   */
  lemma ContinentIsCreated<V>(h: History<V>, name: string, cb: Callback)
    ensures
      var a, there := CreateContinent(name), name in h.store.continents;
      var (h', ok) := DoAction(h, a, cb);
      && (ok <==> Accepts(cb) && !there)
      && h' == if ok then History(WithContinent(h.store, name), h.done + [a], [])
               else if cb(0) && !there then h.(store := WithContinent(h.store, name)) else h
    ensures
      var a, there := CreateContinent(name), name in h.store.continents;
      var (h', ok) := UndoAction(WithDone(h, a), cb);
      && (ok <==> Accepts(cb) && there)
      && h' == if ok then History(WithoutContinent(h.store, name), h.done, h.undone + [a])
               else if cb(0) && there then WithDone(h, a).(store := WithoutContinent(h.store, name)) else WithDone(h, a)
    ensures
      var a, there := CreateContinent(name), name in h.store.continents;
      var (h', ok) := RedoAction(WithUndone(h, a), cb);
      && (ok <==> Accepts(cb) && !there)
      && h' == if ok then History(WithContinent(h.store, name), h.done + [a], h.undone)
               else if cb(0) && !there then WithUndone(h, a).(store := WithContinent(h.store, name))
               else WithUndone(h, a)
  {
    TopsAreTaken(h, CreateContinent(name));
  }

  /** The same for removing a continent, with adding and removing exchanged. */
  lemma ContinentIsRemoved<V>(h: History<V>, name: string, cb: Callback)
    ensures
      var a, there := RemoveContinent(name), name in h.store.continents;
      var (h', ok) := DoAction(h, a, cb);
      && (ok <==> Accepts(cb) && there)
      && h' == if ok then History(WithoutContinent(h.store, name), h.done + [a], [])
               else if cb(0) && there then h.(store := WithoutContinent(h.store, name)) else h
    ensures
      var a, there := RemoveContinent(name), name in h.store.continents;
      var (h', ok) := UndoAction(WithDone(h, a), cb);
      && (ok <==> Accepts(cb) && !there)
      && h' == if ok then History(WithContinent(h.store, name), h.done, h.undone + [a])
               else if cb(0) && !there then WithDone(h, a).(store := WithContinent(h.store, name)) else WithDone(h, a)
    ensures
      var a, there := RemoveContinent(name), name in h.store.continents;
      var (h', ok) := RedoAction(WithUndone(h, a), cb);
      && (ok <==> Accepts(cb) && there)
      && h' == if ok then History(WithoutContinent(h.store, name), h.done + [a], h.undone)
               else if cb(0) && there then WithUndone(h, a).(store := WithoutContinent(h.store, name))
               else WithUndone(h, a)
  {
    TopsAreTaken(h, RemoveContinent(name));
  }

  /** An action that cannot be undone leaves store and stacks alone, and empty stacks refuse. */
  lemma NothingToRecord<V>(h: History<V>, cb: Callback)
    ensures DoAction(h, Transient, cb) == (h, cb(0))
    ensures h.done == [] ==> UndoAction(h, cb) == (h, false)
    ensures h.undone == [] ==> RedoAction(h, cb) == (h, false)
  {
  }
}
