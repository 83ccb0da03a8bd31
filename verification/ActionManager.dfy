/** The action manager and the actions it runs, changing their store step by step. */
module ActionManager {
  import opened Actions

  class ActionManager<V(==)> {
    /** What the actions point to. It belongs to the project, not to the manager. */
    var store: Store<V>
    var actions: seq<Action<V>>
    var undoneActions: seq<Action<V>>

    ghost function Contents(): History<V>
      reads this
    {
      History(store, actions, undoneActions)
    }

    constructor (store: Store<V>)
      ensures Contents() == History(store, [], [])
    {
      this.store := store;
      this.actions := [];
      this.undoneActions := [];
    }

    method SetProperty(field: nat, expected: V, value: V, cb: Callback) returns (ok: bool)
      modifies this`store
      ensures (store, ok) == Attempt(Action.SetProperty(field, expected, value), old(store), cb)
    {
      if !cb(0) {
        return false;
      }
      if field !in store.fields || store.fields[field] != expected {
        return false;
      }
      store := store.(fields := store.fields[field := value]);
      if !cb(1) {
        store := store.(fields := store.fields[field := expected]);
        assert store.fields == old(store.fields);
        return false;
      }
      return true;
    }

    method Create(name: string) returns (ok: bool)
      modifies this`store
      ensures ok == (name !in old(store).continents)
      ensures store == if ok then old(store).(continents := old(store).continents + {name}) else old(store)
    {
      if name in store.continents {
        return false;
      }
      store := store.(continents := store.continents + {name});
      return true;
    }

    method Remove(name: string) returns (ok: bool)
      modifies this`store
      ensures ok == (name in old(store).continents)
      ensures store == if ok then old(store).(continents := old(store).continents - {name}) else old(store)
    {
      if name !in store.continents {
        return false;
      }
      store := store.(continents := store.continents - {name});
      return true;
    }

    /** The `doAction` of the action itself. */
    method Perform(a: Action<V>, cb: Callback) returns (ok: bool)
      modifies this`store
      ensures (store, ok) == Attempt(a, old(store), cb)
    {
      match a
      case SetProperty(field, before, after) =>
        ok := SetProperty(field, before, after, cb);
      case CreateContinent(name) =>
        if !cb(0) { return false; }
        ok := Create(name);
        if !ok { return false; }
        ok := cb(1);
      case RemoveContinent(name) =>
        if !cb(0) { return false; }
        ok := Remove(name);
        if !ok { return false; }
        ok := cb(1);
      case Transient =>
        ok := cb(0);
    }

    /** The `undoAction` of the action itself. */
    method Revert(a: Action<V>, cb: Callback) returns (ok: bool)
      modifies this`store
      ensures (store, ok) == Attempt(Inverse(a), old(store), cb)
    {
      match a
      case SetProperty(field, before, after) =>
        ok := SetProperty(field, after, before, cb);
      case CreateContinent(name) =>
        if !cb(0) { return false; }
        ok := Remove(name);
        if !ok { return false; }
        ok := cb(1);
      case RemoveContinent(name) =>
        if !cb(0) { return false; }
        ok := Create(name);
        if !ok { return false; }
        ok := cb(1);
      case Transient =>
        ok := cb(0);
    }

    method DoAction(a: Action<V>, cb: Callback) returns (ok: bool)
      modifies this
      ensures (Contents(), ok) == Actions.DoAction(old(Contents()), a, cb)
    {
      ok := Perform(a, cb);
      if ok && a.CanBeUndone() {
        undoneActions := [];
        actions := actions + [a];
      }
    }

    method UndoAction(cb: Callback) returns (ok: bool)
      modifies this
      ensures (Contents(), ok) == Actions.UndoAction(old(Contents()), cb)
    {
      if actions == [] {
        return false;
      }
      var a := actions[|actions| - 1];
      ok := Revert(a, cb);
      if ok {
        undoneActions := undoneActions + [a];
        actions := actions[..|actions| - 1];
      }
    }

    method RedoAction(cb: Callback) returns (ok: bool)
      modifies this
      ensures (Contents(), ok) == Actions.RedoAction(old(Contents()), cb)
    {
      if undoneActions == [] {
        return false;
      }
      var a := undoneActions[|undoneActions| - 1];
      ok := Perform(a, cb);
      if ok {
        actions := actions + [a];
        undoneActions := undoneActions[..|undoneActions| - 1];
      }
    }

    method ClearHistory()
      modifies this
      ensures Contents() == Actions.ClearHistory(old(Contents()))
    {
      actions := [];
      undoneActions := [];
    }
  }
}
