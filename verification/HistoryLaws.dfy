/** Undo and redo as movement along a timeline of actions replayed from a base store. */
module HistoryLaws {
  import opened Types
  import opened Actions

  /** The store after all the actions, oldest first; none if a guard refuses on the way. */
  ghost function Replay<V>(base: Store<V>, acts: seq<Action<V>>): Option<Store<V>>
    decreases acts
  {
    if acts == [] then Some(base)
    else
      match Replay(base, acts[..|acts| - 1])
      case None => None
      case Some(s) => Effect(acts[|acts| - 1], s)
  }

  ghost function Reversed<T>(s: seq<T>): (r: seq<T>)
    ensures |r| == |s|
  {
    if s == [] then [] else [s[|s| - 1]] + Reversed(s[..|s| - 1])
  }

  lemma ReversedAppend<T>(s: seq<T>, x: T)
    ensures Reversed(s + [x]) == [x] + Reversed(s)
  {
    assert (s + [x])[..|s|] == s;
  }

  lemma {:induction false} ReversedIsInjective<T>(s: seq<T>, t: seq<T>)
    requires Reversed(s) == Reversed(t)
    ensures s == t
  {
    assert |s| == |t|;
    if s != [] {
      var p, q := s[..|s| - 1], t[..|t| - 1];
      assert Reversed(s)[1..] == Reversed(p) && Reversed(t)[1..] == Reversed(q);
      ReversedIsInjective(p, q);
      assert Reversed(s)[0] == Reversed(t)[0];
      assert s == p + [s[|s| - 1]] && t == q + [t[|t| - 1]];
    }
  }

  /** Everything that has been done, followed by what can be redone. */
  ghost function Timeline<V>(h: History<V>): seq<Action<V>> {
    h.done + Reversed(h.undone)
  }

  /** The store is the base with the done actions replayed, and the undone ones can follow. */
  ghost predicate Coherent<V>(base: Store<V>, h: History<V>) {
    && Replay(base, h.done) == Some(h.store)
    && Replay(base, Timeline(h)).Some?
  }

  lemma {:induction false} ReplayPrefix<V>(base: Store<V>, acts: seq<Action<V>>, k: nat)
    requires k <= |acts| && Replay(base, acts).Some?
    ensures Replay(base, acts[..k]).Some?
    decreases |acts|
  {
    if k == |acts| {
      assert acts[..k] == acts;
    } else {
      ReplayPrefix(base, acts[..|acts| - 1], k);
      assert acts[..|acts| - 1][..k] == acts[..k];
    }
  }

  // ----- One command -----

  datatype Command<V> = Do(a: Action<V>, cb: Callback) | Undo(cb: Callback) | Redo(cb: Callback) | Clear

  /** The action that a command attempts, if it attempts one. */
  ghost function Attempted<V>(h: History<V>, c: Command<V>): Option<Action<V>> {
    match c
    case Do(a, _) => Some(a)
    case Undo(_) => if h.done == [] then None else Some(Inverse(h.done[|h.done| - 1]))
    case Redo(_) => if h.undone == [] then None else Some(h.undone[|h.undone| - 1])
    case Clear => None
  }

  ghost function Step<V>(h: History<V>, c: Command<V>): (History<V>, bool)
  {
    match c
    case Do(a, cb) => DoAction(h, a, cb)
    case Undo(cb) => UndoAction(h, cb)
    case Redo(cb) => RedoAction(h, cb)
    case Clear => (ClearHistory(h), true)
  }

  /** Where replaying starts after a command: clearing the history makes the present store the base. */
  ghost function BaseAfter<V>(base: Store<V>, h: History<V>, c: Command<V>): Store<V> {
    if c.Clear? then h.store else base
  }

  /** A continent action that its callback refuses only after the change was made. */
  ghost predicate Leaks<V>(h: History<V>, c: Command<V>)
  {
    match Attempted(h, c)
    case None => false
    case Some(a) =>
      (a.CreateContinent? || a.RemoveContinent?) && c.cb(0) && !c.cb(1) && Effect(a, h.store).Some?
  }

  lemma EffectChangesContinents<V>(a: Action<V>, s: Store<V>)
    requires a.CreateContinent? || a.RemoveContinent?
    ensures Effect(a, s).Some? ==> Effect(a, s).value != s
  {
    match a
    case CreateContinent(name) => if Effect(a, s).Some? { assert name in Effect(a, s).value.continents; }
    case RemoveContinent(name) => if Effect(a, s).Some? { assert name !in Effect(a, s).value.continents; }
    case _ =>
  }

  lemma DoIsCoherent<V>(base: Store<V>, h: History<V>, a: Action<V>, cb: Callback)
    requires Coherent(base, h)
    ensures Coherent(base, DoAction(h, a, cb).0) <==> !Leaks(h, Do(a, cb))
  {
    var h' := DoAction(h, a, cb).0;
    if Leaks(h, Do(a, cb)) {
      EffectChangesContinents(a, h.store);
    } else if h' != h {
      assert h'.done[..|h'.done| - 1] == h.done;
      assert Timeline(h') == h'.done;
    }
  }

  /** A done action can be undone: replaying one action less gives what its inverse gives. */
  lemma TopReverts<V>(base: Store<V>, h: History<V>)
    requires Coherent(base, h) && h.done != []
    ensures
      var a, rest := h.done[|h.done| - 1], h.done[..|h.done| - 1];
      && Replay(base, rest).Some?
      && Effect(Inverse(a), h.store) == Replay(base, rest)
  {
    var a, rest := h.done[|h.done| - 1], h.done[..|h.done| - 1];
    EffectIsReversible(a, Replay(base, rest).value, h.store);
  }

  lemma TopMovesAcross<T>(done: seq<T>, a: T, undone: seq<T>)
    ensures done + [a] + Reversed(undone) == done + Reversed(undone + [a])
  {
    ReversedAppend(undone, a);
  }

  /** An attempt succeeds with the action's effect, changes nothing, or leaks the effect. */
  lemma AttemptOutcome<V>(a: Action<V>, s: Store<V>, cb: Callback)
    ensures
      var (s', ok) := Attempt(a, s, cb);
      && (ok ==> Effect(a, s) == Some(s'))
      && (cb(0) && cb(1) && Effect(a, s).Some? ==> ok)
      && var leak := (a.CreateContinent? || a.RemoveContinent?) && cb(0) && !cb(1) && Effect(a, s).Some?;
         (leak ==> !ok && s' != s) && (!ok && !leak ==> s' == s)
  {
    if a.CreateContinent? || a.RemoveContinent? { EffectChangesContinents(a, s); }
  }

  /** The last done action taken back and put on the undone ones. */
  lemma MovedBackIsCoherent<V>(base: Store<V>, h: History<V>, h': History<V>)
    requires Coherent(base, h) && h.done != []
    requires h'.done == h.done[..|h.done| - 1] && h'.undone == h.undone + [h.done[|h.done| - 1]]
    requires Replay(base, h'.done) == Some(h'.store)
    ensures Coherent(base, h') && Timeline(h') == Timeline(h)
  {
    var top := h.done[|h.done| - 1];
    assert h.done == h'.done + [top];
    TopMovesAcross(h'.done, top, h.undone);
    assert Timeline(h') == Timeline(h);
  }

  lemma UndoIsCoherent<V>(base: Store<V>, h: History<V>, cb: Callback)
    requires Coherent(base, h)
    ensures Coherent(base, UndoAction(h, cb).0) <==> !Leaks(h, Undo(cb))
    ensures !Leaks(h, Undo(cb)) ==> Timeline(UndoAction(h, cb).0) == Timeline(h)
    ensures h.done != [] && cb(0) && cb(1) ==>
      UndoAction(h, cb).1 && |UndoAction(h, cb).0.done| == |h.done| - 1
  {
    if h.done != [] {
      TopReverts(base, h);
      AttemptOutcome(Inverse(h.done[|h.done| - 1]), h.store, cb);
      var (h', ok) := UndoAction(h, cb);
      if ok {
        MovedBackIsCoherent(base, h, h');
      } else {
        assert h' == h.(store := h'.store);
      }
    }
  }

  /** The next undone action applies: its guard holds on the current store. */
  lemma NextApplies<V>(base: Store<V>, h: History<V>)
    requires Coherent(base, h) && h.undone != []
    ensures
      var a := h.undone[|h.undone| - 1];
      && Effect(a, h.store).Some?
      && Replay(base, h.done + [a]) == Effect(a, h.store)
  {
    var a := h.undone[|h.undone| - 1];
    var next := h.done + [a];
    assert Timeline(h)[..|next|] == next;
    ReplayPrefix(base, Timeline(h), |next|);
    assert next[..|next| - 1] == h.done;
  }

  /** The last undone action taken over onto the done ones. */
  lemma MovedOnIsCoherent<V>(base: Store<V>, h: History<V>, h': History<V>)
    requires Coherent(base, h) && h.undone != []
    requires h'.undone == h.undone[..|h.undone| - 1] && h'.done == h.done + [h.undone[|h.undone| - 1]]
    requires Replay(base, h'.done) == Some(h'.store)
    ensures Coherent(base, h') && Timeline(h') == Timeline(h)
  {
    var top := h.undone[|h.undone| - 1];
    assert h.undone == h'.undone + [top];
    TopMovesAcross(h.done, top, h'.undone);
    assert Timeline(h') == Timeline(h);
  }

  lemma RedoIsCoherent<V>(base: Store<V>, h: History<V>, cb: Callback)
    requires Coherent(base, h)
    ensures Coherent(base, RedoAction(h, cb).0) <==> !Leaks(h, Redo(cb))
    ensures !Leaks(h, Redo(cb)) ==> Timeline(RedoAction(h, cb).0) == Timeline(h)
    ensures h.undone != [] && cb(0) && cb(1) ==>
      RedoAction(h, cb).1 && |RedoAction(h, cb).0.done| == |h.done| + 1
  {
    if h.undone != [] {
      NextApplies(base, h);
      AttemptOutcome(h.undone[|h.undone| - 1], h.store, cb);
      var (h', ok) := RedoAction(h, cb);
      if ok {
        MovedOnIsCoherent(base, h, h');
      } else {
        assert h' == h.(store := h'.store);
      }
    }
  }

  // ----- Runs -----

  ghost predicate LeakFree<V>(h: History<V>, cs: seq<Command<V>>)
    decreases cs
  {
    cs == [] || (
      && !Leaks(h, cs[0])
      && LeakFree(Step(h, cs[0]).0, cs[1..]))
  }

  ghost predicate CoherentThroughout<V>(base: Store<V>, h: History<V>, cs: seq<Command<V>>)
    decreases cs
  {
    && Coherent(base, h)
    && (cs == [] || CoherentThroughout(BaseAfter(base, h, cs[0]), Step(h, cs[0]).0, cs[1..]))
  }

  lemma StepIsCoherentIffNoLeak<V>(base: Store<V>, h: History<V>, c: Command<V>)
    requires Coherent(base, h)
    ensures Coherent(BaseAfter(base, h, c), Step(h, c).0) <==> !Leaks(h, c)
  {
    match c
    case Do(a, cb) => DoIsCoherent(base, h, a, cb);
    case Undo(cb) => UndoIsCoherent(base, h, cb);
    case Redo(cb) => RedoIsCoherent(base, h, cb);
    case Clear =>
  }

  /**
    The store equals the history replayed since the last clearing, throughout a
    run, exactly when no continent action leaks.
   */
  lemma {:induction false} RunIsCoherentIffLeakFree<V>(base: Store<V>, h: History<V>, cs: seq<Command<V>>)
    requires Coherent(base, h)
    ensures CoherentThroughout(base, h, cs) <==> LeakFree(h, cs)
    decreases cs
  {
    if cs != [] {
      StepIsCoherentIffNoLeak(base, h, cs[0]);
      if !Leaks(h, cs[0]) {
        RunIsCoherentIffLeakFree(BaseAfter(base, h, cs[0]), Step(h, cs[0]).0, cs[1..]);
      }
    }
  }

  function EmptyStore(): Store<int> {
    Store(map[], {})
  }

  /** Creating a continent and being refused at stage 1: no history, yet the continent stays. */
  lemma RefusedCreationLeaks(cb: Callback)
    requires cb(0) && !cb(1)
    ensures
      var base := EmptyStore();
      var (h, ok) := DoAction(History(base, [], []), CreateContinent("Europe"), cb);
      !ok && h.done == [] && h.store.continents == {"Europe"} && !Coherent(base, h)
  {
    var base := EmptyStore();
    var h := DoAction(History(base, [], []), CreateContinent("Europe"), cb).0;
    assert "Europe" in h.store.continents;
  }

  // ----- Travelling along the timeline -----

  datatype Move = Back | Forth

  ghost function Travel<V>(h: History<V>, moves: seq<Move>): History<V>
    decreases moves
  {
    if moves == [] then h
    else
      var h1 := if moves[0].Back? then UndoAction(h, _ => true).0 else RedoAction(h, _ => true).0;
      Travel(h1, moves[1..])
  }

  /** Where `moves` lead from position `p` on a timeline of length `n`, stopping at both ends. */
  ghost function Position(p: nat, n: nat, moves: seq<Move>): nat
    decreases moves
  {
    if moves == [] then p
    else
      var p1 := if moves[0].Back? then (if p == 0 then 0 else p - 1) else if p < n then p + 1 else p;
      Position(p1, n, moves[1..])
  }

  /** Accepted undos and redos only move the position; store and stacks follow from it and the timeline. */
  lemma {:induction false} TravelMovesPosition<V>(base: Store<V>, h: History<V>, moves: seq<Move>)
    requires Coherent(base, h)
    ensures
      var h' := Travel(h, moves);
      && Coherent(base, h')
      && Timeline(h') == Timeline(h)
      && |h'.done| == Position(|h.done|, |Timeline(h)|, moves)
    decreases moves
  {
    if moves != [] {
      UndoIsCoherent(base, h, _ => true);
      RedoIsCoherent(base, h, _ => true);
      var h1 := if moves[0].Back? then UndoAction(h, _ => true).0 else RedoAction(h, _ => true).0;
      TravelMovesPosition(base, h1, moves[1..]);
    }
  }

  /** Two coherent histories at the same place of the same timeline are the same. */
  lemma TimelineAndPositionDetermine<V>(base: Store<V>, h: History<V>, h': History<V>)
    requires Coherent(base, h) && Coherent(base, h')
    requires Timeline(h) == Timeline(h') && |h.done| == |h'.done|
    ensures h == h'
  {
    var n := |h.done|;
    assert h.done == Timeline(h)[..n] == h'.done;
    assert Reversed(h.undone) == Timeline(h)[n..] == Reversed(h'.undone);
    ReversedIsInjective(h.undone, h'.undone);
  }

  ghost function Times(n: nat, m: Move): seq<Move> {
    if n == 0 then [] else [m] + Times(n - 1, m)
  }

  lemma {:induction false} PositionAfterTimes(p: nat, n: nat, k: nat, m: Move, rest: seq<Move>)
    requires p <= n
    ensures Position(p, n, Times(k, m) + rest) ==
            Position(if m.Back? then (if p < k then 0 else p - k) else if p + k < n then p + k else n, n, rest)
    decreases k
  {
    if k == 0 {
      assert Times(0, m) + rest == rest;
    } else {
      assert (Times(k, m) + rest)[1..] == Times(k - 1, m) + rest;
      var p1 := if m.Back? then (if p == 0 then 0 else p - 1) else if p < n then p + 1 else p;
      PositionAfterTimes(p1, n, k - 1, m, rest);
    }
  }

  /** Undoing everything gives back the base; redoing everything then gives the end of the timeline. */
  lemma UndoAllThenRedoAll<V>(base: Store<V>, h: History<V>)
    requires Coherent(base, h)
    ensures
      var start := Travel(h, Times(|h.done|, Back));
      start.store == base && start.done == []
    ensures
      var end := Travel(h, Times(|h.done|, Back) + Times(|Timeline(h)|, Forth));
      Some(end.store) == Replay(base, Timeline(h)) && end.undone == []
  {
    var n, d := |Timeline(h)|, |h.done|;
    TravelMovesPosition(base, h, Times(d, Back));
    PositionAfterTimes(d, n, d, Back, []);
    assert Times(d, Back) + [] == Times(d, Back);
    TravelMovesPosition(base, h, Times(d, Back) + Times(n, Forth));
    PositionAfterTimes(d, n, d, Back, Times(n, Forth));
    PositionAfterTimes(0, n, n, Forth, []);
    assert Times(n, Forth) + [] == Times(n, Forth);
    var end := Travel(h, Times(d, Back) + Times(n, Forth));
    assert |end.undone| == |Reversed(end.undone)| == 0;
    assert Timeline(end) == end.done;
  }

  /** Undoing `k` actions and redoing them restores store and stacks. */
  lemma UndoThenRedoRestores<V>(base: Store<V>, h: History<V>, k: nat)
    requires Coherent(base, h) && k <= |h.done|
    ensures Travel(h, Times(k, Back) + Times(k, Forth)) == h
  {
    var moves := Times(k, Back) + Times(k, Forth);
    TravelMovesPosition(base, h, moves);
    PositionAfterTimes(|h.done|, |Timeline(h)|, k, Back, Times(k, Forth));
    PositionAfterTimes(|h.done| - k, |Timeline(h)|, k, Forth, []);
    assert Times(k, Forth) + [] == Times(k, Forth);
    TimelineAndPositionDetermine(base, h, Travel(h, moves));
  }

  /** Clearing keeps the store, whatever the history was, and nothing can be undone or redone past it. */
  lemma ClearMovesTheBase<V>(h: History<V>, moves: seq<Move>)
    ensures
      var h' := Step(h, Clear).0;
      && Coherent(h.store, h') && Timeline(h') == []
      && Travel(h', moves) == h'
  {
    var h' := Step(h, Clear).0;
    TravelMovesPosition(h.store, h', moves);
    TimelineAndPositionDetermine(h.store, h', Travel(h', moves));
  }

  /** Property actions never leak, whatever their callbacks answer. */
  ghost predicate OnlyProperties<V>(acts: seq<Action<V>>) {
    forall i :: 0 <= i < |acts| ==> acts[i].SetProperty? || acts[i].Transient?
  }

  lemma {:induction false} PropertyRunsAreLeakFree<V>(h: History<V>, cs: seq<Command<V>>)
    requires OnlyProperties(h.done) && OnlyProperties(h.undone)
    requires forall i :: 0 <= i < |cs| && cs[i].Do? ==> cs[i].a.SetProperty? || cs[i].a.Transient?
    ensures LeakFree(h, cs)
    decreases cs
  {
    if cs != [] {
      PropertyRunsAreLeakFree(Step(h, cs[0]).0, cs[1..]);
    }
  }
}
