/**
  The logger as a machine: threads that log, the worker that hands batches to
  the output functions in parallel, and the shutdown. Every step is one access
  to the shared state; the steps may come in any order.
 */
module Logger {
  import opened Collections

  /** Where the worker is in its update loop. `pending` holds the output functions still running on message `i`. */
  datatype Worker<M> =
    | AtLoop
    | Awake
    | Delivering(batch: seq<M>, i: nat, pending: set<nat>)
    | Draining(i: nat, f: nat)
    | Stopped

  /** `logged` and `received` record what has been logged and what each output function has been given. */
  datatype Machine<M> = Machine(
    queue: seq<M>, quit: bool, worker: Worker<M>, logged: seq<M>, received: seq<seq<M>>)

  /** The number of registered output functions, and the message that the worker appends when it leaves its loop. */
  datatype Setup<M> = Setup(outputs: nat, notice: M) {
    ghost function All(): set<nat> {
      Below(outputs)
    }
  }

  datatype Turn<M> =
    | Log(m: M)
    | RequestQuit
    | Check
    | Grab
    | Finish(f: nat)
    | NextMessage
    | Drain

  ghost predicate InLoop<M>(st: Machine<M>) {
    !st.worker.Draining? && !st.worker.Stopped?
  }

  /** Nothing is logged once the worker has left its loop. */
  ghost predicate Enabled<M>(s: Setup<M>, st: Machine<M>, t: Turn<M>) {
    match t
    case Log(_) => InLoop(st)
    case RequestQuit => !st.quit
    case Check => st.worker.AtLoop?
    case Grab => st.worker.Awake?
    case Finish(f) => st.worker.Delivering? && st.worker.i < |st.worker.batch| && f in st.worker.pending
    case NextMessage => st.worker.Delivering? && (st.worker.i < |st.worker.batch| ==> st.worker.pending == {})
    case Drain => st.worker.Draining?
  }

  ghost function Receive<M>(st: Machine<M>, f: nat, m: M): Machine<M>
    requires f < |st.received|
  {
    st.(received := st.received[f := st.received[f] + [m]])
  }

  ghost function Start<M>(s: Setup<M>): (st: Machine<M>)
    ensures Inv(s, st)
  {
    Machine([], false, AtLoop, [], seq(s.outputs, _ => []))
  }

  ghost function Step<M>(s: Setup<M>, st: Machine<M>, t: Turn<M>): Machine<M>
    requires Inv(s, st) && Enabled(s, st, t)
  {
    match t
    case Log(m) => st.(queue := st.queue + [m], logged := st.logged + [m])
    case RequestQuit => st.(quit := true)
    case Check =>
      if st.quit then st.(queue := st.queue + [s.notice], worker := Draining(0, 0)) else st.(worker := Awake)
    case Grab => st.(queue := [], worker := Delivering(st.queue, 0, s.All()))
    case Finish(f) =>
      Receive(st, f, st.worker.batch[st.worker.i]).(worker := st.worker.(pending := st.worker.pending - {f}))
    case NextMessage =>
      if st.worker.i < |st.worker.batch| then st.(worker := Delivering(st.worker.batch, st.worker.i + 1, s.All()))
      else st.(worker := AtLoop)
    case Drain =>
      var Draining(i, f) := st.worker;
      if i == |st.queue| then st.(worker := Stopped)
      else if f == s.outputs then st.(worker := Draining(i + 1, 0))
      else Receive(st, f, st.queue[i]).(worker := Draining(i, f + 1))
  }

  // ----- The invariant -----

  /** What output function `f` has still to receive, if nothing more is logged. */
  ghost function Due<M>(st: Machine<M>, f: nat): seq<M> {
    match st.worker
    case AtLoop => st.queue
    case Awake => st.queue
    case Delivering(batch, i, pending) =>
      (if i >= |batch| then [] else if f in pending then batch[i..] else batch[i + 1..]) + st.queue
    case Draining(i, next) =>
      if i >= |st.queue| then [] else if f < next then st.queue[i + 1..] else st.queue[i..]
    case Stopped => []
  }

  /** Everything that will have been handed out: what was logged and, past the loop, the final notice. */
  ghost function Announced<M>(s: Setup<M>, st: Machine<M>): seq<M> {
    if InLoop(st) then st.logged else st.logged + [s.notice]
  }

  ghost predicate OnTrack<M>(s: Setup<M>, st: Machine<M>, f: nat)
    requires f < |st.received|
  {
    st.received[f] + Due(st, f) == Announced(s, st)
  }

  ghost predicate Inv<M>(s: Setup<M>, st: Machine<M>) {
    && |st.received| == s.outputs
    && (st.worker.Delivering? ==> st.worker.i <= |st.worker.batch| && st.worker.pending <= s.All())
    && (st.worker.Draining? ==> st.worker.i <= |st.queue| && st.worker.f <= s.outputs)
    && (st.worker.Draining? && st.worker.i == |st.queue| ==> st.worker.f == 0)
    && (!InLoop(st) ==> st.quit)
    && forall f :: 0 <= f < s.outputs ==> OnTrack(s, st, f)
  }

  /** Moving the first due message to what has been received. */
  lemma Handover<M>(received: seq<M>, m: M, due: seq<M>)
    ensures received + ([m] + due) == (received + [m]) + due
  {
  }

  lemma FinishKeepsTrack<M>(s: Setup<M>, st: Machine<M>, g: nat, f: nat)
    requires Inv(s, st) && Enabled(s, st, Finish(g)) && f < s.outputs
    ensures OnTrack(s, Step(s, st, Finish(g)), f)
  {
    var st' := Step(s, st, Finish(g));
    assert OnTrack(s, st, f);
    if g == f {
      var m := st.worker.batch[st.worker.i];
      assert Due(st, f) == [m] + Due(st', f);
      Handover(st.received[f], m, Due(st', f));
    }
  }

  lemma DrainKeepsTrack<M>(s: Setup<M>, st: Machine<M>, f: nat)
    requires Inv(s, st) && st.worker.Draining? && f < s.outputs
    ensures OnTrack(s, Step(s, st, Drain), f)
  {
    var st' := Step(s, st, Drain);
    assert OnTrack(s, st, f);
    if st.worker.i < |st.queue| && st.worker.f == f {
      var m := st.queue[st.worker.i];
      assert Due(st, f) == [m] + Due(st', f);
      Handover(st.received[f], m, Due(st', f));
    }
  }

  /** A message that joins the queue, or the final notice, is due to everyone. */
  lemma QueueingKeepsTrack<M>(s: Setup<M>, st: Machine<M>, t: Turn<M>, f: nat)
    requires Inv(s, st) && Enabled(s, st, t) && f < s.outputs && (t.Log? || (t.Check? && st.quit))
    ensures OnTrack(s, Step(s, st, t), f)
  {
    var st', m := Step(s, st, t), if t.Log? then t.m else s.notice;
    assert OnTrack(s, st, f);
    assert Due(st', f) == Due(st, f) + [m];
    assert st.received[f] + (Due(st, f) + [m]) == (st.received[f] + Due(st, f)) + [m];
  }

  /** Moving on, to a batch or within one, leaves everyone's dues as they are. */
  lemma MovingOnKeepsTrack<M>(s: Setup<M>, st: Machine<M>, t: Turn<M>, f: nat)
    requires Inv(s, st) && Enabled(s, st, t) && f < s.outputs
    requires t.RequestQuit? || t.Grab? || t.NextMessage? || (t.Check? && !st.quit)
    ensures OnTrack(s, Step(s, st, t), f)
  {
    var st' := Step(s, st, t);
    assert OnTrack(s, st, f);
    if t.Grab? || t.NextMessage? {
      assert f in s.All();
      assert Due(st', f) == Due(st, f);
    }
  }

  lemma StepKeepsTrack<M>(s: Setup<M>, st: Machine<M>, t: Turn<M>, f: nat)
    requires Inv(s, st) && Enabled(s, st, t) && f < s.outputs
    ensures OnTrack(s, Step(s, st, t), f)
  {
    match t
    case Log(_) => QueueingKeepsTrack(s, st, t, f);
    case Finish(g) => FinishKeepsTrack(s, st, g, f);
    case Drain => DrainKeepsTrack(s, st, f);
    case _ => if t.Check? && st.quit { QueueingKeepsTrack(s, st, t, f); } else { MovingOnKeepsTrack(s, st, t, f); }
  }

  lemma StepKeepsInv<M>(s: Setup<M>, st: Machine<M>, t: Turn<M>)
    requires Inv(s, st) && Enabled(s, st, t)
    ensures Inv(s, Step(s, st, t))
  {
    forall f | 0 <= f < s.outputs ensures OnTrack(s, Step(s, st, t), f) {
      StepKeepsTrack(s, st, t, f);
    }
  }

  // ----- Runs -----

  ghost predicate Schedulable<M>(s: Setup<M>, st: Machine<M>, turns: seq<Turn<M>>)
    requires Inv(s, st)
    decreases turns
  {
    turns == [] || (
      && Enabled(s, st, turns[0])
      && (StepKeepsInv(s, st, turns[0]); Schedulable(s, Step(s, st, turns[0]), turns[1..])))
  }

  ghost function Run<M>(s: Setup<M>, st: Machine<M>, turns: seq<Turn<M>>): (st': Machine<M>)
    requires Inv(s, st) && Schedulable(s, st, turns)
    ensures Inv(s, st')
    decreases turns
  {
    if turns == [] then st
    else
      StepKeepsInv(s, st, turns[0]);
      Run(s, Step(s, st, turns[0]), turns[1..])
  }

  /** The messages that the turns log, in order. */
  ghost function MessagesOf<M>(turns: seq<Turn<M>>): seq<M>
    decreases turns
  {
    if turns == [] then [] else (if turns[0].Log? then [turns[0].m] else []) + MessagesOf(turns[1..])
  }

  lemma StepLogsMessage<M>(s: Setup<M>, st: Machine<M>, t: Turn<M>)
    requires Inv(s, st) && Enabled(s, st, t)
    ensures Step(s, st, t).logged == st.logged + if t.Log? then [t.m] else []
  {
  }

  lemma {:induction false} RunLogsMessages<M>(s: Setup<M>, st: Machine<M>, turns: seq<Turn<M>>)
    requires Inv(s, st) && Schedulable(s, st, turns)
    ensures Run(s, st, turns).logged == st.logged + MessagesOf(turns)
    decreases turns
  {
    if turns == [] {
      assert st.logged + [] == st.logged;
    } else {
      StepKeepsInv(s, st, turns[0]);
      StepLogsMessage(s, st, turns[0]);
      RunLogsMessages(s, Step(s, st, turns[0]), turns[1..]);
      Associative(st.logged, if turns[0].Log? then [turns[0].m] else [], MessagesOf(turns[1..]));
    }
  }

  lemma Associative<M>(a: seq<M>, b: seq<M>, c: seq<M>)
    ensures (a + b) + c == a + (b + c)
  {
  }

  /**
    Under every interleaving, each output function has received a prefix of
    what was logged: in order, each message once. When the worker has stopped,
    it has received all of it and then the final notice.
   */
  lemma OutputsReceiveTheLog<M>(s: Setup<M>, turns: seq<Turn<M>>, f: nat)
    requires Schedulable(s, Start(s), turns) && f < s.outputs
    ensures
      var st := Run(s, Start(s), turns);
      && f < |st.received|
      && (InLoop(st) ==> st.received[f] <= MessagesOf(turns))
      && st.received[f] <= MessagesOf(turns) + [s.notice]
      && (st.worker.Stopped? ==> st.received[f] == MessagesOf(turns) + [s.notice])
  {
    RunLogsMessages(s, Start(s), turns);
    var st := Run(s, Start(s), turns);
    assert st.logged == MessagesOf(turns);
    assert OnTrack(s, st, f);
  }

  /**
    Threads may log and ask to quit whenever they like, as long as the worker is in
    its loop or nobody has asked; and the output functions that work on a message
    may finish it in any order.
   */
  lemma WhatMayHappen<M>(s: Setup<M>, st: Machine<M>, m: M, f: nat)
    ensures !st.worker.Draining? && !st.worker.Stopped? ==> Enabled(s, st, Log(m))
    ensures !st.quit ==> Enabled(s, st, RequestQuit)
    ensures st.worker.Delivering? && st.worker.i < |st.worker.batch| && f in st.worker.pending ==>
      Enabled(s, st, Finish(f))
  {
  }

  /** The worker takes all that is queued as one batch, to be given to every output function. */
  lemma BatchIsWholeQueue<M>(s: Setup<M>, st: Machine<M>)
    requires Inv(s, st) && st.worker == Awake
    ensures
      var st' := Step(s, st, Grab);
      && st'.queue == [] && st'.worker.Delivering? && st'.worker.batch == st.queue && st'.worker.i == 0
      && forall f: nat :: f in st'.worker.pending <==> f < s.outputs
  {
  }

  // ----- Shutdown ends -----

  /** The turns that handing out `k` messages takes: one per output function, and one to go on to the next. */
  ghost function Rounds<M>(s: Setup<M>, k: nat): nat {
    if k == 0 then 0 else s.outputs + 1 + Rounds(s, k - 1)
  }

  /** A bound on the worker's turns once the quit flag is set and nobody logs. */
  ghost function Budget<M>(s: Setup<M>, st: Machine<M>): int
    requires Inv(s, st)
  {
    match st.worker
    case Stopped => 0
    case Draining(i, f) => 1 + Rounds(s, |st.queue| - i) - f
    case AtLoop => 2 + Rounds(s, |st.queue| + 1)
    case Delivering(batch, i, pending) =>
      3 + Rounds(s, |batch| - i) + Rounds(s, |st.queue| + 1) - (if i < |batch| then s.outputs - |pending| else 0)
    case Awake => 4 + Rounds(s, |st.queue|) + Rounds(s, 1)
  }

  lemma SubsetSize(a: set<nat>, n: nat)
    requires a <= Below(n)
    ensures |a| <= n
  {
    var rest := Below(n) - a;
    assert Below(n) == a + rest;
  }

  lemma DeliverySpendsBudget<M>(s: Setup<M>, st: Machine<M>, t: Turn<M>)
    requires Inv(s, st) && Enabled(s, st, t) && st.worker.Delivering? && (t.Finish? || t.NextMessage?)
    requires Inv(s, Step(s, st, t))
    ensures 0 <= Budget(s, Step(s, st, t)) < Budget(s, st)
  {
    SubsetSize(st.worker.pending, s.outputs);
    var st' := Step(s, st, t);
    if t.Finish? {
      assert |st'.worker.pending| == |st.worker.pending| - 1;
    }
  }

  lemma DrainSpendsBudget<M>(s: Setup<M>, st: Machine<M>)
    requires Inv(s, st) && Enabled(s, st, Drain) && Inv(s, Step(s, st, Drain))
    ensures 0 <= Budget(s, Step(s, st, Drain)) < Budget(s, st)
  {
  }

  lemma ShutdownSpendsBudget<M>(s: Setup<M>, st: Machine<M>, t: Turn<M>)
    requires Inv(s, st) && Enabled(s, st, t) && st.quit && !t.Log?
    ensures Inv(s, Step(s, st, t)) && Step(s, st, t).quit
    ensures 0 <= Budget(s, Step(s, st, t)) < Budget(s, st)
  {
    StepKeepsInv(s, st, t);
    match t
    case Check =>
    case Grab =>
    case Drain => DrainSpendsBudget(s, st);
    case Finish(_) => DeliverySpendsBudget(s, st, t);
    case NextMessage => DeliverySpendsBudget(s, st, t);
  }

  /** Until it has stopped, the worker or one of its output functions can take a turn. */
  lemma WorkerIsNeverStuck<M>(s: Setup<M>, st: Machine<M>)
    requires Inv(s, st) && !st.worker.Stopped?
    ensures exists t: Turn<M> :: Enabled(s, st, t) && !t.Log? && !t.RequestQuit?
  {
    match st.worker
    case AtLoop => assert Enabled(s, st, Check);
    case Awake => assert Enabled(s, st, Grab);
    case Draining(_, _) => assert Enabled(s, st, Drain);
    case Delivering(batch, i, pending) =>
      if i < |batch| && pending != {} {
        var f :| f in pending;
        assert Enabled(s, st, Finish(f));
      } else {
        assert Enabled(s, st, NextMessage);
      }
  }

  /** After a quit request that nobody logs past, the worker stops within its budget, however it is scheduled. */
  lemma {:induction false} ShutdownIsBounded<M>(s: Setup<M>, st: Machine<M>, turns: seq<Turn<M>>)
    requires Inv(s, st) && Schedulable(s, st, turns) && st.quit && MessagesOf(turns) == []
    ensures |turns| + Budget(s, Run(s, st, turns)) <= Budget(s, st)
    decreases turns
  {
    if turns != [] {
      ShutdownSpendsBudget(s, st, turns[0]);
      ShutdownIsBounded(s, Step(s, st, turns[0]), turns[1..]);
    }
  }
}
