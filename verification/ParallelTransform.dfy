/**
  `parallelTransform` as a machine in which the main thread and its workers
  take turns in any order, one element or one spawn at a time.
 */
module ParallelTransform {

  /** A worker owns the indices from `start` to `end` and has written those below `pos`. */
  datatype Worker = Worker(start: nat, pos: nat, end: nat)

  /** The main thread spawns workers, then transforms what is left, then waits. */
  datatype Phase = Spawning(count: nat) | Remainder(pos: nat) | Returned

  /** `first` is where the next worker would start. `writes` counts how often each index has been written. */
  datatype Machine<B> = Machine(phase: Phase, first: nat, workers: seq<Worker>, dst: seq<B>, writes: seq<nat>)

  datatype Job<!A, B> = Job(src: seq<A>, f: A -> B, hardwareThreads: nat) {
    /** At most one thread per element. */
    function Threads(): nat {
      if |src| < hardwareThreads then |src| else hardwareThreads
    }

    function Stride(): nat
      requires src != [] && hardwareThreads > 1
    {
      |src| / Threads()
    }
  }

  datatype Turn = Main | Work(k: nat)

  /** The call as it begins; the machine's invariant holds from here on. */
  ghost function Start<A, B>(job: Job<A, B>, dst: seq<B>): (st: Machine<B>)
    requires job.src != [] && |dst| == |job.src|
    ensures Inv(job, st)
  {
    if job.hardwareThreads <= 1 then Machine(Remainder(0), 0, [], dst, seq(|dst|, _ => 0))
    else
      StrideFits(|job.src|, job.Threads());
      Machine(Spawning(0), 0, [], dst, seq(|dst|, _ => 0))
  }

  ghost predicate Enabled<A, B>(job: Job<A, B>, st: Machine<B>, t: Turn) {
    match t
    case Work(k) => k < |st.workers| && st.workers[k].pos < st.workers[k].end
    case Main =>
      match st.phase
      case Spawning(_) => true
      case Remainder(pos) =>
        pos < |job.src| || forall k :: 0 <= k < |st.workers| ==> st.workers[k].pos == st.workers[k].end
      case Returned => false
  }

  ghost function Written<A, B>(job: Job<A, B>, st: Machine<B>, i: nat): Machine<B>
    requires i < |job.src| && i < |st.dst| && i < |st.writes|
  {
    st.(dst := st.dst[i := job.f(job.src[i])], writes := st.writes[i := st.writes[i] + 1])
  }

  ghost function Step<A, B>(job: Job<A, B>, st: Machine<B>, t: Turn): Machine<B>
    requires job.src != [] && Inv(job, st) && Enabled(job, st, t)
  {
    match t
    case Work(k) =>
      var w := st.workers[k];
      Written(job, st, w.pos).(workers := st.workers[k := w.(pos := w.pos + 1)])
    case Main =>
      match st.phase
      case Spawning(count) =>
        if count == job.Threads() then st.(phase := Remainder(st.first))
        else
          var end := st.first + job.Stride();
          st.(phase := Spawning(count + 1), first := end, workers := st.workers + [Worker(st.first, st.first, end)])
      case Remainder(pos) =>
        if pos < |job.src| then Written(job, st, pos).(phase := Remainder(pos + 1))
        else st.(phase := Returned)
  }

  // ----- The invariant -----

  ghost predicate Owned(workers: seq<Worker>, i: int) {
    exists k :: 0 <= k < |workers| && workers[k].start <= i < workers[k].end
  }

  ghost predicate Done(workers: seq<Worker>, i: int) {
    exists k :: 0 <= k < |workers| && workers[k].start <= i < workers[k].pos
  }

  /** Workers own disjoint ranges that together reach up to `first`. */
  ghost predicate RangesTile(workers: seq<Worker>, first: nat) {
    && (forall k :: 0 <= k < |workers| ==> workers[k].start <= workers[k].pos <= workers[k].end <= first)
    && (forall k, l :: 0 <= k < l < |workers| ==> workers[k].end <= workers[l].start)
    && forall i :: 0 <= i < first ==> Owned(workers, i)
  }

  /** The thread that owns index `i` has written it. */
  ghost predicate Covered<A, B>(job: Job<A, B>, st: Machine<B>, i: nat) {
    || Done(st.workers, i)
    || (st.phase.Remainder? && st.first <= i < st.phase.pos)
    || (st.phase.Returned? && st.first <= i < |job.src|)
  }

  ghost predicate OneWriteEach<A, B>(job: Job<A, B>, st: Machine<B>) {
    && |st.dst| == |st.writes| == |job.src|
    && forall i {:trigger Covered(job, st, i)} :: 0 <= i < |job.src| ==>
      st.writes[i] == (if Covered(job, st, i) then 1 else 0)
      && (Covered(job, st, i) ==> st.dst[i] == job.f(job.src[i]))
  }

  ghost predicate Inv<A, B>(job: Job<A, B>, st: Machine<B>) {
    && st.first <= |job.src|
    && RangesTile(st.workers, st.first)
    && OneWriteEach(job, st)
    && match st.phase
       case Spawning(count) =>
         && job.src != [] && job.hardwareThreads > 1 && count <= job.Threads()
         && st.first + (job.Threads() - count) * job.Stride() <= |job.src|
       case Remainder(pos) => st.first <= pos <= |job.src|
       case Returned => forall k :: 0 <= k < |st.workers| ==> st.workers[k].pos == st.workers[k].end
  }

  lemma StrideFits(n: nat, t: nat)
    requires t > 0
    ensures t * (n / t) <= n
  {
  }

  lemma AdvancedDone(workers: seq<Worker>, k: nat)
    requires k < |workers| && workers[k].start <= workers[k].pos
    ensures
      var workers' := workers[k := workers[k].(pos := workers[k].pos + 1)];
      forall i :: Done(workers', i) <==> Done(workers, i) || i == workers[k].pos
  {
    var workers' := workers[k := workers[k].(pos := workers[k].pos + 1)];
    forall i ensures Done(workers', i) <==> Done(workers, i) || i == workers[k].pos {
      if Done(workers, i) {
        var l :| 0 <= l < |workers| && workers[l].start <= i < workers[l].pos;
        assert workers'[l].start <= i < workers'[l].pos;
      }
      if i == workers[k].pos { assert workers'[k].start <= i < workers'[k].pos; }
    }
  }

  lemma AdvancedWorker(workers: seq<Worker>, first: nat, k: nat)
    requires RangesTile(workers, first) && k < |workers| && workers[k].pos < workers[k].end
    ensures
      var workers' := workers[k := workers[k].(pos := workers[k].pos + 1)];
      && RangesTile(workers', first)
      && !Done(workers, workers[k].pos)
      && forall i :: Done(workers', i) <==> Done(workers, i) || i == workers[k].pos
  {
    var workers' := workers[k := workers[k].(pos := workers[k].pos + 1)];
    AdvancedDone(workers, k);
    forall i | 0 <= i < first ensures Owned(workers', i) {
      assert Owned(workers, i);
      var l :| 0 <= l < |workers| && workers[l].start <= i < workers[l].end;
      assert workers'[l].start <= i < workers'[l].end;
    }
  }

  lemma AddedWorker(workers: seq<Worker>, first: nat, end: nat)
    requires RangesTile(workers, first) && first <= end
    ensures
      var workers' := workers + [Worker(first, first, end)];
      && RangesTile(workers', end)
      && forall i :: Done(workers', i) <==> Done(workers, i)
  {
    var workers' := workers + [Worker(first, first, end)];
    forall i ensures Done(workers', i) <==> Done(workers, i) {
      if Done(workers, i) {
        var l :| 0 <= l < |workers| && workers[l].start <= i < workers[l].pos;
        assert workers'[l] == workers[l];
      }
    }
    forall i | 0 <= i < end ensures Owned(workers', i) {
      if i < first {
        assert Owned(workers, i);
        var l :| 0 <= l < |workers| && workers[l].start <= i < workers[l].end;
        assert workers'[l] == workers[l];
      } else {
        assert workers'[|workers|].start <= i < workers'[|workers|].end;
      }
    }
  }

  lemma WorkerStepKeepsInv<A, B>(job: Job<A, B>, st: Machine<B>, k: nat)
    requires job.src != [] && Inv(job, st) && Enabled(job, st, Work(k))
    ensures Inv(job, Step(job, st, Work(k)))
  {
    AdvancedWorker(st.workers, st.first, k);
    var st', pos := Step(job, st, Work(k)), st.workers[k].pos;
    assert !Covered(job, st, pos);
    forall i | 0 <= i < |job.src| ensures Covered(job, st', i) <==> Covered(job, st, i) || i == pos {}
  }

  lemma OneStrideLess(left: nat, stride: nat)
    requires left > 0
    ensures left * stride == (left - 1) * stride + stride && (left - 1) * stride >= 0
  {
  }

  lemma SpawnKeepsInv<A, B>(job: Job<A, B>, st: Machine<B>)
    requires job.src != [] && Inv(job, st) && st.phase.Spawning? && st.phase.count < job.Threads()
    ensures Inv(job, Step(job, st, Main))
  {
    var st', stride := Step(job, st, Main), job.Stride();
    OneStrideLess(job.Threads() - st.phase.count, stride);
    AddedWorker(st.workers, st.first, st.first + stride);
    assert OneWriteEach(job, st') by { SameCoverage(job, st, st'); }
  }

  lemma SameCoverage<A, B>(job: Job<A, B>, st: Machine<B>, st': Machine<B>)
    requires OneWriteEach(job, st) && st'.dst == st.dst && st'.writes == st.writes
    requires st.phase.Spawning? && st'.phase.Spawning?
    requires forall i :: Done(st'.workers, i) <==> Done(st.workers, i)
    ensures OneWriteEach(job, st')
  {
    forall i | 0 <= i < |job.src| ensures Covered(job, st', i) <==> Covered(job, st, i) {}
  }

  lemma MainStepKeepsInv<A, B>(job: Job<A, B>, st: Machine<B>)
    requires job.src != [] && Inv(job, st) && Enabled(job, st, Main)
    ensures Inv(job, Step(job, st, Main))
  {
    var st' := Step(job, st, Main);
    if st.phase.Spawning? && st.phase.count < job.Threads() {
      SpawnKeepsInv(job, st);
    } else if st.phase.Remainder? && st.phase.pos < |job.src| {
      var pos := st.phase.pos;
      assert !Covered(job, st, pos);
      forall i | 0 <= i < |job.src| ensures Covered(job, st', i) <==> Covered(job, st, i) || i == pos {}
    } else {
      forall i | 0 <= i < |job.src| ensures Covered(job, st', i) <==> Covered(job, st, i) {}
    }
  }

  lemma StepKeepsInv<A, B>(job: Job<A, B>, st: Machine<B>, t: Turn)
    requires job.src != [] && Inv(job, st) && Enabled(job, st, t)
    ensures Inv(job, Step(job, st, t))
  {
    match t
    case Main => MainStepKeepsInv(job, st);
    case Work(k) => WorkerStepKeepsInv(job, st, k);
  }

  // ----- Runs -----

  ghost predicate Schedulable<A, B>(job: Job<A, B>, st: Machine<B>, turns: seq<Turn>)
    requires job.src != [] && Inv(job, st)
    decreases turns
  {
    turns == [] || (
      && Enabled(job, st, turns[0])
      && (StepKeepsInv(job, st, turns[0]); Schedulable(job, Step(job, st, turns[0]), turns[1..])))
  }

  ghost function Run<A, B>(job: Job<A, B>, st: Machine<B>, turns: seq<Turn>): (st': Machine<B>)
    requires job.src != [] && Inv(job, st) && Schedulable(job, st, turns)
    ensures Inv(job, st')
    decreases turns
  {
    if turns == [] then st
    else
      StepKeepsInv(job, st, turns[0]);
      Run(job, Step(job, st, turns[0]), turns[1..])
  }

  /**
    Whatever the interleaving: once the call has returned, every destination
    element has been written exactly once, and the destination is the
    sequential transform of the source.
   */
  lemma EveryScheduleIsSequential<A, B>(job: Job<A, B>, dst: seq<B>, turns: seq<Turn>)
    requires job.src != [] && |dst| == |job.src|
    requires Schedulable(job, Start(job, dst), turns)
    requires Run(job, Start(job, dst), turns).phase.Returned?
    ensures Run(job, Start(job, dst), turns).dst == seq(|job.src|, i requires 0 <= i < |job.src| => job.f(job.src[i]))
    ensures Run(job, Start(job, dst), turns).writes == seq(|job.src|, _ => 1)
  {
    var end := Run(job, Start(job, dst), turns);
    forall i | 0 <= i < |job.src| ensures end.dst[i] == job.f(job.src[i]) && end.writes[i] == 1 {
      if i < end.first {
        assert Owned(end.workers, i);
        var k :| 0 <= k < |end.workers| && end.workers[k].start <= i < end.workers[k].end;
        assert end.workers[k].start <= i < end.workers[k].pos;
      }
      assert Covered(job, end, i);
    }
  }

  // ----- Every schedule ends -----

  ghost function Unwritten(workers: seq<Worker>): nat {
    if workers == [] then 0
    else
      var w := workers[|workers| - 1];
      (if w.pos < w.end then w.end - w.pos else 0) + Unwritten(workers[..|workers| - 1])
  }

  /** An upper bound on the turns that are left. */
  ghost function Budget<A, B>(job: Job<A, B>, st: Machine<B>): nat
    requires job.src != [] && Inv(job, st)
  {
    Unwritten(st.workers) +
    match st.phase
    case Spawning(count) => 2 + 2 * (|job.src| - st.first) + (job.Threads() - count)
    case Remainder(pos) => 1 + (|job.src| - pos)
    case Returned => 0
  }

  lemma {:induction false} UnwrittenAfterAdvance(workers: seq<Worker>, k: nat)
    requires k < |workers| && workers[k].pos < workers[k].end
    ensures Unwritten(workers[k := workers[k].(pos := workers[k].pos + 1)]) == Unwritten(workers) - 1
    decreases |workers|
  {
    var n := |workers| - 1;
    var workers' := workers[k := workers[k].(pos := workers[k].pos + 1)];
    if k == n {
      assert workers'[..n] == workers[..n];
    } else {
      UnwrittenAfterAdvance(workers[..n], k);
      assert workers'[..n] == workers[..n][k := workers[k].(pos := workers[k].pos + 1)];
    }
  }

  lemma TurnSpendsBudget<A, B>(job: Job<A, B>, st: Machine<B>, t: Turn)
    requires job.src != [] && Inv(job, st) && Enabled(job, st, t)
    ensures Inv(job, Step(job, st, t)) && Budget(job, Step(job, st, t)) < Budget(job, st)
  {
    StepKeepsInv(job, st, t);
    match t
    case Work(k) => UnwrittenAfterAdvance(st.workers, k);
    case Main =>
      if st.phase.Spawning? && st.phase.count < job.Threads() {
        var end := st.first + job.Stride();
        assert (st.workers + [Worker(st.first, st.first, end)])[..|st.workers|] == st.workers;
      }
  }

  /** Until the call has returned, some thread can take a turn. */
  lemma NoDeadlock<A, B>(job: Job<A, B>, st: Machine<B>)
    requires job.src != [] && Inv(job, st) && !st.phase.Returned?
    ensures exists t :: Enabled(job, st, t)
  {
    if Enabled(job, st, Main) {
    } else {
      var k :| 0 <= k < |st.workers| && st.workers[k].pos != st.workers[k].end;
      assert Enabled(job, st, Work(k));
    }
  }

  /** No schedule is longer than the budget of the start, so every schedule can be continued to a return. */
  lemma {:induction false} SchedulesAreBounded<A, B>(job: Job<A, B>, st: Machine<B>, turns: seq<Turn>)
    requires job.src != [] && Inv(job, st) && Schedulable(job, st, turns)
    ensures |turns| + Budget(job, Run(job, st, turns)) <= Budget(job, st)
    decreases turns
  {
    if turns != [] {
      TurnSpendsBudget(job, st, turns[0]);
      SchedulesAreBounded(job, Step(job, st, turns[0]), turns[1..]);
    }
  }

  // ----- Who does what -----

  /** Worker `k` owns the `k`-th stride. With one hardware thread there are no workers. */
  ghost predicate Shared<A, B>(job: Job<A, B>, st: Machine<B>)
    requires job.src != []
  {
    if job.hardwareThreads <= 1 then st.workers == [] && st.first == 0 && !st.phase.Spawning?
    else
      var stride := job.Stride();
      && st.first == |st.workers| * stride
      && (forall k :: 0 <= k < |st.workers| ==> IsShare(st.workers[k], k, stride))
      && if st.phase.Spawning? then st.phase.count == |st.workers| else |st.workers| == job.Threads()
  }

  ghost predicate IsShare(w: Worker, k: nat, stride: nat) {
    w.start == k * stride && w.end == w.start + stride
  }

  lemma StepKeepsShared<A, B>(job: Job<A, B>, st: Machine<B>, t: Turn)
    requires job.src != [] && Inv(job, st) && Enabled(job, st, t) && Shared(job, st)
    ensures Shared(job, Step(job, st, t))
  {
    var st' := Step(job, st, t);
    if job.hardwareThreads > 1 {
      var stride := job.Stride();
      forall k | 0 <= k < |st'.workers| ensures IsShare(st'.workers[k], k, stride) {
        if k < |st.workers| { assert IsShare(st.workers[k], k, stride); }
      }
      if |st'.workers| > |st.workers| { assert (|st.workers| + 1) * stride == |st.workers| * stride + stride; }
    }
  }

  lemma {:induction false} RunKeepsShared<A, B>(job: Job<A, B>, st: Machine<B>, turns: seq<Turn>)
    requires job.src != [] && Inv(job, st) && Schedulable(job, st, turns) && Shared(job, st)
    ensures Shared(job, Run(job, st, turns))
    decreases turns
  {
    if turns != [] {
      StepKeepsInv(job, st, turns[0]);
      StepKeepsShared(job, st, turns[0]);
      RunKeepsShared(job, Step(job, st, turns[0]), turns[1..]);
    }
  }

  /**
    Under every schedule, a call that has returned has used as many workers as there
    are hardware threads, but no more than elements; each had an equal range, in
    order, and the main thread did the rest. With one hardware thread it did all.
   */
  lemma WorkIsShared<A, B>(job: Job<A, B>, dst: seq<B>, turns: seq<Turn>)
    requires job.src != [] && |dst| == |job.src| && Schedulable(job, Start(job, dst), turns)
    requires Run(job, Start(job, dst), turns).phase.Returned?
    ensures
      var end, n, h := Run(job, Start(job, dst), turns), |job.src|, job.hardwareThreads;
      var threads := if h <= 1 then 0 else if n < h then n else h;
      && |end.workers| == threads
      && forall k :: 0 <= k < threads ==> IsShare(end.workers[k], k, n / threads)
  {
    RunKeepsShared(job, Start(job, dst), turns);
  }
}
