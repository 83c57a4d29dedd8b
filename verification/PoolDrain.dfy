// What becomes of the tasks of a thread pool: the accounts of a run, and draining after stop.

module PoolDrain {
  import opened Wrappers
  import opened TaskPool
  import opened ThreadPool

  // ---- What the calls of a run hand in ----

  /** The immediate tasks, the timers and the cancellations of a step. */
  function PushOf(step: Step): multiset<TaskId> {
    if step.PushTask? then multiset{step.task} else multiset{}
  }

  function TimerOf(step: Step): multiset<TaskId> {
    if step.PushTimer? then multiset{step.t.task} else multiset{}
  }

  function CancelOf(step: Step): multiset<TaskId> {
    if step.CancelTimer? then multiset{step.task} else multiset{}
  }

  function PushesOf(steps: seq<Step>): multiset<TaskId> {
    if |steps| == 0 then multiset{} else PushesOf(steps[..|steps| - 1]) + PushOf(steps[|steps| - 1])
  }

  function TimersOf(steps: seq<Step>): multiset<TaskId> {
    if |steps| == 0 then multiset{} else TimersOf(steps[..|steps| - 1]) + TimerOf(steps[|steps| - 1])
  }

  function CancelsOf(steps: seq<Step>): multiset<TaskId> {
    if |steps| == 0 then multiset{} else CancelsOf(steps[..|steps| - 1]) + CancelOf(steps[|steps| - 1])
  }

  lemma {:induction false} StepTakesIn(s: State, step: Step, s': State)
    requires Apply(s, step) == Some(s')
    ensures s'.intake.pushed == s.intake.pushed + PushOf(step)
    ensures s'.intake.scheduled == s.intake.scheduled + TimerOf(step)
    ensures s'.intake.cancelled <= s.intake.cancelled + CancelOf(step)
    ensures multiset(s'.intake.late) <= multiset(s.intake.late) + PushOf(step)
  {
    hide Apply, PushOf, TimerOf, CancelOf;
    NothingOf(step, s.intake);
    if step.PushTask? {
      PushTakesIn(s, step.task, s');
    } else if step.PushTimer? {
      TimerTakesIn(s, step.t, s');
    } else if step.CancelTimer? {
      CancelTakesIn(s, step.task, s');
    } else {
      OthersTakeNothing(s, step, s');
    }
  }

  lemma {:induction false} NothingOf(step: Step, intake: Intake)
    ensures !step.PushTask? ==> intake.pushed + PushOf(step) == intake.pushed
    ensures !step.PushTask? ==> multiset(intake.late) + PushOf(step) == multiset(intake.late)
    ensures !step.PushTimer? ==> intake.scheduled + TimerOf(step) == intake.scheduled
    ensures !step.CancelTimer? ==> intake.cancelled + CancelOf(step) == intake.cancelled
  {
  }

  lemma {:induction false} PushTakesIn(s: State, task: TaskId, s': State)
    requires Apply(s, PushTask(task)) == Some(s')
    ensures s'.intake.scheduled == s.intake.scheduled && s'.intake.cancelled == s.intake.cancelled
    ensures s'.intake.pushed == s.intake.pushed + PushOf(PushTask(task))
    ensures multiset(s'.intake.late) <= multiset(s.intake.late) + PushOf(PushTask(task))
  {
    hide AllExited;
  }

  lemma {:induction false} TimerTakesIn(s: State, t: Timer, s': State)
    requires Apply(s, PushTimer(t)) == Some(s')
    ensures s'.intake == s.intake.(scheduled := s.intake.scheduled + TimerOf(PushTimer(t)))
  {
    hide Inserted;
  }

  lemma {:induction false} CancelTakesIn(s: State, task: TaskId, s': State)
    requires Apply(s, CancelTimer(task)) == Some(s')
    ensures s'.intake == s.intake.(cancelled := s'.intake.cancelled)
    ensures s'.intake.cancelled <= s.intake.cancelled + CancelOf(CancelTimer(task))
  {
    hide Removed, IndexOf;
  }

  lemma {:induction false} OthersTakeNothing(s: State, step: Step, s': State)
    requires Apply(s, step) == Some(s') && !step.PushTask? && !step.PushTimer? && !step.CancelTimer?
    ensures s'.intake == s.intake
  {
    hide NextPc, NextPool, RunBy, Delayed, WakeAll;
  }

  lemma {:induction false} RunTakesIn(s: State, steps: seq<Step>, s': State)
    requires Exec(s, steps) == Some(s')
    ensures s'.intake.pushed == s.intake.pushed + PushesOf(steps)
    ensures s'.intake.scheduled == s.intake.scheduled + TimersOf(steps)
    ensures s'.intake.cancelled <= s.intake.cancelled + CancelsOf(steps)
    ensures multiset(s'.intake.late) <= multiset(s.intake.late) + PushesOf(steps)
    decreases |steps|
  {
    hide Apply, PushOf, TimerOf, CancelOf;
    if |steps| > 0 {
      var front, last := steps[..|steps| - 1], steps[|steps| - 1];
      var before := Exec(s, front).value;
      RunTakesIn(s, front, before);
      StepTakesIn(before, last, s');
    }
  }

  lemma {:induction false} ExitedAccounts(threads: nat, now: int, steps: seq<Step>, s: State)
    requires Exec(Init(threads, now), steps) == Some(s) && AllExited(s.workers)
    ensures s.pool.tasks == s.intake.late
    ensures s.intake.pushed == multiset(s.intake.late) + s.done
    ensures s.intake.scheduled == TasksOf(s.pool.timers) + s.ran + s.intake.cancelled
  {
    hide Exec, InFlight, TasksOf, LockInv, WakeInv, StopInv;
    RunInv(threads, now, steps, s);
    InFlightNone(s.workers, false);
    InFlightNone(s.workers, true);
  }

  /** Drain on stop: once every worker has exited, every immediate task pushed while some
      worker was left has run, as often as it was pushed; what has not run was pushed
      later and is still queued. Every timer has run, is pending, or was cancelled. */
  lemma {:induction false} DrainedOnExit(threads: nat, now: int, steps: seq<Step>, s: State, later: seq<Step>,
                                         s': State)
    requires Exec(Init(threads, now), steps) == Some(s) && Exec(s, later) == Some(s')
    requires AllExited(s'.workers) && !AllExited(s.workers)
    ensures PushesOf(steps) <= s'.done
    ensures PushesOf(steps) + PushesOf(later) == s'.done + multiset(s'.pool.tasks)
    ensures multiset(s'.pool.tasks) <= PushesOf(later)
    ensures TimersOf(steps) + TimersOf(later) == TasksOf(s'.pool.timers) + s'.ran + s'.intake.cancelled
    ensures s'.intake.cancelled <= CancelsOf(steps + later)
  {
    hide Exec, InFlight, TasksOf, Inv, PushesOf, TimersOf, CancelsOf, AllExited;
    var s0 := Init(threads, now);
    ExecConcat(s0, steps, s, later);
    RunTakesIn(s0, steps, s);
    RunTakesIn(s, later, s');
    RunTakesIn(s0, steps + later, s');
    ExitedAccounts(threads, now, steps + later, s');
    NotLateYet(threads, now, steps, s);
    Remainder(PushesOf(steps), PushesOf(later), s'.done, multiset(s'.pool.tasks));
  }

  lemma {:induction false} Remainder<T>(a: multiset<T>, b: multiset<T>, done: multiset<T>, left: multiset<T>)
    requires a + b == left + done && left <= b
    ensures a <= done && a + b == done + left
    ensures b == multiset{} ==> a == done && left == multiset{}
  {
    forall x: T ensures a[x] <= done[x] {
      assert (a + b)[x] == (left + done)[x];
    }
    if b == multiset{} {
      assert a + b == a && left + done == done;
    }
  }

  lemma {:induction false} NotLateYet(threads: nat, now: int, steps: seq<Step>, s: State)
    requires Exec(Init(threads, now), steps) == Some(s) && !AllExited(s.workers)
    ensures s.intake.late == []
  {
    hide Exec;
    RunInv(threads, now, steps, s);
  }

  /** At any moment what the calls have handed in is queued, in a worker's hands or has
      run, each as often as it was handed in; a timer may also have been cancelled. */
  lemma {:induction false} Conserved(threads: nat, now: int, steps: seq<Step>, s: State)
    requires Exec(Init(threads, now), steps) == Some(s)
    ensures PushesOf(steps) == multiset(s.pool.tasks) + InFlight(s.workers, false) + s.done
    ensures TimersOf(steps) == TasksOf(s.pool.timers) + InFlight(s.workers, true) + s.ran + s.intake.cancelled
    ensures s.intake.cancelled <= CancelsOf(steps)
  {
    hide Exec, LockInv, WakeInv, StopInv, LateInv, InFlight, TasksOf, PushesOf, TimersOf, CancelsOf;
    RunInv(threads, now, steps, s);
    RunTakesIn(Init(threads, now), steps, s);
  }

  // ---- Leaving after stop ----

  /** How far a worker is from its exit once the pool has stopped. */
  function Rank(pc: Pc): nat {
    match pc
    case Exited => 0
    case Draining => 1
    case Finishing(_, _) => 2
    case Top => 2
    case HoldContinue => 2
    case Running(_, _) => 3
    case HoldReady => 3
    case Woken => 3
    case Locking => 4
    case Parked(_) => 4
    case Popping => 5
    case HoldNext => 5
  }

  function RankSum(workers: seq<Pc>): nat {
    if |workers| == 0 then 0 else RankSum(workers[..|workers| - 1]) + Rank(workers[|workers| - 1])
  }

  /** A bound on the steps that a stopped pool still takes of its own accord. */
  function StepsLeft(s: State): nat {
    RankSum(s.workers) + 2 * |s.pool.tasks| + 2 * |s.pool.timers|
      + if s.lock.NotifyingOne? || s.lock.NotifyingAll? then 1 else 0
  }

  /** What a call of a client may add to it. */
  function Charge(step: Step): nat {
    if Pushes(step) then 3 else if step.Stop? then 1 else 0
  }

  predicate Pushes(step: Step) {
    step.PushTask? || step.PushTimer?
  }

  predicate Stops(step: Step) {
    step.Stop?
  }

  /** The steps of the pool itself: its workers, their waits, and the notifications. */
  predicate Internal(step: Step) {
    step.Work? || step.TimeOut? || step.NotifyOne? || step.NotifyAll?
  }

  lemma {:induction false} RankUpdate(workers: seq<Pc>, i: nat, pc: Pc)
    requires i < |workers|
    ensures RankSum(workers[i := pc]) + Rank(workers[i]) == RankSum(workers) + Rank(pc)
  {
    hide Rank;
    var n := |workers| - 1;
    if i < n {
      RankUpdate(workers[..n], i, pc);
      assert workers[i := pc][..n] == workers[..n][i := pc];
    } else {
      assert workers[i := pc][..n] == workers[..n];
    }
  }

  lemma {:induction false} RankWoken(a: seq<Pc>, b: seq<Pc>)
    requires SameButWoken(a, b)
    ensures RankSum(a) <= RankSum(b)
  {
    if |a| > 0 {
      var n := |a| - 1;
      RankWoken(a[..n], b[..n]);
      assert Rank(a[n]) <= Rank(b[n]);
    }
  }

  /** A worker of a stopped pool gets nearer to its exit, or takes a task out. */
  lemma {:induction false} WorkNearer(s: State, pc: Pc, pc': Pc)
    requires !s.go && !pc.HoldNext? && NextPc(s, pc) == Some(pc')
    ensures var before, after := s.pool, NextPool(s, pc);
      Rank(pc') + 2 * |after.tasks| + 2 * |after.timers| < Rank(pc) + 2 * |before.tasks| + 2 * |before.timers|
  {
  }

  lemma {:induction false} WorkLeft(s: State, i: nat, s': State)
    requires Inv(s) && !s.go && i < |s.workers| && WorkStep(s, i) == Some(s')
    ensures !s'.go && StepsLeft(s') < StepsLeft(s)
  {
    hide NextPc, NextPool, Rank, RankSum, WakeInv, StopInv, QueueInv, TimedInv, LateInv;
    WorkNearer(s, s.workers[i], s'.workers[i]);
    RankUpdate(s.workers, i, s'.workers[i]);
  }

  lemma {:induction false} WakeLeft(s: State, step: Step, s': State)
    requires !s.go && Internal(step) && !step.Work? && Apply(s, step) == Some(s')
    ensures !s'.go && StepsLeft(s') < StepsLeft(s)
  {
    hide RankSum;
    RankWoken(s'.workers, s.workers);
    if step.TimeOut? {
      RankUpdate(s.workers, step.i, Woken);
    }
  }

  lemma {:induction false} ClientLeft(s: State, step: Step, s': State)
    requires !s.go && !Internal(step) && Apply(s, step) == Some(s')
    ensures !s'.go && StepsLeft(s') <= StepsLeft(s) + Charge(step)
  {
    hide RankSum;
    match step
    case PushTimer(t) => InsertedLength(s.pool.timers, t);
    case DelayTimer(task, deadline) => DelayedLength(s.pool.timers, task, deadline);
    case _ =>
  }

  lemma {:induction false} InsertedLength(timers: seq<Timer>, t: Timer)
    ensures |Inserted(timers, t)| == |timers| + 1
  {
    InsertedKeeps(timers, t);
    assert |multiset(Inserted(timers, t))| == |multiset(timers)| + 1;
  }

  lemma {:induction false} DelayedLength(timers: seq<Timer>, task: TaskId, deadline: int)
    ensures |Delayed(timers, task, deadline)| == |timers|
  {
    if IndexOf(timers, task) < |timers| {
      DelayedKeeps(timers, task, deadline);
    }
  }

  /** Each step of a stopped pool's own uses up some of what is left, and a call adds no
      more than its charge. */
  lemma {:induction false} LeftStep(s: State, step: Step, s': State)
    requires Inv(s) && !s.go && Apply(s, step) == Some(s')
    ensures !s'.go
    ensures StepsLeft(s') + (if Internal(step) then 1 else 0) <= StepsLeft(s) + Charge(step)
  {
    hide Inv, StepsLeft;
    if step.Work? {
      WorkLeft(s, step.i, s');
    } else if Internal(step) {
      WakeLeft(s, step, s');
    } else {
      ClientLeft(s, step, s');
    }
  }

  lemma {:induction false} LeftSteps(s: State, steps: seq<Step>, s': State)
    requires Inv(s) && !s.go && Exec(s, steps) == Some(s')
    ensures Inv(s') && !s'.go
    ensures |Where(steps, Internal)| + StepsLeft(s')
      <= StepsLeft(s) + 3 * |Where(steps, Pushes)| + |Where(steps, Stops)|
    decreases |steps|
  {
    hide Inv, Apply, StepsLeft, Internal, Where;
    if |steps| > 0 {
      var front := steps[..|steps| - 1];
      var before := Exec(s, front).value;
      LeftSteps(s, front, before);
      LeftStep(before, steps[|steps| - 1], s');
      StepKeeps(before, steps[|steps| - 1], s');
      WhereSnoc(steps, Internal);
      WhereSnoc(steps, Pushes);
      WhereSnoc(steps, Stops);
    } else {
      WhereNone(steps, Internal);
    }
  }

  lemma {:induction false} LeftAtMost(s: State)
    ensures StepsLeft(s) <= 5 * |s.workers| + 2 * |s.pool.tasks| + 2 * |s.pool.timers| + 1
  {
    hide RankSum;
    RankAtMost(s.workers);
  }

  lemma {:induction false} RankAtMost(workers: seq<Pc>)
    ensures RankSum(workers) <= 5 * |workers|
  {
    if |workers| > 0 {
      RankAtMost(workers[..|workers| - 1]);
    }
  }

  /** Bounded draining: once stop() has been called, whatever clients go on to do and however
      the threads interleave, the steps the pool takes of its own are at most five for each
      worker, two for each task and timer it holds, one for a notification that is under
      way, three for each later push and one for each later stop. */
  lemma {:induction false} DrainBounded(threads: nat, now: int, steps: seq<Step>, s: State, later: seq<Step>, s': State)
    requires Exec(Init(threads, now), steps) == Some(s) && Stopped(steps)
    requires Exec(s, later) == Some(s')
    ensures |set k: nat | k < |later| && Internal(later[k])|
      <= 5 * |s.workers| + 2 * |s.pool.tasks| + 2 * |s.pool.timers| + 1
        + 3 * |set k: nat | k < |later| && (later[k].PushTask? || later[k].PushTimer?)|
        + |set k: nat | k < |later| && later[k].Stop?|
  {
    hide Exec, Inv, StepsLeft;
    RunInv(threads, now, steps, s);
    StoppedIff(threads, now, steps, s);
    LeftSteps(s, later, s');
    LeftAtMost(s);
    assert Where(later, Internal) == set k: nat | k < |later| && Internal(later[k]);
    assert Where(later, Pushes) == set k: nat | k < |later| && (later[k].PushTask? || later[k].PushTimer?);
    assert Where(later, Stops) == set k: nat | k < |later| && later[k].Stop?;
  }

  /** A step that needs no client and no passing of time. */
  predicate Advances(step: Step) {
    step.Work? || step.NotifyOne? || step.NotifyAll?
  }

  lemma {:induction false} SomeoneMoves(s: State) returns (step: Step, s': State)
    requires Inv(s) && !s.go && !AllExited(s.workers)
    ensures Advances(step) && Apply(s, step) == Some(s')
  {
    hide WakeInv, QueueInv, TimedInv, LateInv, Popped, Ready, Next;
    match s.lock {
      case NotifyingAll => step := NotifyAll;
      case NotifyingOne => step := NotifyOne(0);
      case Worker(i) => step := Work(i);
      case Free =>
        var i :| 0 <= i < |s.workers| && !s.workers[i].Exited?;
        step := Work(i);
    }
    s' := Apply(s, step).value;
  }

  lemma {:induction false} AdvanceIsFree(step: Step)
    requires Advances(step)
    ensures Internal(step) && Charge(step) == 0
  {
  }

  lemma {:induction false} Leave(s0: State, front: seq<Step>, s: State) returns (more: seq<Step>, s': State)
    requires Inv(s) && !s.go && Exec(s0, front) == Some(s)
    ensures Exec(s0, front + more) == Some(s') && AllExited(s'.workers)
    ensures |more| <= StepsLeft(s) && forall k :: 0 <= k < |more| ==> Advances(more[k])
    decreases StepsLeft(s)
  {
    hide Inv, Apply, StepsLeft, AllExited, Exec, Charge, Internal;
    if AllExited(s.workers) {
      assert front + [] == front;
      return [], s;
    }
    var step, next := SomeoneMoves(s);
    AdvanceIsFree(step);
    LeftStep(s, step, next);
    StepKeeps(s, step, next);
    ExecSnoc(s0, front, step, s, next);
    var rest, last := Leave(s0, front + [step], next);
    assert front + ([step] + rest) == front + [step] + rest;
    return [step] + rest, last;
  }

  /** Nobody is stuck: once stop() has been called, until all workers have exited one of
      them can act, or a notification under way can be sent. */
  lemma {:induction false} NoneStuck(threads: nat, now: int, steps: seq<Step>, s: State) returns (step: Step)
    requires Exec(Init(threads, now), steps) == Some(s) && Stopped(steps) && !AllExited(s.workers)
    ensures Advances(step) && Exec(Init(threads, now), steps + [step]).Some?
  {
    hide Exec, Inv, AllExited;
    RunInv(threads, now, steps, s);
    StoppedIff(threads, now, steps, s);
    var next;
    step, next := SomeoneMoves(s);
    ExecSnoc(Init(threads, now), steps, step, s, next);
  }

  /** From every state reached after stop() the workers can all exit in a bounded number of
      steps without help, and then every task accepted while one of them was left has run. */
  lemma {:induction false} StoppedDrains(threads: nat, now: int, steps: seq<Step>, s: State)
      returns (more: seq<Step>, s': State)
    requires Exec(Init(threads, now), steps) == Some(s) && Stopped(steps)
    ensures Exec(Init(threads, now), steps + more) == Some(s') && AllExited(s'.workers)
    ensures |more| <= 5 * |s.workers| + 2 * |s.pool.tasks| + 2 * |s.pool.timers| + 1
    ensures forall k :: 0 <= k < |more| ==> more[k].Work? || more[k].NotifyOne? || more[k].NotifyAll?
    ensures !AllExited(s.workers) ==> s'.done == PushesOf(steps) && s'.pool.tasks == []
  {
    hide Exec, Inv, AllExited, StepsLeft, Stopped, PushesOf, TimersOf, CancelsOf;
    RunInv(threads, now, steps, s);
    StoppedIff(threads, now, steps, s);
    more, s' := Leave(Init(threads, now), steps, s);
    LeftAtMost(s);
    ExecConcat(Init(threads, now), steps, s, more);
    if !AllExited(s.workers) {
      DrainedOnExit(threads, now, steps, s, more, s');
      NoPushes(more);
      Remainder(PushesOf(steps), PushesOf(more), s'.done, multiset(s'.pool.tasks));
      assert |s'.pool.tasks| == |multiset(s'.pool.tasks)|;
    }
  }

  lemma {:induction false} NoPushes(steps: seq<Step>)
    requires forall k :: 0 <= k < |steps| ==> Advances(steps[k])
    ensures PushesOf(steps) == multiset{}
  {
    if |steps| > 0 {
      NoPushes(steps[..|steps| - 1]);
    }
  }

  /** While stop() has not been called, no worker leaves its loop. */
  lemma {:induction false} NoneLeavesBeforeStop(threads: nat, now: int, steps: seq<Step>, s: State, i: nat)
    requires Exec(Init(threads, now), steps) == Some(s) && !Stopped(steps) && i < |s.workers|
    ensures !LeftLoop(s.workers[i])
  {
    RunInv(threads, now, steps, s);
    StoppedIff(threads, now, steps, s);
  }
}
