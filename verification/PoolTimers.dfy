// How the workers of a thread pool wait for the timers.

module PoolTimers {
  import opened Wrappers
  import opened TaskPool
  import opened ThreadPool

  // ---- Waiting for the timers ----

  /** The wait ends no later than the earliest timer; without a deadline there is none. */
  ghost predicate Covered(deadline: Option<int>, timers: seq<Timer>) {
    forall k :: 0 <= k < |timers| ==> deadline.Some? && deadline.value <= timers[k].deadline
  }

  /** The timers are in order, and no parked worker waits past one, unless it is about to
      be notified. Not every delay() keeps this. */
  ghost predicate TimerInv(s: State) {
    && Sorted(s.pool.timers)
    && (!s.lock.NotifyingAll? ==>
        forall i :: 0 <= i < |s.workers| && s.workers[i].Parked? ==> Covered(s.workers[i].deadline, s.pool.timers))
  }

  lemma {:induction false} WorkTimer(s: State, i: nat, s': State)
    requires i < |s.workers| && WorkStep(s, i) == Some(s') && LockInv(s) && TimerInv(s)
    ensures TimerInv(s')
  {
    WorkMoves(s, s.workers[i], s'.workers[i]);
    hide NextPc;
  }

  /** The waits of the parked workers cover the timers, and the timers are in order. */
  ghost predicate WaitsCover(workers: seq<Pc>, timers: seq<Timer>) {
    && Sorted(timers)
    && forall i :: 0 <= i < |workers| && workers[i].Parked? ==> Covered(workers[i].deadline, timers)
  }

  /** delay() notifies nobody and moves a timer towards the front only. From covering
      waits it leaves covering waits exactly when the new deadline is neither before the
      timer behind the delayed one nor before the end of any wait. */
  lemma {:induction false} DelayCoversIff(workers: seq<Pc>, timers: seq<Timer>, task: TaskId, deadline: int)
    requires WaitsCover(workers, timers) && IndexOf(timers, task) < |timers|
    ensures var i := IndexOf(timers, task);
      WaitsCover(workers, Delayed(timers, task, deadline)) <==>
        && (i + 1 == |timers| || deadline >= timers[i + 1].deadline)
        && (forall k :: 0 <= k < |workers| && workers[k].Parked? ==> deadline >= workers[k].deadline.value)
  {
    var after := Delayed(timers, task, deadline);
    var t := Timer(deadline, task);
    DelayedSortedIff(timers, task, deadline);
    DelayedKeeps(timers, task, deadline);
    RemovedKeeps(timers, IndexOf(timers, task));
    hide Delayed, IndexOf;
    assert t in multiset(after);
    var m :| 0 <= m < |after| && after[m] == t;
    forall k | 0 <= k < |workers| && workers[k].Parked?
      ensures Covered(workers[k].deadline, after) <==> deadline >= workers[k].deadline.value
    {
      DelayedCoveredIff(workers[k].deadline, timers, after, t, m);
    }
  }

  lemma {:induction false} DelayedCoveredIff(d: Option<int>, timers: seq<Timer>, after: seq<Timer>, t: Timer, m: nat)
    requires |timers| > 0 && Covered(d, timers) && m < |after| && after[m] == t
    requires forall u :: u in multiset(after) ==> u == t || u in multiset(timers)
    ensures Covered(d, after) <==> d.Some? && d.value <= t.deadline
  {
    assert Covered(d, [timers[0]]) by { assert d.value <= timers[0].deadline; }
    if d.value <= t.deadline {
      forall k | 0 <= k < |after| ensures d.value <= after[k].deadline {
        assert after[k] in multiset(after);
      }
    }
  }

  /** A delay that is not before the timer behind the delayed one, nor before the end of a
      wait that nobody is about to end. */
  ghost predicate Heeds(s: State, task: TaskId, deadline: int) {
    var timers, i := s.pool.timers, IndexOf(s.pool.timers, task);
    i < |timers| ==>
      && (i + 1 < |timers| ==> deadline >= timers[i + 1].deadline)
      && (!s.lock.NotifyingAll? ==>
          forall k :: 0 <= k < |s.workers| && s.workers[k].Parked? ==> LastsUntil(s.workers[k], deadline))
  }

  /** The wait ends by the given time. */
  predicate LastsUntil(pc: Pc, deadline: int)
    requires pc.Parked?
  {
    pc.deadline.Some? && deadline >= pc.deadline.value
  }

  /** A delay keeps the waits in time if and only if it heeds them. */
  lemma {:induction false} DelayHeedsIff(s: State, task: TaskId, deadline: int, s': State)
    requires TimerInv(s) && Apply(s, DelayTimer(task, deadline)) == Some(s')
    ensures TimerInv(s') <==> Heeds(s, task, deadline)
  {
    var timers, i := s.pool.timers, IndexOf(s.pool.timers, task);
    if i < |timers| {
      if s.lock.NotifyingAll? {
        DelayedSortedIff(timers, task, deadline);
      } else {
        DelayCoversIff(s.workers, timers, task, deadline);
        assert forall k :: 0 <= k < |s.workers| && s.workers[k].Parked? ==>
          Covered(s.workers[k].deadline, [timers[0]]) by {
          FirstCovered(s);
        }
      }
    }
    hide Delayed, IndexOf;
  }

  lemma {:induction false} CoveredBy(s: State, k: nat)
    requires TimerInv(s) && !s.lock.NotifyingAll? && k < |s.workers| && s.workers[k].Parked?
    ensures Covered(s.workers[k].deadline, s.pool.timers)
  {
    hide Covered, Sorted;
  }

  lemma {:induction false} CoveredAt(d: Option<int>, timers: seq<Timer>, k: nat)
    requires Covered(d, timers) && k < |timers|
    ensures d.Some? && d.value <= timers[k].deadline
  {
  }

  lemma {:induction false} FirstCovered(s: State)
    requires TimerInv(s) && !s.lock.NotifyingAll? && |s.pool.timers| > 0
    ensures forall k :: 0 <= k < |s.workers| && s.workers[k].Parked? ==> s.workers[k].deadline.Some?
    ensures forall k :: 0 <= k < |s.workers| && s.workers[k].Parked? ==>
      Covered(s.workers[k].deadline, [s.pool.timers[0]])
  {
    var timers := s.pool.timers;
    forall k | 0 <= k < |s.workers| && s.workers[k].Parked?
      ensures s.workers[k].deadline.Some? && Covered(s.workers[k].deadline, [timers[0]])
    {
      CoveredBy(s, k);
      CoveredAt(s.workers[k].deadline, timers, 0);
    }
  }

  ghost predicate HeedfulStep(s: State, step: Step) {
    step.DelayTimer? ==> Heeds(s, step.task, step.deadline)
  }

  /** Every step but a delay that does not heed the waits keeps them in time. */
  lemma {:induction false} StepKeepsWaits(s: State, step: Step, s': State)
    requires Inv(s) && TimerInv(s) && Apply(s, step) == Some(s') && HeedfulStep(s, step)
    ensures TimerInv(s')
  {
    match step
    case Work(i) => WorkTimer(s, i, s');
    case PushTimer(t) => InsertedSorted(s.pool.timers, t);
    case CancelTimer(task) => CancelKeepsWaits(s, task, s');
    case DelayTimer(task, deadline) => DelayHeedsIff(s, task, deadline, s');
    case _ => UntimedKeepsWaits(s, s');
  }

  lemma {:induction false} CancelKeepsWaits(s: State, task: TaskId, s': State)
    requires TimerInv(s) && Apply(s, CancelTimer(task)) == Some(s')
    ensures TimerInv(s')
  {
  }

  /** A step that leaves the timers alone and parks nobody. */
  lemma {:induction false} UntimedKeepsWaits(s: State, s': State)
    requires TimerInv(s) && s'.pool.timers == s.pool.timers && |s'.workers| == |s.workers|
    requires forall i :: 0 <= i < |s.workers| && s'.workers[i].Parked? ==> s'.workers[i] == s.workers[i]
    requires s.lock.NotifyingAll? && !s'.lock.NotifyingAll? ==> !SomeParked(s'.workers)
    ensures TimerInv(s')
  {
    hide Sorted, Covered;
  }

  /** Every delay of the run heeds the waits. */
  ghost predicate Heedful(s: State, steps: seq<Step>)
    requires Exec(s, steps).Some?
    decreases |steps|
  {
    |steps| > 0 ==>
      var front := steps[..|steps| - 1];
      Heedful(s, front) && HeedfulStep(Exec(s, front).value, steps[|steps| - 1])
  }

  lemma {:induction false} RunWaits(threads: nat, now: int, steps: seq<Step>, s: State)
    requires Exec(Init(threads, now), steps) == Some(s) && Heedful(Init(threads, now), steps)
    ensures TimerInv(s)
    decreases |steps|
  {
    hide Inv, Apply, TimerInv, HeedfulStep;
    if |steps| == 0 {
      InitWaits(threads, now);
    } else {
      var front := steps[..|steps| - 1];
      var before := Exec(Init(threads, now), front).value;
      RunInv(threads, now, front, before);
      RunWaits(threads, now, front, before);
      StepKeepsWaits(before, steps[|steps| - 1], s);
    }
  }

  lemma {:induction false} InitWaits(threads: nat, now: int)
    ensures TimerInv(Init(threads, now))
  {
  }

  /** On every run whose delays heed the waits, a worker waits without a deadline only while
      no timer is pending, and otherwise no longer than the earliest timer. */
  lemma {:induction false} DeadlinesNotLate(threads: nat, now: int, steps: seq<Step>, s: State, i: nat)
    requires Exec(Init(threads, now), steps) == Some(s) && Heedful(Init(threads, now), steps)
    requires i < |s.workers| && s.workers[i].Parked? && !s.lock.NotifyingAll?
    ensures s.workers[i].deadline.None? ==> s.pool.timers == []
    ensures s.workers[i].deadline.Some? ==> forall t :: t in s.pool.timers ==> s.workers[i].deadline.value <= t.deadline
  {
    RunWaits(threads, now, steps, s);
    if s.pool.timers != [] {
      FirstCovered(s);
    }
  }

  // ---- Waking for a timer ----

  /** After every run the clock can go on to any time that is not past, and to no other. */
  lemma {:induction false} ClockGoesOn(threads: nat, now: int, steps: seq<Step>, s: State, later: int)
    requires Exec(Init(threads, now), steps) == Some(s)
    ensures later >= s.now ==> Exec(Init(threads, now), steps + [Tick(later)]) == Some(s.(now := later))
    ensures later < s.now ==> Exec(Init(threads, now), steps + [Tick(later)]).None?
  {
    assert (steps + [Tick(later)])[..|steps|] == steps;
  }

  /** An action of a worker that is not running a task. */
  lemma {:induction false} WorkQuiet(s: State, i: nat, pc': Pc, lock: Holder)
    requires i < |s.workers| && NextPc(s, s.workers[i]) == Some(pc')
    requires !s.workers[i].Running? && !s.workers[i].Finishing?
    requires lock == if Holds(pc') then Worker(i) else if Holds(s.workers[i]) then Free else s.lock
    ensures Apply(s, Work(i))
      == Some(s.(workers := s.workers[i := pc'], pool := NextPool(s, s.workers[i]), lock := lock))
  {
    hide NextPc, NextPool;
    NothingMore(s.done);
    NothingMore(s.ran);
  }

  lemma {:induction false} WakesAlone(s: State, i: nat)
    requires i < |s.workers| && s.workers[i].Parked?
    ensures Apply(s, TimeOut(i)) == Some(s.(workers := s.workers[i := Woken]))
  {
  }

  lemma {:induction false} ExecNothing(s: State)
    ensures Exec(s, []) == Some(s)
  {
  }

  lemma {:induction false} WakeAndPop(s: State, i: nat) returns (s': State)
    requires i < |s.workers| && s.workers[i].Parked? && s.lock.Free? && s.go
    requires s.pool.tasks == [] && Due(s.pool, s.now)
    ensures s'.workers == s.workers[i := Running(s.pool.timers[|s.pool.timers| - 1].task, true)]
    ensures Exec(s, [] + [TimeOut(i)] + [Work(i)] + [Work(i)] + [Work(i)]) == Some(s')
  {
    hide Exec, Apply;
    var s1 := s.(workers := s.workers[i := Woken]);
    var s2 := s1.(workers := s1.workers[i := Top]);
    var s3 := s2.(workers := s2.workers[i := Popping]);
    var last := |s.pool.timers| - 1;
    s' := s3.(workers := s3.workers[i := Running(s.pool.timers[last].task, true)],
              pool := s.pool.(timers := s.pool.timers[..last]));
    WakesAlone(s, i);
    WorkQuiet(s1, i, Top, Free);
    WorkQuiet(s2, i, Popping, Free);
    WorkQuiet(s3, i, Running(s.pool.timers[last].task, true), Free);
    ExecNothing(s);
    ExecSnoc(s, [], TimeOut(i), s, s1);
    ExecSnoc(s, [] + [TimeOut(i)], Work(i), s1, s2);
    ExecSnoc(s, [] + [TimeOut(i)] + [Work(i)], Work(i), s2, s3);
    ExecSnoc(s, [] + [TimeOut(i)] + [Work(i)] + [Work(i)], Work(i), s3, s');
  }

  /** A due timer runs without any call: on a run whose delays heed the waits, when the
      earliest timer is due the wait of any parked worker has ended too, and that worker can
      go on to run the timer. */
  lemma {:induction false} DueTimerRuns(threads: nat, now: int, steps: seq<Step>, s: State, i: nat, t: Timer)
    returns (more: seq<Step>, s': State)
    requires Exec(Init(threads, now), steps) == Some(s) && Heedful(Init(threads, now), steps)
    requires s.lock.Free? && s.pool.tasks == [] && i < |s.workers| && s.workers[i].Parked?
    requires t in s.pool.timers && t.deadline <= s.now
    ensures s.workers[i].deadline.Some? && s.workers[i].deadline.value <= s.now
    ensures Exec(s, more) == Some(s') && forall k :: 0 <= k < |more| ==> more[k] in {TimeOut(i), Work(i)}
    ensures s'.workers[i].Running? && s'.workers[i].timed
    ensures exists first :: Earliest(s.pool.timers, first) && first.task == s'.workers[i].task
  {
    hide Exec, Heedful, LockInv, WakeInv, QueueInv, TimedInv, LateInv, Covered;
    RunInv(threads, now, steps, s);
    RunWaits(threads, now, steps, s);
    DeadlinesNotLate(threads, now, steps, s, i);
    LastIsDue(s.pool, t, s.now);
    s' := WakeAndPop(s, i);
    more := [] + [TimeOut(i)] + [Work(i)] + [Work(i)] + [Work(i)];
  }

  lemma {:induction false} LastIsDue(pool: Pool, t: Timer, now: int)
    requires Sorted(pool.timers) && t in pool.timers && t.deadline <= now
    ensures Due(pool, now) && Earliest(pool.timers, pool.timers[|pool.timers| - 1])
  {
  }

  // ---- A worker that sleeps past a timer ----

  /** The places a lone worker passes when it has nothing to do. */
  function ParkPlace(s: State, k: nat): Pc {
    if k == 0 then Top else if k == 1 then Popping else if k == 2 then Locking
    else if k == 3 then HoldReady else if k == 4 then HoldContinue else if k == 5 then HoldNext
    else Parked(Next(s.pool))
  }

  function ParkState(s: State, k: nat): State {
    s.(workers := [ParkPlace(s, k)], lock := if 3 <= k <= 5 then Worker(0) else Free)
  }

  lemma {:induction false} ParkStep(s: State, k: nat)
    requires k < 6 && !Ready(s.pool, s.now) && s.go
    ensures Apply(ParkState(s, k), Work(0)) == Some(ParkState(s, k + 1))
  {
    WorkQuiet(ParkState(s, k), 0, ParkPlace(s, k + 1), ParkState(s, k + 1).lock);
    assert ParkState(s, k).workers[0 := ParkPlace(s, k + 1)] == ParkState(s, k + 1).workers;
  }

  lemma {:induction false} ParkRun(s0: State, front: seq<Step>, s: State, k: nat) returns (steps: seq<Step>)
    requires Exec(s0, front) == Some(ParkState(s, 0)) && k <= 6 && !Ready(s.pool, s.now) && s.go
    ensures Exec(s0, steps) == Some(ParkState(s, k))
  {
    steps := front;
    if k > 0 {
      hide ParkState, Apply, Exec, Ready;
      var before := ParkRun(s0, front, s, k - 1);
      ParkStep(s, k - 1);
      ExecSnoc(s0, before, Work(0), ParkState(s, k - 1), ParkState(s, k));
      steps := before + [Work(0)];
    }
  }

  lemma {:induction false} OneTimer() returns (steps: seq<Step>, s: State)
    ensures Exec(Init(1, 0), steps) == Some(ParkState(s, 0))
    ensures s.pool == Pool([], [Timer(10, 7)]) && s.now == 0 && s.go
  {
    var s0 := Init(1, 0);
    var s1 := Apply(s0, PushTimer(Timer(10, 7))).value;
    s := s1.(lock := Free);
    assert s1.workers == WakeAll(s1.workers) == [Top];
    assert Exec(s0, []) == Some(s0);
    ExecSnoc(s0, [], PushTimer(Timer(10, 7)), s0, s1);
    ExecSnoc(s0, [] + [PushTimer(Timer(10, 7))], NotifyAll, s1, ParkState(s, 0));
    steps := [] + [PushTimer(Timer(10, 7))] + [NotifyAll];
  }

  /** A run in which an earlier delay makes a worker sleep past a timer: the only worker
      waits for time 10, and the timer is then moved up to time 5. */
  lemma {:induction false} EarlierDelayMissesTimer() returns (steps: seq<Step>, s: State)
    ensures Exec(Init(1, 0), steps) == Some(s) && s.lock.Free?
    ensures s.workers == [Parked(Some(10))] && s.pool.timers == [Timer(5, 7)]
  {
    var front, t := OneTimer();
    var before := ParkRun(Init(1, 0), front, t, 6);
    s := ParkState(t, 6).(pool := Pool([], [Timer(5, 7)]));
    DelayOnly();
    assert Apply(ParkState(t, 6), DelayTimer(7, 5)) == Some(s);
    hide Exec, Apply, Init;
    ExecSnoc(Init(1, 0), before, DelayTimer(7, 5), ParkState(t, 6), s);
    steps := before + [DelayTimer(7, 5)];
  }

  lemma {:induction false} DelayOnly()
    ensures Delayed([Timer(10, 7)], 7, 5) == [Timer(5, 7)]
  {
  }
}
