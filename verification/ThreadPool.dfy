// The thread pool of thread_pool.h as a system of atomic steps. A step ends where a
// thread releases or takes a mutex: everything done under `_task_mutex` is one step, and
// what a thread does while it holds `_lock` is split where other threads can interleave.

module ThreadPool {
  import opened Wrappers
  import opened TaskPool

  /** Where a worker is in _main. */
  datatype Pc =
    | Top                          // about to test _continue
    | Popping                      // about to call pop()
    | Running(task: TaskId, timed: bool)
    | Locking                      // pop() yielded nothing; wants _lock
    | HoldReady                    // holds _lock, about to call ready()
    | HoldContinue                 // holds _lock, about to test _continue
    | HoldNext                     // holds _lock, about to call next() and wait
    | Parked(deadline: Option<int>)
    | Woken                        // wants _lock back to leave the wait
    | Draining                     // about to call pop() after the main loop
    | Finishing(task: TaskId, timed: bool)
    | Exited

  /** Who holds `_lock`: a worker, a push about to notify one, or a call about to notify all. */
  datatype Holder = Free | Worker(i: nat) | NotifyingOne | NotifyingAll

  /** What clients have done so far. */
  datatype Intake = Intake(
    pushed: multiset<TaskId>,      // immediate tasks accepted
    late: seq<TaskId>,             // those accepted after the last worker had exited
    scheduled: multiset<TaskId>,   // timers accepted
    cancelled: multiset<TaskId>)   // timers cancelled

  datatype State = State(
    workers: seq<Pc>,
    pool: Pool,
    go: bool,                      // _continue
    lock: Holder,
    now: int,
    intake: Intake,
    done: multiset<TaskId>,        // immediate tasks that have run
    ran: multiset<TaskId>)         // timers that have run

  datatype Step =
    | Work(i: nat)                 // the next action of a worker
    | TimeOut(i: nat)              // a wait ends without a notification
    | PushTask(task: TaskId)
    | NotifyOne(j: nat)            // notify_one, waking the parked worker j if there is one
    | PushTimer(t: Timer)
    | Stop
    | NotifyAll
    | CancelTimer(task: TaskId)
    | DelayTimer(task: TaskId, deadline: int)
    | Tick(now: int)

  function Init(threads: nat, now: int): State {
    State(seq(threads, _ => Top), Pool([], []), true, Free, now,
      Intake(multiset{}, [], multiset{}, multiset{}), multiset{}, multiset{})
  }

  predicate SomeParked(workers: seq<Pc>) {
    exists i :: 0 <= i < |workers| && workers[i].Parked?
  }

  predicate AllExited(workers: seq<Pc>) {
    forall i :: 0 <= i < |workers| ==> workers[i].Exited?
  }

  function WakeAll(workers: seq<Pc>): (r: seq<Pc>)
    ensures |r| == |workers|
    ensures forall i :: 0 <= i < |workers| ==> r[i] == if workers[i].Parked? then Woken else workers[i]
  {
    seq(|workers|, i requires 0 <= i < |workers| => if workers[i].Parked? then Woken else workers[i])
  }

  function Goto(s: State, i: nat, pc: Pc): State
    requires i < |s.workers|
  {
    s.(workers := s.workers[i := pc])
  }

  /** The place in _main that a worker's next action leads to, or None when it has to
      wait for `_lock` or has no action left. */
  function NextPc(s: State, pc: Pc): Option<Pc> {
    match pc
    case Top => Some(if s.go then Popping else Draining)
    case Popping =>
      var task := Popped(s.pool, s.now).0;
      Some(if task.None? then Locking else Running(task.value, |s.pool.tasks| == 0))
    case Running(_, _) => Some(Top)
    case Locking => if s.lock.Free? then Some(HoldReady) else None
    case HoldReady => Some(if Ready(s.pool, s.now) then Top else HoldContinue)
    case HoldContinue => Some(if s.go then HoldNext else Draining)
    case HoldNext => Some(Parked(Next(s.pool)))
    case Parked(_) => None
    case Woken => if s.lock.Free? then Some(Top) else None
    case Draining =>
      var task := Popped(s.pool, s.now).0;
      Some(if task.None? then Exited else Finishing(task.value, |s.pool.tasks| == 0))
    case Finishing(_, _) => Some(Draining)
    case Exited => None
  }

  predicate Holds(pc: Pc) {
    pc.HoldReady? || pc.HoldContinue? || pc.HoldNext?
  }

  /** pop() takes a task out; no other action changes the pool. */
  function NextPool(s: State, pc: Pc): Pool {
    if pc.Popping? || pc.Draining? then Popped(s.pool, s.now).1 else s.pool
  }

  predicate Completes(pc: Pc, timed: bool) {
    (pc.Running? || pc.Finishing?) && pc.timed == timed
  }

  /** The task a worker is running, of one of the two kinds. */
  function RunBy(pc: Pc, timed: bool): multiset<TaskId> {
    if Completes(pc, timed) then multiset{pc.task} else multiset{}
  }

  /** One action of worker i. The lock is held exactly in the three Hold places. */
  function WorkStep(s: State, i: nat): Option<State>
    requires i < |s.workers|
  {
    var pc := s.workers[i];
    var pc' :- NextPc(s, pc);
    Some(State(s.workers[i := pc'], NextPool(s, pc), s.go,
      if Holds(pc') then Worker(i) else if Holds(pc) then Free else s.lock,
      s.now, s.intake, s.done + RunBy(pc, false), s.ran + RunBy(pc, true)))
  }

  /** A step, or None when it is not enabled. */
  function Apply(s: State, step: Step): Option<State> {
    match step
    case Work(i) => if i < |s.workers| then WorkStep(s, i) else None
    case TimeOut(i) => if i < |s.workers| && s.workers[i].Parked? then Some(Goto(s, i, Woken)) else None
    case PushTask(task) =>
      if !s.lock.Free? then None
      else Some(s.(lock := NotifyingOne, pool := s.pool.(tasks := s.pool.tasks + [task]),
                   intake := s.intake.(
                     pushed := s.intake.pushed + multiset{task},
                     late := if AllExited(s.workers) then s.intake.late + [task] else s.intake.late)))
    case NotifyOne(j) =>
      if !s.lock.NotifyingOne? then None
      else if SomeParked(s.workers) then
        if j < |s.workers| && s.workers[j].Parked? then Some(Goto(s.(lock := Free), j, Woken)) else None
      else Some(s.(lock := Free))
    case PushTimer(t) =>
      if !s.lock.Free? then None
      else Some(s.(lock := NotifyingAll, pool := s.pool.(timers := Inserted(s.pool.timers, t)),
                   intake := s.intake.(scheduled := s.intake.scheduled + multiset{t.task})))
    case Stop => if !s.lock.Free? then None else Some(s.(lock := NotifyingAll, go := false))
    case NotifyAll =>
      if !s.lock.NotifyingAll? then None else Some(s.(lock := Free, workers := WakeAll(s.workers)))
    case CancelTimer(task) =>
      var i := IndexOf(s.pool.timers, task);
      if i == |s.pool.timers| then Some(s)
      else Some(s.(pool := s.pool.(timers := Removed(s.pool.timers, i)),
                   intake := s.intake.(cancelled := s.intake.cancelled + multiset{task})))
    case DelayTimer(task, deadline) =>
      Some(s.(pool := s.pool.(timers := Delayed(s.pool.timers, task, deadline))))
    case Tick(now) => if now < s.now then None else Some(s.(now := now))
  }

  function Exec(s: State, steps: seq<Step>): Option<State>
    decreases |steps|
  {
    if |steps| == 0 then Some(s)
    else
      var next :- Exec(s, steps[..|steps| - 1]);
      Apply(next, steps[|steps| - 1])
  }

  // ---- The invariant ----

  /** Awake and idle: such a worker calls pop() or ready() before it can park. */
  predicate Idle(pc: Pc) {
    pc.Top? || pc.Popping? || pc.Locking? || pc.HoldReady? || pc.Woken? || pc.Draining?
  }

  function CountIdle(workers: seq<Pc>): nat {
    if |workers| == 0 then 0
    else CountIdle(workers[..|workers| - 1]) + if Idle(workers[|workers| - 1]) then 1 else 0
  }

  /** The tasks the workers are running, immediate ones or timers. */
  function InFlight(workers: seq<Pc>, timed: bool): multiset<TaskId> {
    if |workers| == 0 then multiset{}
    else InFlight(workers[..|workers| - 1], timed) + RunBy(workers[|workers| - 1], timed)
  }

  ghost predicate LockInv(s: State) {
    && (s.lock.Worker? ==> s.lock.i < |s.workers|)
    && (forall i :: 0 <= i < |s.workers| ==> (Holds(s.workers[i]) <==> s.lock == Worker(i)))
    && (forall i :: 0 <= i < |s.workers| && (s.workers[i].HoldContinue? || s.workers[i].HoldNext?) ==>
      s.pool.tasks == [])
    && (forall i :: 0 <= i < |s.workers| && s.workers[i].HoldNext? ==> s.go)
  }

  /** No lost wakeup: while a worker is parked, the queue is covered by awake idle
      workers, counting a notification that is about to be sent. */
  ghost predicate WakeInv(s: State) {
    SomeParked(s.workers) ==>
      |s.pool.tasks| <= CountIdle(s.workers) + if s.lock.NotifyingOne? then 1 else 0
  }

  predicate LeftLoop(pc: Pc) {
    pc.Draining? || pc.Finishing? || pc.Exited?
  }

  ghost predicate StopInv(s: State) {
    && (!s.go && !s.lock.NotifyingAll? ==> !SomeParked(s.workers))
    && (forall i :: 0 <= i < |s.workers| && LeftLoop(s.workers[i]) ==> !s.go)
  }

  /** Every immediate task is queued, being run, or has run. */
  ghost predicate QueueInv(s: State) {
    s.intake.pushed == multiset(s.pool.tasks) + InFlight(s.workers, false) + s.done
  }

  /** Every timer is pending, being run, has run, or was cancelled. */
  ghost predicate TimedInv(s: State) {
    s.intake.scheduled == TasksOf(s.pool.timers) + InFlight(s.workers, true) + s.ran + s.intake.cancelled
  }

  /** Once all workers have exited only what came later is still queued. */
  ghost predicate LateInv(s: State) {
    if AllExited(s.workers) then s.pool.tasks == s.intake.late else s.intake.late == []
  }

  /** What every step keeps. */
  ghost predicate Inv(s: State) {
    LockInv(s) && WakeInv(s) && StopInv(s) && QueueInv(s) && TimedInv(s) && LateInv(s)
  }

  // ---- Counting over the workers ----

  lemma {:induction false} CountIdleUpdate(workers: seq<Pc>, i: nat, pc: Pc)
    requires i < |workers|
    ensures CountIdle(workers[i := pc]) + (if Idle(workers[i]) then 1 else 0)
         == CountIdle(workers) + (if Idle(pc) then 1 else 0)
  {
    var n := |workers| - 1;
    if i < n {
      CountIdleUpdate(workers[..n], i, pc);
      assert workers[i := pc][..n] == workers[..n][i := pc];
    } else {
      assert workers[i := pc][..n] == workers[..n];
    }
  }

  lemma {:induction false} Rearrange<T>(x': multiset<T>, gone: multiset<T>, x: multiset<T>, here: multiset<T>,
                                        last: multiset<T>)
    requires x' + gone == x + here
    ensures x' + last + gone == x + last + here
  {
    assert x' + last + gone == x' + gone + last;
  }

  lemma {:induction false} Swapped<T>(x: multiset<T>, a: multiset<T>, b: multiset<T>)
    ensures x + a + b == x + b + a
  {
  }

  lemma {:induction false} InFlightSplit(workers: seq<Pc>, timed: bool)
    requires |workers| > 0
    ensures InFlight(workers, timed)
      == InFlight(workers[..|workers| - 1], timed) + RunBy(workers[|workers| - 1], timed)
  {
  }

  lemma {:induction false} InFlightUpdate(workers: seq<Pc>, i: nat, pc: Pc, timed: bool)
    requires i < |workers|
    ensures InFlight(workers[i := pc], timed) + RunBy(workers[i], timed) == InFlight(workers, timed) + RunBy(pc, timed)
  {
    hide InFlight, RunBy;
    var n := |workers| - 1;
    InFlightSplit(workers, timed);
    InFlightSplit(workers[i := pc], timed);
    if i < n {
      InFlightUpdate(workers[..n], i, pc, timed);
      assert workers[i := pc][..n] == workers[..n][i := pc];
      Rearrange(InFlight(workers[..n][i := pc], timed), RunBy(workers[i], timed),
                InFlight(workers[..n], timed), RunBy(pc, timed), RunBy(workers[n], timed));
    } else {
      assert workers[i := pc][..n] == workers[..n];
      Swapped(InFlight(workers[..n], timed), RunBy(pc, timed), RunBy(workers[n], timed));
    }
  }

  ghost predicate SameButWoken(a: seq<Pc>, b: seq<Pc>) {
    |a| == |b| && forall i :: 0 <= i < |a| ==> a[i] == b[i] || (a[i].Woken? && b[i].Parked?)
  }

  lemma {:induction false} InFlightSame(a: seq<Pc>, b: seq<Pc>, timed: bool)
    requires SameButWoken(a, b)
    ensures InFlight(a, timed) == InFlight(b, timed)
  {
    if |a| > 0 {
      var n := |a| - 1;
      InFlightSame(a[..n], b[..n], timed);
      assert a[n] == b[n] || (RunBy(a[n], timed) == multiset{} == RunBy(b[n], timed));
    }
  }

  lemma {:induction false} InFlightNone(workers: seq<Pc>, timed: bool)
    requires forall i :: 0 <= i < |workers| ==> RunBy(workers[i], timed) == multiset{}
    ensures InFlight(workers, timed) == multiset{}
  {
    if |workers| > 0 {
      InFlightNone(workers[..|workers| - 1], timed);
    }
  }

  /** The places in a sequence at which something holds. */
  ghost function Where<T>(s: seq<T>, p: T -> bool): set<nat> {
    set i: nat | i < |s| && p(s[i])
  }

  lemma {:induction false} WhereSnoc<T>(s: seq<T>, p: T -> bool)
    requires |s| > 0
    ensures |Where(s, p)| == |Where(s[..|s| - 1], p)| + if p(s[|s| - 1]) then 1 else 0
  {
    var n := |s| - 1;
    var front := Where(s[..n], p);
    forall i: nat | i < n ensures i in Where(s, p) <==> i in front {
      assert s[..n][i] == s[i];
    }
    assert Where(s, p) == if p(s[n]) then front + {n} else front;
  }

  lemma {:induction false} WhereNone<T>(s: seq<T>, p: T -> bool)
    requires |s| == 0
    ensures |Where(s, p)| == 0
  {
  }

  lemma {:induction false} CountIdleIsCard(workers: seq<Pc>)
    ensures CountIdle(workers) == |Where(workers, Idle)|
  {
    hide Where, Idle;
    if |workers| == 0 {
      WhereNone(workers, Idle);
    } else {
      WhereSnoc(workers, Idle);
      CountIdleIsCard(workers[..|workers| - 1]);
    }
  }

  // ---- Timers as a multiset of tasks ----

  lemma {:induction false} NoTasks(timers: seq<Timer>)
    requires |timers| == 0
    ensures TasksOf(timers) == multiset{}
  {
  }

  lemma {:induction false} TasksOfSnoc(timers: seq<Timer>, t: Timer)
    ensures TasksOf(timers + [t]) == TasksOf(timers) + multiset{t.task}
  {
    assert (timers + [t])[..|timers|] == timers;
  }

  lemma {:induction false} Sum3<T>(a: multiset<T>, b: multiset<T>, c: multiset<T>)
    ensures a + b + c == a + (b + c)
  {
  }

  lemma {:induction false} TasksOfConcat(a: seq<Timer>, b: seq<Timer>)
    ensures TasksOf(a + b) == TasksOf(a) + TasksOf(b)
    decreases |b|
  {
    hide TasksOf;
    if |b| == 0 {
      NoTasks(b);
      assert a + b == a;
    } else {
      var front, last := b[..|b| - 1], b[|b| - 1];
      TasksOfConcat(a, front);
      TasksOfSnoc(front, last);
      TasksOfSnoc(a + front, last);
      assert b == front + [last] && a + b == a + front + [last];
      Sum3(TasksOf(a), TasksOf(front), multiset{last.task});
    }
  }

  lemma {:induction false} TasksOfPermuted(a: seq<Timer>, b: seq<Timer>)
    requires multiset(a) == multiset(b)
    ensures TasksOf(a) == TasksOf(b)
    decreases |a|
  {
    if |a| == 0 {
      assert |multiset(b)| == 0;
    } else {
      var last := a[|a| - 1];
      assert last in multiset(b);
      var i :| 0 <= i < |b| && b[i] == last;
      assert a == a[..|a| - 1] + [last];
      RemovedKeeps(b, i);
      assert multiset(a[..|a| - 1]) == multiset(a) - multiset{last};
      assert multiset(Removed(b, i)) == multiset(b) - multiset{last};
      TasksOfPermuted(a[..|a| - 1], Removed(b, i));
    }
  }

  lemma {:induction false} RemovedKeeps(timers: seq<Timer>, i: nat)
    requires i < |timers|
    ensures multiset(timers) == multiset(Removed(timers, i)) + multiset{timers[i]}
    ensures TasksOf(timers) == TasksOf(Removed(timers, i)) + multiset{timers[i].task}
  {
    assert timers == timers[..i] + ([timers[i]] + timers[i + 1..]);
    TasksOfConcat(timers[..i], [timers[i]] + timers[i + 1..]);
    TasksOfConcat([timers[i]], timers[i + 1..]);
    TasksOfConcat(timers[..i], timers[i + 1..]);
    assert TasksOf([timers[i]]) == multiset{timers[i].task} by {
      assert [timers[i]][..0] == [];
    }
  }

  // ---- Every step keeps the invariant ----

  lemma {:induction false} InitInv(threads: nat, now: int)
    ensures Inv(Init(threads, now))
  {
    hide InFlight, CountIdle;
    var workers := Init(threads, now).workers;
    assert forall i :: 0 <= i < |workers| ==> workers[i] == Top;
    InFlightNone(workers, false);
    InFlightNone(workers, true);
    NoTasks([]);
  }

  /** Where a worker's next place can come from. */
  lemma {:induction false} WorkMoves(s: State, pc: Pc, pc': Pc)
    requires NextPc(s, pc) == Some(pc')
    ensures pc'.HoldContinue? ==> pc.HoldReady? && s.pool.tasks == []
    ensures pc'.HoldNext? ==> pc.HoldContinue? && s.go
    ensures pc'.Parked? ==> pc.HoldNext? && pc'.deadline == Next(s.pool)
    ensures LeftLoop(pc') ==> LeftLoop(pc) || !s.go
    ensures Idle(pc) && !Idle(pc') ==> |s.pool.tasks| == |NextPool(s, pc).tasks| + 1 || NextPool(s, pc).tasks == []
    ensures !pc.Exited? && (pc'.Exited? ==> s.pool.tasks == [] && NextPool(s, pc) == s.pool)
    ensures Holds(pc') && !Holds(pc) ==> s.lock.Free?
  {
  }

  lemma {:induction false} WorkLock(s: State, i: nat, s': State)
    requires i < |s.workers| && WorkStep(s, i) == Some(s') && LockInv(s)
    ensures LockInv(s')
  {
    WorkMoves(s, s.workers[i], s'.workers[i]);
    hide NextPc;
  }

  lemma {:induction false} WorkWake(s: State, i: nat, s': State)
    requires i < |s.workers| && WorkStep(s, i) == Some(s') && LockInv(s) && WakeInv(s)
    ensures WakeInv(s')
  {
    WorkMoves(s, s.workers[i], s'.workers[i]);
    CountIdleUpdate(s.workers, i, s'.workers[i]);
    hide NextPc;
    if SomeParked(s'.workers) && !SomeParked(s.workers) {
      assert s.workers[i].HoldNext?;
    }
  }

  lemma {:induction false} WorkStop(s: State, i: nat, s': State)
    requires i < |s.workers| && WorkStep(s, i) == Some(s') && LockInv(s) && StopInv(s)
    ensures StopInv(s')
  {
    WorkMoves(s, s.workers[i], s'.workers[i]);
    hide NextPc;
  }

  /** The task a worker takes out, if it is of the given kind. */
  function Taken(s: State, pc: Pc, timed: bool): multiset<TaskId> {
    var task := Popped(s.pool, s.now).0;
    if (pc.Popping? || pc.Draining?) && task.Some? && timed == (|s.pool.tasks| == 0) then multiset{task.value}
    else multiset{}
  }

  lemma {:induction false} TakenIsRun(s: State, pc: Pc, pc': Pc, timed: bool)
    requires NextPc(s, pc) == Some(pc')
    ensures RunBy(pc', timed) == Taken(s, pc, timed)
  {
    hide Popped, Ready, Next;
    if pc.Popping? || pc.Draining? {
      var task := Popped(s.pool, s.now).0;
      assert task.Some? ==> Completes(pc', |s.pool.tasks| == 0) && pc'.task == task.value;
    } else {
      assert !Completes(pc', timed);
    }
  }

  /** Within one worker's action no task is lost or run twice. */
  lemma {:induction false} PopConserves(s: State, pc: Pc)
    ensures multiset(s.pool.tasks) == multiset(NextPool(s, pc).tasks) + Taken(s, pc, false)
    ensures TasksOf(s.pool.timers) == TasksOf(NextPool(s, pc).timers) + Taken(s, pc, true)
  {
    PoppedParts(s.pool, s.now);
    hide TasksOf, Popped;
    if (pc.Popping? || pc.Draining?) && |s.pool.tasks| > 0 {
      assert Taken(s, pc, true) == multiset{};
    } else {
      assert Taken(s, pc, false) == multiset{};
    }
  }

  lemma {:induction false} Balance<T>(held: multiset<T>, flight: multiset<T>, done: multiset<T>, r: multiset<T>,
                                      held': multiset<T>, flight': multiset<T>, done': multiset<T>, r': multiset<T>)
    requires flight' + r == flight + r' && held + r + done == held' + r' + done'
    ensures held + flight + done == held' + flight' + done'
  {
    forall x: T | x in held + flight + done || x in held' + flight' + done'
      ensures (held + flight + done)[x] == (held' + flight' + done')[x]
    {
      assert (flight' + r)[x] == (flight + r')[x] && (held + r + done)[x] == (held' + r' + done')[x];
    }
  }

  lemma {:induction false} WorkQueue(s: State, i: nat, s': State)
    requires i < |s.workers| && WorkStep(s, i) == Some(s') && QueueInv(s)
    ensures QueueInv(s')
  {
    var pc, pc' := s.workers[i], s'.workers[i];
    PopConserves(s, pc);
    TakenIsRun(s, pc, pc', false);
    InFlightUpdate(s.workers, i, pc', false);
    hide NextPc, InFlight, Popped, RunBy, Taken;
    Balance(multiset(s.pool.tasks), InFlight(s.workers, false), s.done, RunBy(pc, false),
            multiset(s'.pool.tasks), InFlight(s'.workers, false), s'.done, RunBy(pc', false));
  }

  lemma {:induction false} WorkTimed(s: State, i: nat, s': State)
    requires i < |s.workers| && WorkStep(s, i) == Some(s') && TimedInv(s)
    ensures TimedInv(s')
  {
    var pc, pc' := s.workers[i], s'.workers[i];
    PopConserves(s, pc);
    TakenIsRun(s, pc, pc', true);
    InFlightUpdate(s.workers, i, pc', true);
    hide NextPc, InFlight, Popped, RunBy, TasksOf, Taken;
    Balance(TasksOf(s.pool.timers), InFlight(s.workers, true), s.ran, RunBy(pc, true),
            TasksOf(s'.pool.timers), InFlight(s'.workers, true), s'.ran, RunBy(pc', true));
  }

  lemma {:induction false} WorkLate(s: State, i: nat, s': State)
    requires i < |s.workers| && WorkStep(s, i) == Some(s') && LateInv(s)
    ensures LateInv(s')
  {
    WorkMoves(s, s.workers[i], s'.workers[i]);
    hide NextPc;
  }

  lemma {:induction false} PoppedParts(pool: Pool, now: int)
    ensures Popped(pool, now).0.None? ==> Popped(pool, now).1 == pool && pool.tasks == []
    ensures |pool.tasks| > 0 ==> var (task, rest) := Popped(pool, now);
      && task.Some? && |pool.tasks| == |rest.tasks| + 1 && rest.timers == pool.timers
      && multiset(pool.tasks) == multiset(rest.tasks) + multiset{task.value}
    ensures |pool.tasks| == 0 && Popped(pool, now).0.Some? ==> var (task, rest) := Popped(pool, now);
      && rest.tasks == []
      && TasksOf(pool.timers) == TasksOf(rest.timers) + multiset{task.value}
  {
    if |pool.tasks| > 0 {
      assert pool.tasks == [pool.tasks[0]] + pool.tasks[1..];
    }
  }

  lemma {:induction false} WorkKeeps(s: State, i: nat, s': State)
    requires Inv(s) && i < |s.workers| && WorkStep(s, i) == Some(s')
    ensures Inv(s')
  {
    WorkLock(s, i, s');
    WorkWake(s, i, s');
    WorkStop(s, i, s');
    WorkQueue(s, i, s');
    WorkTimed(s, i, s');
    WorkLate(s, i, s');
  }

  /** A step that only wakes workers keeps the accounts. */
  lemma {:induction false} WokenAccounts(s: State, s': State)
    requires QueueInv(s) && TimedInv(s) && LateInv(s)
    requires s'.pool == s.pool && s'.intake == s.intake && s'.done == s.done && s'.ran == s.ran
    requires SameButWoken(s'.workers, s.workers)
    ensures QueueInv(s') && TimedInv(s') && LateInv(s')
  {
    var a, b := s'.workers, s.workers;
    assert InFlight(a, false) == InFlight(b, false) && InFlight(a, true) == InFlight(b, true) by {
      InFlightSame(a, b, false);
      InFlightSame(a, b, true);
    }
    assert AllExited(a) <==> AllExited(b);
    hide InFlight, TasksOf, AllExited;
  }

  lemma {:induction false} WakeOneControl(s: State, j: nat, s': State)
    requires LockInv(s) && WakeInv(s) && StopInv(s)
    requires j < |s.workers| && s.workers[j].Parked? && s'.workers == s.workers[j := Woken]
    requires s'.pool == s.pool && s'.go == s.go && (s'.lock == s.lock || (s.lock.NotifyingOne? && s'.lock.Free?))
    ensures LockInv(s') && WakeInv(s') && StopInv(s')
  {
    CountIdleUpdate(s.workers, j, Woken);
    hide CountIdle;
  }

  lemma {:induction false} WakeOneKeeps(s: State, j: nat, s': State)
    requires Inv(s) && j < |s.workers| && s.workers[j].Parked?
    requires s' == Goto(s, j, Woken) || (s.lock.NotifyingOne? && s' == Goto(s.(lock := Free), j, Woken))
    ensures Inv(s')
  {
    hide LockInv, WakeInv, StopInv, QueueInv, TimedInv, LateInv;
    WokenAccounts(s, s');
    WakeOneControl(s, j, s');
  }

  lemma {:induction false} MoveAcross<T>(a: multiset<T>, a': multiset<T>, x: multiset<T>, b: multiset<T>,
                                         c: multiset<T>, d: multiset<T>)
    requires a == a' + x
    ensures a + b + c + d == a' + b + c + (d + x)
  {
  }

  lemma {:induction false} PushTaskQueue(s: State, task: TaskId, s': State)
    requires QueueInv(s) && Apply(s, PushTask(task)) == Some(s')
    ensures QueueInv(s')
  {
  }

  lemma {:induction false} PushTaskControl(s: State, task: TaskId, s': State)
    requires LockInv(s) && WakeInv(s) && StopInv(s) && LateInv(s) && Apply(s, PushTask(task)) == Some(s')
    ensures LockInv(s') && WakeInv(s') && StopInv(s') && LateInv(s')
  {
    hide CountIdle;
  }

  lemma {:induction false} PushTaskKeeps(s: State, task: TaskId, s': State)
    requires Inv(s) && Apply(s, PushTask(task)) == Some(s')
    ensures Inv(s')
  {
    PushTaskQueue(s, task, s');
    PushTaskControl(s, task, s');
    hide LockInv, WakeInv, StopInv, LateInv, QueueInv, InFlight, TasksOf;
  }

  lemma {:induction false} UnlockKeeps(s: State)
    requires Inv(s) && s.lock.NotifyingOne? && !SomeParked(s.workers)
    ensures Inv(s.(lock := Free))
  {
    hide InFlight, TasksOf, CountIdle;
  }

  lemma {:induction false} WakeAllControl(s: State, s': State)
    requires LockInv(s) && StopInv(s) && s.lock.NotifyingAll?
    requires s'.pool == s.pool && s'.go == s.go && s'.lock.Free? && s'.workers == WakeAll(s.workers)
    ensures LockInv(s') && WakeInv(s') && StopInv(s')
  {
    hide CountIdle;
  }

  lemma {:induction false} NotifyAllKeeps(s: State, s': State)
    requires Inv(s) && Apply(s, NotifyAll) == Some(s')
    ensures Inv(s')
  {
    hide LockInv, WakeInv, StopInv, QueueInv, TimedInv, LateInv;
    WokenAccounts(s, s');
    WakeAllControl(s, s');
  }

  lemma {:induction false} StopKeeps(s: State, s': State)
    requires Inv(s) && Apply(s, Stop) == Some(s')
    ensures Inv(s')
  {
    hide InFlight, TasksOf, CountIdle;
  }

  /** A step that touches only the timers. */
  lemma {:induction false} TimersOnly(s: State, s': State)
    requires Inv(s) && s'.workers == s.workers && s'.pool.tasks == s.pool.tasks && s'.go == s.go
    requires s'.intake.pushed == s.intake.pushed && s'.intake.late == s.intake.late && s'.done == s.done
    requires s'.lock == s.lock || (s.lock.Free? && s'.lock.NotifyingAll?)
    ensures LockInv(s') && WakeInv(s') && StopInv(s') && QueueInv(s') && LateInv(s')
  {
    hide InFlight, TasksOf, CountIdle;
  }

  lemma {:induction false} InsertedTasks(timers: seq<Timer>, t: Timer)
    ensures TasksOf(Inserted(timers, t)) == TasksOf(timers) + multiset{t.task}
  {
    InsertedKeeps(timers, t);
    assert multiset(timers + [t]) == multiset(Inserted(timers, t));
    TasksOfPermuted(Inserted(timers, t), timers + [t]);
    assert (timers + [t])[..|timers|] == timers;
  }

  lemma {:induction false} PushTimerKeeps(s: State, t: Timer, s': State)
    requires Inv(s) && Apply(s, PushTimer(t)) == Some(s')
    ensures Inv(s')
  {
    TimersOnly(s, s');
    InsertedTasks(s.pool.timers, t);
    hide InFlight, TasksOf, Inserted, WakeInv, StopInv, QueueInv, LateInv, LockInv;
  }

  lemma {:induction false} CancelTimed(s: State, task: TaskId, s': State)
    requires TimedInv(s) && Apply(s, CancelTimer(task)) == Some(s')
    ensures TimedInv(s')
  {
    hide InFlight, TasksOf, IndexOf, Removed;
    var timers, i := s.pool.timers, IndexOf(s.pool.timers, task);
    if i < |timers| {
      RemovedKeeps(timers, i);
      MoveAcross(TasksOf(timers), TasksOf(s'.pool.timers), multiset{task},
                 InFlight(s.workers, true), s.ran, s.intake.cancelled);
    }
  }

  lemma {:induction false} CancelKeeps(s: State, task: TaskId, s': State)
    requires Inv(s) && Apply(s, CancelTimer(task)) == Some(s')
    ensures Inv(s')
  {
    hide TimedInv, WakeInv, StopInv, QueueInv, LateInv, LockInv, IndexOf, Removed;
    TimersOnly(s, s');
    CancelTimed(s, task, s');
  }

  lemma {:induction false} DelayKeeps(s: State, task: TaskId, deadline: int, s': State)
    requires Inv(s) && Apply(s, DelayTimer(task, deadline)) == Some(s')
    ensures Inv(s')
  {
    TimersOnly(s, s');
    var timers, i := s.pool.timers, IndexOf(s.pool.timers, task);
    if i < |timers| {
      DelayedTasks(timers, task, deadline);
    }
    hide InFlight, TasksOf, WakeInv, StopInv, QueueInv, LateInv, LockInv;
  }

  lemma {:induction false} DelayedTasks(timers: seq<Timer>, task: TaskId, deadline: int)
    requires IndexOf(timers, task) < |timers|
    ensures TasksOf(Delayed(timers, task, deadline)) == TasksOf(timers)
  {
    var i := IndexOf(timers, task);
    var t, rest := Timer(deadline, task), Removed(timers, i);
    DelayedKeeps(timers, task, deadline);
    RemovedKeeps(timers, i);
    assert multiset(rest + [t]) == multiset(Delayed(timers, task, deadline));
    TasksOfPermuted(Delayed(timers, task, deadline), rest + [t]);
    assert (rest + [t])[..|rest|] == rest;
  }

  /** Every step of any thread keeps the invariant. */
  lemma {:induction false} StepKeeps(s: State, step: Step, s': State)
    requires Inv(s) && Apply(s, step) == Some(s')
    ensures Inv(s')
  {
    match step
    case Work(i) => WorkKeeps(s, i, s');
    case TimeOut(i) => WakeOneKeeps(s, i, s');
    case PushTask(task) => PushTaskKeeps(s, task, s');
    case NotifyOne(j) =>
      if SomeParked(s.workers) {
        WakeOneKeeps(s, j, s');
      } else {
        UnlockKeeps(s);
      }
    case PushTimer(t) => PushTimerKeeps(s, t, s');
    case Stop => StopKeeps(s, s');
    case NotifyAll => NotifyAllKeeps(s, s');
    case CancelTimer(task) => CancelKeeps(s, task, s');
    case DelayTimer(task, deadline) => DelayKeeps(s, task, deadline, s');
    case Tick(now) =>
  }

  // ---- Every run ----

  /** The invariant holds after every run. */
  lemma {:induction false} RunInv(threads: nat, now: int, steps: seq<Step>, s: State)
    requires Exec(Init(threads, now), steps) == Some(s)
    ensures Inv(s)
    decreases |steps|
  {
    hide Inv, Apply;
    if |steps| == 0 {
      InitInv(threads, now);
    } else {
      var front := steps[..|steps| - 1];
      var before := Exec(Init(threads, now), front).value;
      RunInv(threads, now, front, before);
      StepKeeps(before, steps[|steps| - 1], s);
    }
  }

  /** No lost wakeup, in any interleaving: while a worker is parked and no notification
      is on its way, each queued task has an awake idle worker of its own. */
  lemma {:induction false} NoLostWakeup(threads: nat, now: int, steps: seq<Step>, s: State)
    requires Exec(Init(threads, now), steps) == Some(s)
    requires SomeParked(s.workers) && !s.lock.NotifyingOne?
    ensures |s.pool.tasks| <= |set i: nat | i < |s.workers| && Idle(s.workers[i])|
  {
    RunInv(threads, now, steps, s);
    CountIdleIsCard(s.workers);
    assert Where(s.workers, Idle) == set i: nat | i < |s.workers| && Idle(s.workers[i]);
  }

  /** stop() has been called. */
  ghost predicate Stopped(steps: seq<Step>) {
    exists k :: 0 <= k < |steps| && steps[k].Stop?
  }

  /** The workers are told to leave exactly when stop() has been called. */
  lemma {:induction false} StoppedIff(threads: nat, now: int, steps: seq<Step>, s: State)
    requires Exec(Init(threads, now), steps) == Some(s)
    ensures !s.go <==> Stopped(steps)
    decreases |steps|
  {
    if |steps| > 0 {
      var front, last := steps[..|steps| - 1], steps[|steps| - 1];
      var before := Exec(Init(threads, now), front).value;
      StoppedIff(threads, now, front, before);
      StepStops(before, last, s);
      hide Exec, Apply;
      StoppedSnoc(steps);
    }
  }

  lemma {:induction false} StepStops(s: State, step: Step, s': State)
    requires Apply(s, step) == Some(s')
    ensures !s'.go <==> !s.go || step.Stop?
  {
  }

  lemma {:induction false} StoppedSnoc(steps: seq<Step>)
    requires |steps| > 0
    ensures Stopped(steps) <==> Stopped(steps[..|steps| - 1]) || steps[|steps| - 1].Stop?
  {
    var n := |steps| - 1;
    if Stopped(steps) {
      var k :| 0 <= k < |steps| && steps[k].Stop?;
      assert k < n ==> steps[..n][k].Stop?;
    }
    if Stopped(steps[..n]) {
      var k :| 0 <= k < n && steps[..n][k].Stop?;
      assert steps[k].Stop?;
    }
  }

  /** After stop() has notified, no worker is parked, then or later. */
  lemma {:induction false} StopWakesAll(threads: nat, now: int, steps: seq<Step>, s: State)
    requires Exec(Init(threads, now), steps) == Some(s)
    requires Stopped(steps) && !s.lock.NotifyingAll?
    ensures !SomeParked(s.workers)
  {
    StoppedIff(threads, now, steps, s);
    RunInv(threads, now, steps, s);
  }

  // ---- Longer runs ----

  lemma {:induction false} NothingMore<T>(a: multiset<T>)
    ensures a + multiset{} == a
  {
  }

  lemma {:induction false} ExecSnoc(s: State, front: seq<Step>, step: Step, before: State, after: State)
    requires Exec(s, front) == Some(before) && Apply(before, step) == Some(after)
    ensures Exec(s, front + [step]) == Some(after)
  {
    assert (front + [step])[..|front|] == front;
  }

  lemma {:induction false} ExecConcat(s: State, a: seq<Step>, middle: State, b: seq<Step>)
    requires Exec(s, a) == Some(middle)
    ensures Exec(s, a + b) == Exec(middle, b)
    decreases |b|
  {
    hide Apply;
    if |b| == 0 {
      assert a + b == a;
    } else {
      var front := b[..|b| - 1];
      ExecConcat(s, a, middle, front);
      assert (a + b)[..|a + b| - 1] == a + front;
    }
  }
}
