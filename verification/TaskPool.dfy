// The task pool of task_pool.h: a FIFO of immediate tasks and a vector of timers kept
// with the smallest deadline at the back.

module TaskPool {
  import opened Wrappers

  /** A task is known by the address of its runnable. */
  type TaskId = nat

  datatype Timer = Timer(deadline: int, task: TaskId)

  datatype Pool = Pool(tasks: seq<TaskId>, timers: seq<Timer>)

  /** Deadlines do not increase towards the back. */
  ghost predicate Sorted(timers: seq<Timer>) {
    forall i, j :: 0 <= i < j < |timers| ==> timers[i].deadline >= timers[j].deadline
  }

  // ---- The operations on values ----

  /** pushDelayed: before the first timer with a smaller deadline. */
  function Inserted(timers: seq<Timer>, t: Timer): seq<Timer> {
    if |timers| == 0 then [t]
    else if timers[0].deadline < t.deadline then [t] + timers
    else [timers[0]] + Inserted(timers[1..], t)
  }

  /** The first timer of the task, or the number of timers. */
  function IndexOf(timers: seq<Timer>, task: TaskId): (i: nat)
    ensures i <= |timers|
    ensures i < |timers| ==> timers[i].task == task
    ensures forall k :: 0 <= k < i ==> timers[k].task != task
  {
    if |timers| == 0 || timers[0].task == task then 0 else 1 + IndexOf(timers[1..], task)
  }

  function Removed(timers: seq<Timer>, i: nat): seq<Timer>
    requires i < |timers|
  {
    timers[..i] + timers[i + 1..]
  }

  /** One pass of neighbour swaps from `i` to the front. */
  function Bubbled(timers: seq<Timer>, i: nat): (r: seq<Timer>)
    requires i < |timers|
    ensures |r| == |timers|
    decreases i
  {
    if i == 0 then timers
    else Bubbled(if timers[i].deadline > timers[i - 1].deadline
                 then timers[i := timers[i - 1]][i - 1 := timers[i]] else timers, i - 1)
  }

  /** delay: a new deadline, and a pass towards the front only. */
  function Delayed(timers: seq<Timer>, task: TaskId, deadline: int): seq<Timer> {
    var i := IndexOf(timers, task);
    if i == |timers| then timers else Bubbled(timers[i := Timer(deadline, task)], i)
  }

  predicate Due(pool: Pool, now: int) {
    |pool.timers| > 0 && pool.timers[|pool.timers| - 1].deadline <= now
  }

  predicate Ready(pool: Pool, now: int) {
    |pool.tasks| > 0 || Due(pool, now)
  }

  function Next(pool: Pool): Option<int> {
    if |pool.timers| == 0 then None else Some(pool.timers[|pool.timers| - 1].deadline)
  }

  /** pop: the front of the FIFO, or else the back timer once it is due. */
  function Popped(pool: Pool, now: int): (Option<TaskId>, Pool) {
    if |pool.tasks| > 0 then (Some(pool.tasks[0]), pool.(tasks := pool.tasks[1..]))
    else if Due(pool, now) then
      var last := |pool.timers| - 1;
      (Some(pool.timers[last].task), pool.(timers := pool.timers[..last]))
    else (None, pool)
  }

  // ---- Order and conservation ----

  lemma {:induction false} InsertedSplit(timers: seq<Timer>, t: Timer, i: nat)
    requires i <= |timers| && (i < |timers| ==> timers[i].deadline < t.deadline)
    requires forall k :: 0 <= k < i ==> timers[k].deadline >= t.deadline
    ensures Inserted(timers, t) == timers[..i] + [t] + timers[i..]
  {
    if i > 0 {
      InsertedSplit(timers[1..], t, i - 1);
      assert timers[..i] == [timers[0]] + timers[1..][..i - 1];
      assert timers[1..][i - 1..] == timers[i..];
    }
  }

  /** pushDelayed keeps the order, latest deadline first. */
  lemma {:induction false} InsertedSorted(timers: seq<Timer>, t: Timer)
    requires Sorted(timers)
    ensures Sorted(Inserted(timers, t))
  {
    if |timers| > 0 && timers[0].deadline >= t.deadline {
      InsertedSorted(timers[1..], t);
      InsertedBound(timers[1..], t, timers[0].deadline);
    }
  }

  /** pushDelayed adds the timer and nothing else. */
  lemma {:induction false} InsertedKeeps(timers: seq<Timer>, t: Timer)
    ensures multiset(Inserted(timers, t)) == multiset(timers) + multiset{t}
  {
    if |timers| > 0 {
      assert timers == [timers[0]] + timers[1..];
      if timers[0].deadline >= t.deadline {
        InsertedKeeps(timers[1..], t);
      }
    }
  }

  lemma {:induction false} InsertedBound(timers: seq<Timer>, t: Timer, bound: int)
    requires t.deadline <= bound && forall k :: 0 <= k < |timers| ==> timers[k].deadline <= bound
    ensures forall k :: 0 <= k < |Inserted(timers, t)| ==> Inserted(timers, t)[k].deadline <= bound
  {
    if |timers| > 0 {
      InsertedBound(timers[1..], t, bound);
    }
  }

  /** Taking a timer out keeps the order and the others. */
  lemma {:induction false} RemovedSorted(timers: seq<Timer>, i: nat)
    requires i < |timers| && Sorted(timers)
    ensures Sorted(Removed(timers, i))
    ensures multiset(timers) == multiset(Removed(timers, i)) + multiset{timers[i]}
  {
    assert timers == timers[..i] + ([timers[i]] + timers[i + 1..]);
  }

  lemma {:induction false} InsertedSnoc(timers: seq<Timer>, y: Timer, t: Timer)
    requires y.deadline < t.deadline
    ensures Inserted(timers + [y], t) == Inserted(timers, t) + [y]
  {
    if |timers| > 0 {
      InsertedSnoc(timers[1..], y, t);
      assert (timers + [y])[1..] == timers[1..] + [y];
    }
  }

  lemma {:induction false} InsertedAtEnd(timers: seq<Timer>, t: Timer)
    requires forall k :: 0 <= k < |timers| ==> timers[k].deadline >= t.deadline
    ensures Inserted(timers, t) == timers + [t]
  {
    InsertedSplit(timers, t, |timers|);
    assert timers[..|timers|] == timers && timers[|timers|..] == [];
  }

  /** The pass puts the timer where pushDelayed would have put it among those before it. */
  lemma {:induction false} BubbledIsInserted(front: seq<Timer>, x: Timer, tail: seq<Timer>)
    requires Sorted(front)
    ensures Bubbled(front + [x] + tail, |front|) == Inserted(front, x) + tail
    decreases |front|
  {
    var timers := front + [x] + tail;
    if |front| > 0 {
      var f, y := front[..|front| - 1], front[|front| - 1];
      if x.deadline > y.deadline {
        assert timers[|front| := y][|front| - 1 := x] == f + [x] + ([y] + tail);
        BubbledIsInserted(f, x, [y] + tail);
        InsertedSnoc(f, y, x);
        assert front == f + [y];
      } else {
        assert timers == f + [y] + ([x] + tail);
        BubbledIsInserted(f, y, [x] + tail);
        InsertedAtEnd(f, y);
        InsertedAtEnd(front, x);
      }
    }
  }

  lemma {:induction false} JoinSorted(front: seq<Timer>, tail: seq<Timer>)
    requires Sorted(front) && Sorted(tail)
    ensures Sorted(front + tail)
      <==> forall j, k :: 0 <= j < |front| && 0 <= k < |tail| ==> front[j].deadline >= tail[k].deadline
  {
    if Sorted(front + tail) {
      forall j, k | 0 <= j < |front| && 0 <= k < |tail| ensures front[j].deadline >= tail[k].deadline {
        assert (front + tail)[j] == front[j] && (front + tail)[|front| + k] == tail[k];
      }
    }
  }

  /** `delay` keeps the order exactly when the new deadline is not earlier than that of
      the timer behind the delayed one. */
  lemma {:induction false} DelayedSortedIff(timers: seq<Timer>, task: TaskId, deadline: int)
    requires Sorted(timers) && IndexOf(timers, task) < |timers|
    ensures var i := IndexOf(timers, task);
      Sorted(Delayed(timers, task, deadline)) <==> i + 1 == |timers| || deadline >= timers[i + 1].deadline
  {
    hide Inserted, Delayed;
    var i := IndexOf(timers, task);
    var t, front, tail := Timer(deadline, task), timers[..i], timers[i + 1..];
    DelayedIsInserted(timers, task, deadline);
    InsertedSorted(front, t);
    JoinSorted(Inserted(front, t), tail);
    assert exists k :: 0 <= k < |Inserted(front, t)| && Inserted(front, t)[k] == t by {
      InsertedKeeps(front, t);
      assert t in multiset(Inserted(front, t));
    }
    if |tail| > 0 && deadline >= tail[0].deadline {
      InsertedAbove(front, t, tail[0].deadline);
    }
  }

  /** Of two timers at 10 and 5 the first is moved up to 3, and stays in front. */
  lemma {:induction false} EarlierDelayUnsorts()
    ensures Sorted([Timer(10, 1), Timer(5, 2)])
    ensures Delayed([Timer(10, 1), Timer(5, 2)], 1, 3) == [Timer(3, 1), Timer(5, 2)]
    ensures !Sorted(Delayed([Timer(10, 1), Timer(5, 2)], 1, 3))
  {
    DelayedFirst([Timer(10, 1), Timer(5, 2)], 3);
    assert [Timer(3, 1), Timer(5, 2)][0].deadline < [Timer(3, 1), Timer(5, 2)][1].deadline;
  }

  lemma {:induction false} DelayedFirst(timers: seq<Timer>, deadline: int)
    requires |timers| > 0
    ensures Delayed(timers, timers[0].task, deadline) == timers[0 := Timer(deadline, timers[0].task)]
  {
  }

  lemma {:induction false} InsertedAbove(timers: seq<Timer>, t: Timer, bound: int)
    requires t.deadline >= bound && forall k :: 0 <= k < |timers| ==> timers[k].deadline >= bound
    ensures forall k :: 0 <= k < |Inserted(timers, t)| ==> Inserted(timers, t)[k].deadline >= bound
  {
    if |timers| > 0 {
      InsertedAbove(timers[1..], t, bound);
    }
  }

  lemma {:induction false} DelayedIsInserted(timers: seq<Timer>, task: TaskId, deadline: int)
    requires Sorted(timers) && IndexOf(timers, task) < |timers|
    ensures var i := IndexOf(timers, task);
      Delayed(timers, task, deadline) == Inserted(timers[..i], Timer(deadline, task)) + timers[i + 1..]
  {
    var i := IndexOf(timers, task);
    var t := Timer(deadline, task);
    assert timers[i := t] == timers[..i] + [t] + timers[i + 1..];
    BubbledIsInserted(timers[..i], t, timers[i + 1..]);
  }

  /** Delaying changes one deadline and nothing else, sorted or not. */
  lemma {:induction false} DelayedKeeps(timers: seq<Timer>, task: TaskId, deadline: int)
    requires IndexOf(timers, task) < |timers|
    ensures multiset(Delayed(timers, task, deadline))
      == multiset(Removed(timers, IndexOf(timers, task))) + multiset{Timer(deadline, task)}
  {
    hide Bubbled, IndexOf;
    var i := IndexOf(timers, task);
    var changed := timers[i := Timer(deadline, task)];
    BubbledKeeps(changed, i);
    assert changed == timers[..i] + ([Timer(deadline, task)] + timers[i + 1..]);
  }

  lemma {:induction false} BubbledKeeps(timers: seq<Timer>, i: nat)
    requires i < |timers|
    ensures multiset(Bubbled(timers, i)) == multiset(timers)
    decreases i
  {
    if i > 0 {
      BubbledKeeps(if timers[i].deadline > timers[i - 1].deadline
                   then timers[i := timers[i - 1]][i - 1 := timers[i]] else timers, i - 1);
    }
  }

  /** The tasks of a list of timers. */
  function TasksOf(timers: seq<Timer>): multiset<TaskId> {
    if |timers| == 0 then multiset{} else TasksOf(timers[..|timers| - 1]) + multiset{timers[|timers| - 1].task}
  }

  /** Everything the pool still holds. */
  function Held(pool: Pool): multiset<TaskId> {
    multiset(pool.tasks) + TasksOf(pool.timers)
  }

  ghost predicate Earliest(timers: seq<Timer>, t: Timer) {
    t in timers && forall u :: u in timers ==> t.deadline <= u.deadline
  }

  /** pop yields a task exactly when one is ready, takes just that one out, prefers
      the immediate tasks in order, and otherwise yields an earliest timer, which is due. */
  lemma {:induction false} PoppedMeaning(pool: Pool, now: int)
    requires Sorted(pool.timers)
    ensures var (task, rest) := Popped(pool, now);
      && (task.Some? <==> Ready(pool, now))
      && Sorted(rest.timers)
      && Held(pool) == Held(rest) + (if task.Some? then multiset{task.value} else multiset{})
      && (|pool.tasks| > 0 ==> task == Some(pool.tasks[0]) && rest.timers == pool.timers)
      && (|pool.tasks| == 0 && task.Some? ==>
        exists t: Timer :: Earliest(pool.timers, t) && t.task == task.value && t.deadline <= now)
      && (|pool.tasks| == 0 && task.None? ==> forall u :: u in pool.timers ==> u.deadline > now)
  {
    if |pool.tasks| > 0 {
      assert pool.tasks == [pool.tasks[0]] + pool.tasks[1..];
    } else if |pool.timers| > 0 {
      assert Earliest(pool.timers, pool.timers[|pool.timers| - 1]);
    }
  }

  // ---- The class ----

  /** Time is passed in: what steady_clock::now() returned inside the call. */
  class TaskPool {
    var tasks: seq<TaskId>
    var timers: seq<Timer>

    constructor ()
      ensures State() == Pool([], [])
    {
      tasks, timers := [], [];
    }

    function State(): Pool
      reads this
    {
      Pool(tasks, timers)
    }

    method Push(task: TaskId)
      modifies this
      ensures State() == old(State()).(tasks := old(tasks) + [task])
    {
      tasks := tasks + [task];
    }

    method PushDelayed(t: Timer)
      modifies this
      ensures State() == old(State()).(timers := Inserted(old(timers), t))
    {
      var it := 0;
      while it < |timers|
        invariant it <= |timers|
        invariant forall k :: 0 <= k < it ==> timers[k].deadline >= t.deadline
      {
        if timers[it].deadline < t.deadline {
          break;
        }
        it := it + 1;
      }
      InsertedSplit(timers, t, it);
      timers := timers[..it] + [t] + timers[it..];
    }

    /** The search loop of delay and cancel. */
    method Find(task: TaskId) returns (it: nat)
      ensures it == IndexOf(timers, task)
    {
      it := 0;
      while it < |timers|
        invariant it <= |timers|
        invariant IndexOf(timers, task) == it + IndexOf(timers[it..], task)
      {
        if timers[it].task == task {
          break;
        }
        it := it + 1;
      }
    }

    method Delay(task: TaskId, deadline: int)
      modifies this
      ensures State() == old(State()).(timers := Delayed(old(timers), task, deadline))
    {
      var it := Find(task);
      if it == |timers| {
        return;
      }
      timers := timers[it := timers[it].(deadline := deadline)];
      ghost var done := Bubbled(timers, it);
      while it > 0
        invariant it < |timers| && Bubbled(timers, it) == done
        invariant tasks == old(tasks)
      {
        if timers[it].deadline > timers[it - 1].deadline {
          timers := timers[it := timers[it - 1]][it - 1 := timers[it]];
        }
        it := it - 1;
      }
    }

    method Cancel(task: TaskId) returns (found: bool)
      modifies this
      ensures found <==> IndexOf(old(timers), task) < |old(timers)|
      ensures State() == old(State()).(timers :=
        if found then Removed(old(timers), IndexOf(old(timers), task)) else old(timers))
    {
      var it := Find(task);
      if it == |timers| {
        return false;
      }
      timers := timers[..it] + timers[it + 1..];
      return true;
    }

    method PopTask(now: int) returns (task: Option<TaskId>)
      modifies this
      ensures (task, State()) == Popped(old(State()), now)
    {
      if |tasks| > 0 {
        task := Some(tasks[0]);
        tasks := tasks[1..];
        return;
      }
      if |timers| > 0 && timers[|timers| - 1].deadline <= now {
        task := Some(timers[|timers| - 1].task);
        timers := timers[..|timers| - 1];
        return;
      }
      return None;
    }

    /** ready: whether pop would yield a task. */
    method IsReady(now: int) returns (ready: bool)
      ensures ready <==> Popped(State(), now).0.Some?
    {
      return |tasks| > 0 || (|timers| > 0 && timers[|timers| - 1].deadline <= now);
    }

    /** next: the least deadline, when the timers are in order. */
    method NextDeadline() returns (deadline: Option<int>)
      ensures deadline == Next(State())
      ensures deadline.None? <==> timers == []
      ensures deadline.Some? ==> exists t :: t in timers && t.deadline == deadline.value
      ensures deadline.Some? && Sorted(timers) ==> forall t :: t in timers ==> deadline.value <= t.deadline
    {
      if |timers| == 0 {
        return None;
      }
      return Some(timers[|timers| - 1].deadline);
    }
  }
}
