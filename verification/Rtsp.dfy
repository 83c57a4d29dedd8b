// The session slots of the RTSP server: rtsp_server_t and the slot effects of ANNOUNCE
// (rtsp.cpp), with the admission check that /launch and /resume make (nvhttp.cpp).

module Rtsp {
  import opened Wrappers

  /** A slot of _session_slots. */
  datatype Slot = Free | Running | Stopping

  /** The server between two critical sections. `holding` counts the ANNOUNCE requests that
      have popped the launch event and not yet found a slot or given up; `admitted` says that
      the HTTP thread has made the admission check and not yet used or dropped it. */
  datatype Server = Server(
    channels: nat,
    slotCount: int,
    pending: Option<nat>,
    raisedTimeout: int,
    slots: seq<Slot>,
    holding: nat,
    admitted: bool)

  /** rtsp_server_t::bind */
  function Bound(channels: nat): Server {
    Server(channels, channels, None, 0, seq(channels, _ => Free), 0, false)
  }

  function Occupied(slots: seq<Slot>): (n: nat)
    ensures n <= |slots|
  {
    if |slots| == 0 then 0
    else Occupied(slots[..|slots| - 1]) + if slots[|slots| - 1].Free? then 0 else 1
  }

  /** session_count, without the clearing before it */
  function SessionCount(s: Server): int {
    s.channels - s.slotCount
  }

  function Pending(s: Server): nat {
    if s.pending.Some? then 1 else 0
  }

  // ---- The operations ----

  /** session_raise */
  function Raised(s: Server, launch: nat, now: int): Server {
    if s.raisedTimeout > now && s.pending.Some? then s
    else s.(raisedTimeout := now + 10, slotCount := s.slotCount - 1, pending := Some(launch))
  }

  function FreeIf(slot: Slot, all: bool): Slot {
    if slot.Stopping? || (all && slot.Running?) then Free else slot
  }

  function Freed(slots: seq<Slot>, all: bool): (r: seq<Slot>)
    ensures |r| == |slots|
  {
    seq(|slots|, i requires 0 <= i < |slots| => FreeIf(slots[i], all))
  }

  /** A launch event that timed out is discarded, and its slot given back. */
  function Discarded(s: Server, now: int): Server {
    if s.raisedTimeout < now && s.pending.Some? then s.(pending := None, slotCount := s.slotCount + 1) else s
  }

  /** clear(all) */
  function Cleared(s: Server, all: bool, now: int): Server {
    var d := Discarded(s, now);
    var slots := Freed(d.slots, all);
    d.(slots := slots, slotCount := d.slotCount + (Occupied(d.slots) - Occupied(slots)))
  }

  /** The first empty slot, where accept puts the session. */
  function FirstFree(slots: seq<Slot>): (k: Option<nat>)
    ensures k.Some? ==> k.value < |slots| && slots[k.value].Free? && forall i :: 0 <= i < k.value ==> !slots[i].Free?
    ensures k.None? ==> forall i :: 0 <= i < |slots| ==> !slots[i].Free?
  {
    if |slots| == 0 then None
    else if slots[0].Free? then Some(0)
    else
      var k := FirstFree(slots[1..]);
      assert k.None? ==> forall i :: 1 <= i < |slots| ==> slots[i] == slots[1..][i - 1];
      if k.Some? then Some(k.value + 1) else None
  }

  // ---- Runs ----

  /** One critical section of one of the threads. */
  datatype Step =
    | Check(now: int)                // the admission check of /launch and /resume
    | Drop                           // the request is refused for another reason
    | Raise(launch: nat, now: int)   // launch_session_raise
    | Clear(all: bool, now: int)     // the RTSP thread's clearing
    | Pop                            // ANNOUNCE takes the launch event
    | Reject                         // ANNOUNCE answers 400
    | Accept                         // ANNOUNCE asks for a slot
    | StartFails(k: nat)             // session::start fails, and the slot is cleared
    | Stops(k: nat)                  // a session begins to stop

  predicate Enabled(s: Server, step: Step) {
    match step
    case Check(_) => !s.admitted
    case Pop => s.pending.Some?
    case Reject => s.holding > 0
    case Accept => s.holding > 0
    case StartFails(k) => k < |s.slots| && s.slots[k].Running?
    case Stops(k) => k < |s.slots| && s.slots[k].Running?
    case _ => true
  }

  function Next(s: Server, step: Step): Server
    requires Enabled(s, step)
  {
    match step
    case Check(now) =>
      var c := Cleared(s, false, now);
      c.(admitted := SessionCount(c) != c.channels)
    case Drop => s.(admitted := false)
    case Raise(launch, now) => Raised(s, launch, now).(admitted := false)
    case Clear(all, now) => Cleared(s, all, now)
    case Pop => s.(pending := None, holding := s.holding + 1)
    case Reject => s.(holding := s.holding - 1)
    case Accept =>
      var k := FirstFree(s.slots);
      s.(holding := s.holding - 1, slots := if k.Some? then s.slots[k.value := Running] else s.slots)
    case StartFails(k) => s.(slots := s.slots[k := Free], slotCount := s.slotCount + 1)
    case Stops(k) => s.(slots := s.slots[k := Stopping])
  }

  /** The slots a step takes out of the account: an ANNOUNCE that gives up after popping
      the event, and an event that overwrites a pending one. */
  function Leaks(s: Server, step: Step): nat {
    match step
    case Reject => 1
    case Accept => if FirstFree(s.slots).None? then 1 else 0
    case Raise(_, now) => if s.pending.Some? && s.raisedTimeout <= now then 1 else 0
    case _ => 0
  }

  /** States and steps of a run of the server. */
  datatype Run = Start(channels: nat) | Extend(before: Run, step: Step)

  function Reached(run: Run): Option<Server> {
    match run
    case Start(channels) => Some(Bound(channels))
    case Extend(before, step) =>
      var s := Reached(before);
      if s.Some? && Enabled(s.value, step) then Some(Next(s.value, step)) else None
  }

  predicate Possible(run: Run) {
    Reached(run).Some?
  }

  function Last(run: Run): Server
    requires Possible(run)
  {
    Reached(run).value
  }

  function Leaked(run: Run): nat
    requires Possible(run)
  {
    match run
    case Start(_) => 0
    case Extend(before, step) => Leaked(before) + Leaks(Last(before), step)
  }

  /** Every raise follows an admission check that found a slot. */
  predicate Checked(run: Run)
    requires Possible(run)
  {
    match run
    case Start(_) => true
    case Extend(before, step) => Checked(before) && (step.Raise? ==> Last(before).admitted)
  }

  // ---- Slot arithmetic ----

  lemma {:induction false} OccupiedSet(slots: seq<Slot>, k: nat, slot: Slot)
    requires k < |slots|
    ensures Occupied(slots[k := slot])
      == Occupied(slots) - (if slots[k].Free? then 0 else 1) + (if slot.Free? then 0 else 1)
    decreases |slots|
  {
    var n := |slots| - 1;
    if k < n {
      OccupiedSet(slots[..n], k, slot);
      assert slots[k := slot][..n] == slots[..n][k := slot];
    } else {
      assert slots[k := slot][..n] == slots[..n];
    }
  }

  lemma {:induction false} NoneOccupied(channels: nat)
    ensures Occupied(Bound(channels).slots) == 0
  {
    if channels > 0 {
      NoneOccupied(channels - 1);
      assert Bound(channels).slots[..channels - 1] == Bound(channels - 1).slots;
    }
  }

  lemma {:induction false} AllOccupied(slots: seq<Slot>)
    ensures Occupied(slots) == |slots| <==> forall i :: 0 <= i < |slots| ==> !slots[i].Free?
  {
    if |slots| > 0 {
      AllOccupied(slots[..|slots| - 1]);
      assert forall i :: 0 <= i < |slots| - 1 ==> slots[i] == slots[..|slots| - 1][i];
    }
  }

  // ---- Conservation ----

  /** The free slots, the pending event, the ANNOUNCE requests that hold one, the occupied
      slots and the leaks account for every channel. */
  ghost predicate Accounted(s: Server, leaked: nat) {
    && |s.slots| == s.channels
    && s.slotCount + Pending(s) + s.holding + Occupied(s.slots) + leaked == s.channels
  }

  /** Every step moves slots within the account, or leaks what Leaks says. */
  lemma {:induction false} StepAccounts(s: Server, step: Step, leaked: nat)
    requires Accounted(s, leaked) && Enabled(s, step)
    ensures Accounted(Next(s, step), leaked + Leaks(s, step)) && Next(s, step).channels == s.channels
  {
    hide Occupied, FirstFree, Freed;
    match step {
      case Accept =>
        var k := FirstFree(s.slots);
        if k.Some? {
          OccupiedSet(s.slots, k.value, Running);
        }
      case StartFails(k) => OccupiedSet(s.slots, k, Free);
      case Stops(k) => OccupiedSet(s.slots, k, Stopping);
      case _ =>
    }
  }

  /** After every run the account balances with the leaks of the run. */
  lemma {:induction false} RunAccounts(run: Run)
    requires Possible(run)
    ensures Accounted(Last(run), Leaked(run))
  {
    match run {
      case Start(channels) => NoneOccupied(channels);
      case Extend(before, step) =>
        RunAccounts(before);
        StepAccounts(Last(before), step, Leaked(before));
    }
  }

  /** session_count never reports fewer sessions than there are, counting those that are
      being set up; it reports exactly as many when nothing has leaked. */
  lemma {:induction false} CountIsSafe(run: Run)
    requires Possible(run)
    ensures var s := Last(run);
      && Occupied(s.slots) + Pending(s) + s.holding <= SessionCount(s)
      && (Occupied(s.slots) + Pending(s) + s.holding == SessionCount(s) <==> Leaked(run) == 0)
  {
    RunAccounts(run);
  }

  // ---- With the admission check ----

  lemma {:induction false} CheckedStep(s: Server, step: Step)
    requires Enabled(s, step) && s.slotCount >= 0 && (s.admitted ==> s.slotCount >= 1)
    requires step.Raise? ==> s.admitted
    ensures var t := Next(s, step);
      t.slotCount >= 0 && (t.admitted ==> t.slotCount >= 1)
  {
    if step.Check? {
      FreedFewer(s.slots, false);
    } else if step.Clear? {
      FreedFewer(s.slots, step.all);
    }
  }

  lemma {:induction false} FreedFewer(slots: seq<Slot>, all: bool)
    ensures Occupied(Freed(slots, all)) <= Occupied(slots)
  {
    if |slots| > 0 {
      FreedFewer(slots[..|slots| - 1], all);
      assert Freed(slots, all)[..|slots| - 1] == Freed(slots[..|slots| - 1], all);
    }
  }

  /** With the check before every raise the count is nonnegative, and positive while a check stands. */
  lemma {:induction false} CheckedRun(run: Run)
    requires Possible(run) && Checked(run)
    ensures var s := Last(run);
      s.slotCount >= 0 && (s.admitted ==> s.slotCount >= 1)
  {
    if run.Extend? {
      CheckedRun(run.before);
      CheckedStep(Last(run.before), run.step);
    }
  }

  /** With the admission check before every raise, the slot count stays nonnegative, and an
      ANNOUNCE that holds the launch event finds a slot. */
  lemma {:induction false} AnnounceFindsSlot(run: Run)
    requires Possible(run) && Checked(run)
    ensures Last(run).slotCount >= 0
    ensures Last(run).holding > 0 ==> FirstFree(Last(run).slots).Some?
  {
    CheckedRun(run);
    RunAccounts(run);
    AllOccupied(Last(run).slots);
  }

  /** The raise that follows a check leaks exactly when the event that was pending at the
      check has timed out by then: at the very instant of the check when the timeout falls on
      it, since the clearing discards strictly before and the raise keeps strictly after. */
  lemma {:induction false} RaiseLeaksIff(s: Server, check: int, launch: nat, now: int)
    requires Enabled(s, Check(check)) && check <= now
    ensures Leaks(Next(s, Check(check)), Raise(launch, now)) == 1
      <==> s.pending.Some? && check <= s.raisedTimeout <= now
  {
  }

  // ---- Which slots are freed ----

  /** A clearing frees the slots of sessions that are stopping, or all of them, and never
      occupies one. */
  lemma {:induction false} ClearedSlots(s: Server, all: bool, now: int, k: nat)
    requires k < |s.slots|
    ensures var c := Cleared(s, all, now);
      && |c.slots| == |s.slots|
      && c.slots[k] == if s.slots[k] == Running && !all then Running else Free
  {
    hide Occupied;
  }

  /** The step clears. */
  predicate Clears(step: Step) {
    step.Check? || step.Clear?
  }

  /** The step ends session k at once: its start fails, or everything is cleared. */
  predicate Evicts(step: Step, k: nat) {
    step == StartFails(k) || (step.Clear? && step.all)
  }

  /** What each step does to each slot. */
  lemma {:induction false} SlotMoves(s: Server, step: Step, k: nat)
    requires Enabled(s, step) && k < |s.slots|
    ensures |Next(s, step).slots| == |s.slots|
    ensures var after := Next(s, step).slots[k];
      match s.slots[k]
      case Free => after == if step.Accept? && forall i :: 0 <= i < k ==> !s.slots[i].Free? then Running else Free
      case Running => after == if Evicts(step, k) then Free else if step == Stops(k) then Stopping else Running
      case Stopping => after == if Clears(step) then Free else Stopping
  {
    hide Occupied, Cleared, FirstFree;
    match step {
      case Check(now) => ClearedSlots(s, false, now, k);
      case Clear(all, now) => ClearedSlots(s, all, now, k);
      case _ =>
    }
  }

  /** A session in slot k has been told to stop since `run`. */
  predicate ToldToStop(run: Run, later: Run, k: nat) {
    later != run && later.Extend? && (later.step == Stops(k) || ToldToStop(run, later.before, k))
  }

  /** Since `run` nothing has ended session k: no step evicted it, and no clearing followed
      when it had been told to stop. */
  predicate Spared(run: Run, later: Run, k: nat) {
    later == run ||
    (later.Extend? && Spared(run, later.before, k) && !Evicts(later.step, k)
     && !(Clears(later.step) && ToldToStop(run, later.before, k)))
  }

  /** On every run a session keeps its slot until something ends it. */
  lemma {:induction false} SessionStays(run: Run, later: Run, k: nat)
    requires GoesOn(run, later) && Possible(later) && Spared(run, later, k)
    requires Possible(run) && k < |Last(run).slots| && Last(run).slots[k] == Running
    ensures k < |Last(later).slots|
    ensures Last(later).slots[k] == if ToldToStop(run, later, k) then Stopping else Running
  {
    if run != later {
      SessionStays(run, later.before, k);
      hide Next, Enabled;
      SlotMoves(Last(later.before), later.step, k);
      assert !(later.step == Stops(k) && ToldToStop(run, later.before, k)) by { StopsOnce(Last(later.before), k); }
    }
  }

  lemma {:induction false} StopsOnce(s: Server, k: nat)
    ensures Enabled(s, Stops(k)) ==> k < |s.slots| && s.slots[k] == Running
  {
  }

  // ---- What a leak means ----

  /** The later run goes on from the earlier one. */
  predicate GoesOn(run: Run, later: Run) {
    run == later || (later.Extend? && GoesOn(run, later.before))
  }

  lemma {:induction false} EarlierPossible(run: Run, later: Run)
    requires GoesOn(run, later) && Possible(later)
    ensures Possible(run) && Last(run).channels == Last(later).channels
    ensures Leaked(run) <= Leaked(later)
  {
    if run != later {
      EarlierPossible(run, later.before);
      hide Next, Enabled, Leaks;
      RunAccounts(later.before);
      StepAccounts(Last(later.before), later.step, Leaked(later.before));
    }
  }

  /** A leak is for good: with the admission check before every raise, the leaks never
      exceed the channels, and once they reach them there is never a session, a pending event
      or an admission again, although session_count reports that every channel is taken. */
  lemma {:induction false} LeaksAreForGood(run: Run, later: Run)
    requires GoesOn(run, later) && Possible(later) && Checked(later)
    ensures Possible(run) && Leaked(run) <= Leaked(later) <= Last(later).channels == Last(run).channels
    ensures Leaked(run) == Last(run).channels ==>
      var s := Last(later);
      && !s.admitted && SessionCount(s) == s.channels
      && Occupied(s.slots) == 0 && s.pending.None? && s.holding == 0
  {
    hide Reached, Leaked, Checked, Occupied, Accounted, Possible, Last;
    EarlierPossible(run, later);
    CheckedRun(later);
    RunAccounts(later);
    NothingLeft(Last(later), Leaked(later));
  }

  lemma {:induction false} NothingLeft(s: Server, leaked: nat)
    requires Accounted(s, leaked) && s.slotCount >= 0 && (s.admitted ==> s.slotCount >= 1)
    ensures leaked <= s.channels
    ensures leaked == s.channels ==>
      && !s.admitted && SessionCount(s) == s.channels
      && Occupied(s.slots) == 0 && s.pending.None? && s.holding == 0
  {
    hide Occupied;
  }

  /** A run with one more step. */
  lemma {:induction false} OneStep(run: Run, step: Step, s: Server) returns (next: Run)
    requires Reached(run) == Some(s) && Enabled(s, step)
    ensures next == Extend(run, step) && Reached(next) == Some(Next(s, step))
    ensures Leaked(next) == Leaked(run) + Leaks(s, step)
    ensures Checked(next) <==> Checked(run) && (step.Raise? ==> s.admitted)
  {
    next := Extend(run, step);
  }

  /** With one channel, an ANNOUNCE that is refused leaves a server without a session that
      reports one. */
  lemma {:induction false} RefusedAnnounceLeaks() returns (run: Run)
    ensures Possible(run) && Checked(run) && Leaked(run) == 1
    ensures var s := Last(run);
      s.channels == 1 && SessionCount(s) == 1 && s.slots == [Free] && s.pending.None? && s.holding == 0
  {
    hide Reached, Leaked, Checked, Next, Enabled, Leaks, Bound;
    var s := Server(1, 1, None, 0, [Free], 0, false);
    StartRun(1);
    assert Bound(1) == s by { FreshServer(); }
    CheckStep(s, 0);
    run := OneStep(Start(1), Check(0), s);
    RaiseStep(s.(admitted := true), 7, 0);
    run := OneStep(run, Raise(7, 0), s.(admitted := true));
    var raised := s.(slotCount := 0, pending := Some(7), raisedTimeout := 10);
    RefuseSteps(raised);
    run := OneStep(run, Pop, raised);
    run := OneStep(run, Reject, raised.(pending := None, holding := 1));
  }

  /** With two channels, a raise at the very instant at which the pending event times out
      overwrites it, although the admission check has just been made. */
  lemma {:induction false} RaiseOverPendingLeaks() returns (run: Run)
    ensures Possible(run) && Checked(run) && Leaked(run) == 1
    ensures var s := Last(run);
      s.channels == 2 && SessionCount(s) == 2 && s.slots == [Free, Free] && s.pending == Some(8) && s.holding == 0
  {
    hide Reached, Leaked, Checked, Next, Enabled, Leaks, Bound;
    var s := Server(2, 2, None, 0, [Free, Free], 0, false);
    StartRun(2);
    assert Bound(2) == s by { FreshServer(); }
    CheckStep(s, 0);
    run := OneStep(Start(2), Check(0), s);
    RaiseStep(s.(admitted := true), 7, 0);
    run := OneStep(run, Raise(7, 0), s.(admitted := true));
    var raised := s.(slotCount := 1, pending := Some(7), raisedTimeout := 10);
    CheckStep(raised, 10);
    run := OneStep(run, Check(10), raised);
    RaiseStep(raised.(admitted := true), 8, 10);
    run := OneStep(run, Raise(8, 10), raised.(admitted := true));
  }

  lemma {:induction false} FreshServer()
    ensures Bound(1) == Server(1, 1, None, 0, [Free], 0, false)
    ensures Bound(2) == Server(2, 2, None, 0, [Free, Free], 0, false)
  {
  }

  /** A check that finds every slot free and no event timed out. */
  lemma {:induction false} CheckStep(s: Server, now: int)
    requires !s.admitted && forall i :: 0 <= i < |s.slots| ==> s.slots[i] == Free
    requires s.pending.None? || s.raisedTimeout >= now
    ensures Enabled(s, Check(now)) && Next(s, Check(now)) == s.(admitted := s.slotCount != 0)
    ensures Leaks(s, Check(now)) == 0
  {
    hide Occupied;
    assert Freed(s.slots, false) == s.slots;
  }

  /** A raise with no live event pending. */
  lemma {:induction false} RaiseStep(s: Server, launch: nat, now: int)
    requires s.pending.None? || s.raisedTimeout <= now
    ensures Enabled(s, Raise(launch, now))
    ensures Next(s, Raise(launch, now))
      == s.(raisedTimeout := now + 10, slotCount := s.slotCount - 1, pending := Some(launch), admitted := false)
    ensures Leaks(s, Raise(launch, now)) == Pending(s)
  {
  }

  /** An ANNOUNCE that is refused after it has taken the event. */
  lemma {:induction false} RefuseSteps(s: Server)
    requires s.pending.Some?
    ensures Enabled(s, Pop) && Leaks(s, Pop) == 0
    ensures var t := s.(pending := None, holding := s.holding + 1);
      && Next(s, Pop) == t && Enabled(t, Reject) && Leaks(t, Reject) == 1
      && Next(t, Reject) == s.(pending := None)
  {
  }

  lemma {:induction false} StartRun(channels: nat)
    ensures Reached(Start(channels)) == Some(Bound(channels))
    ensures Leaked(Start(channels)) == 0 && Checked(Start(channels))
  {
  }

  // ---- The server ----

  /** rtsp_server_t. */
  class RtspServer {
    const channels: nat
    const slots: array<Slot>
    var slotCount: int
    var launchEvent: Option<nat>
    var raisedTimeout: int
    ghost var holding: nat
    ghost var admitted: bool

    ghost predicate Valid()
      reads this
    {
      slots.Length == channels
    }

    ghost function View(): Server
      reads this, slots
    {
      Server(channels, slotCount, launchEvent, raisedTimeout, slots[..], holding, admitted)
    }

    /** bind */
    constructor (channels: nat)
      ensures Valid() && fresh(slots) && View() == Bound(channels)
    {
      this.channels := channels;
      slots := new Slot[channels](_ => Free);
      slotCount, launchEvent, raisedTimeout := channels, None, 0;
      holding, admitted := 0, false;
    }

    /** session_raise */
    method SessionRaise(launch: nat, now: int)
      requires Valid()
      modifies this
      ensures Valid() && View() == Raised(old(View()), launch, now)
    {
      if raisedTimeout > now && launchEvent.Some? {
        return;
      }
      raisedTimeout := now + 10;
      slotCount := slotCount - 1;
      launchEvent := Some(launch);
    }

    /** clear(all) */
    method Clear(all: bool, now: int)
      requires Valid()
      modifies this, slots
      ensures Valid() && View() == Cleared(old(View()), all, now)
      ensures forall k :: 0 <= k < slots.Length ==>
        slots[k] == if old(slots[..])[k] == Running && !all then Running else Free
    {
      ghost var before := View();
      forall k | 0 <= k < slots.Length
        ensures Cleared(before, all, now).slots[k] == if before.slots[k] == Running && !all then Running else Free
      {
        ClearedSlots(before, all, now, k);
      }
      if raisedTimeout < now {
        if launchEvent.Some? {
          launchEvent := None;
          slotCount := slotCount + 1;
        }
      }
      FreeSlots(all);
      assert View().slots == slots[..];
    }

    /** The loop of clear(all). */
    method FreeSlots(all: bool)
      requires Valid()
      modifies this`slotCount, slots
      ensures slots[..] == Freed(old(slots[..]), all)
      ensures slotCount == old(slotCount) + Occupied(old(slots[..])) - Occupied(slots[..])
    {
      hide Occupied;
      ghost var were, count := slots[..], slotCount;
      for i := 0 to slots.Length
        invariant forall k :: 0 <= k < slots.Length ==> slots[..][k] == if k < i then FreeIf(were[k], all) else were[k]
        invariant slotCount == count + Occupied(were) - Occupied(slots[..])
      {
        if !slots[i].Free? && (all || slots[i].Stopping?) {
          OccupiedSet(slots[..], i, Free);
          ghost var next := slots[..][i := Free];
          slots[i] := Free;
          assert slots[..] == next;
          slotCount := slotCount + 1;
        }
      }
      assert slots[..] == Freed(were, all);
    }

    /** clear(slot) */
    method ClearSlot(k: nat)
      requires Valid() && k < slots.Length
      modifies this`slotCount, slots
      ensures slots[..] == old(slots[..])[k := Free] && slotCount == old(slotCount) + 1
    {
      slots[k] := Free;
      slotCount := slotCount + 1;
    }

    /** session_count of rtsp.cpp, and the comparison the HTTP handlers make with it. */
    method Admit(now: int) returns (ok: bool)
      requires Valid() && Enabled(View(), Check(now))
      modifies this, slots
      ensures Valid() && View() == Next(old(View()), Check(now)) && ok == View().admitted
    {
      Clear(false, now);
      ok := channels - slotCount != channels;
      admitted := ok;
    }

    /** accept */
    method AcceptSession() returns (k: Option<nat>)
      requires Valid()
      modifies slots
      ensures k == FirstFree(old(slots[..]))
      ensures slots[..] == if k.Some? then old(slots[..])[k.value := Running] else old(slots[..])
    {
      for i := 0 to slots.Length
        invariant forall j :: 0 <= j < i ==> !slots[j].Free?
        invariant slots[..] == old(slots[..])
      {
        if slots[i].Free? {
          slots[i] := Running;
          return Some(i);
        }
      }
      return None;
    }

    /** cmd_announce: `valid` says whether the request has every field it needs and asks for
        a supported format, `starts` whether session::start succeeds. */
    method Announce(valid: bool, starts: bool) returns (code: nat)
      requires Valid()
      modifies this, slots
      ensures Valid()
      ensures (code, View()) == Announced(old(View()), valid, starts)
    {
      hide FirstFree, Occupied;
      if launchEvent.None? {
        return 503;
      }
      launchEvent := None;
      if !valid {
        return 400;
      }
      var k := AcceptSession();
      if k.None? {
        return 503;
      }
      if !starts {
        ClearSlot(k.value);
        return 500;
      }
      return 200;
    }
  }

  /** What one ANNOUNCE does when no other step comes between. */
  function Announced(s: Server, valid: bool, starts: bool): (nat, Server) {
    if s.pending.None? then (503, s)
    else
      var popped := Next(s, Pop);
      if !valid then (400, Next(popped, Reject))
      else
        var accepted := Next(popped, Accept);
        var k := FirstFree(s.slots);
        if k.None? then (503, accepted)
        else if !starts then (500, Next(accepted, StartFails(k.value)))
        else (200, accepted)
  }

  /** The answers of an ANNOUNCE, and what it leaves: a session in the first free slot with
      answer 200, and the slots as they were with any other. */
  lemma {:induction false} AnnounceOutcome(s: Server, valid: bool, starts: bool)
    ensures var (code, t), full := Announced(s, valid, starts), forall i :: 0 <= i < |s.slots| ==> !s.slots[i].Free?;
      && (code == 200 <==> s.pending.Some? && valid && !full && starts)
      && (code == 400 <==> s.pending.Some? && !valid)
      && (code == 500 <==> s.pending.Some? && valid && !full && !starts)
      && (code == 503 <==> s.pending.None? || (valid && full))
      && t.pending == None && t.holding == s.holding && |t.slots| == |s.slots|
      && forall k :: 0 <= k < |s.slots| ==>
        t.slots[k] == if code == 200 && s.slots[k].Free? && forall i :: 0 <= i < k ==> !s.slots[i].Free? then Running
                      else s.slots[k]
  {
  }

  /** An ANNOUNCE that takes the launch event gives its slot back, or puts a session in it,
      unless the request is not valid or no slot is free: then it loses one. */
  lemma {:induction false} AnnounceLeaks(s: Server, valid: bool, starts: bool, leaked: nat)
    requires Accounted(s, leaked)
    ensures var leaks := s.pending.Some? && (!valid || FirstFree(s.slots).None?);
      Accounted(Announced(s, valid, starts).1, leaked + if leaks then 1 else 0)
  {
    if s.pending.Some? {
      StepAccounts(s, Pop, leaked);
      var popped := Next(s, Pop);
      if !valid {
        StepAccounts(popped, Reject, leaked);
      } else {
        StepAccounts(popped, Accept, leaked);
        var k := FirstFree(s.slots);
        if k.Some? && !starts {
          StepAccounts(Next(popped, Accept), StartFails(k.value), leaked);
        }
      }
    }
  }
}
