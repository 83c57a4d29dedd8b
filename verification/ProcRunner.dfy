// Applications and their prep commands: proc_t::execute and proc_t::terminate.

module ProcRunner {
  import opened Wrappers

  /** cmd_t */
  datatype Prep = Prep(doCmd: string, undoCmd: string)

  /** ctx_t: the prep commands, the detached commands and the command itself. */
  datatype App = App(preps: seq<Prep>, detached: seq<string>, cmd: string)

  /** What was run: a prep command that succeeded, one that did not, an undo command. */
  datatype Event = Did(app: nat, index: nat) | Failed(app: nat, index: nat) | Undid(app: nat, index: nat)

  /** How the commands of one execute end; commands not listed succeed. */
  datatype World = World(failing: set<nat>, spawnErrors: set<nat>, startError: bool)

  /** proc_t: _undo_begin is the start of the prep commands of `undoApp`, _undo_it stands
      `done` entries behind it. */
  datatype Proc = Proc(appId: int, placebo: bool, alive: bool, undoApp: nat, done: nat, log: seq<Event>)

  predicate HasUndo(apps: seq<App>, app: nat, i: nat) {
    app < |apps| && i < |apps[app].preps| && apps[app].preps[i].undoCmd != ""
  }

  // ---- The operations ----

  /** The undo commands of the first n prep commands, last first, as terminate runs them. */
  function Undos(apps: seq<App>, app: nat, n: nat): seq<Event> {
    if n == 0 then []
    else (if HasUndo(apps, app, n - 1) then [Undid(app, n - 1)] else []) + Undos(apps, app, n - 1)
  }

  /** terminate, when no undo command fails. */
  function Terminated(apps: seq<App>, p: Proc): Proc {
    p.(appId := -1, placebo := false, alive := false, done := 0, log := p.log + Undos(apps, p.undoApp, p.done))
  }

  /** How many prep commands succeed before one fails. */
  function Successes(app: App, w: World, from: nat): (m: nat)
    requires from <= |app.preps|
    ensures from <= m <= |app.preps|
    ensures forall i :: from <= i < m ==> i !in w.failing
    ensures m < |app.preps| ==> m in w.failing
    decreases |app.preps| - from
  {
    if from == |app.preps| || from in w.failing then from else Successes(app, w, from + 1)
  }

  function Dids(app: nat, from: nat, to: nat): (e: seq<Event>)
    requires from <= to
    ensures |e| == to - from
  {
    if from == to then [] else Dids(app, from, to - 1) + [Did(app, to - 1)]
  }

  /** The error code that stands after the commands: that of the start, or for an app
      without a command that of the last detached command. */
  predicate StartFails(app: App, w: World) {
    if app.cmd != "" then w.startError else |app.detached| > 0 && (|app.detached| - 1) in w.spawnErrors
  }

  function Running(p: Proc): int {
    if p.placebo || p.alive then p.appId else -1
  }

  /** The reset at the head of execute: its test !running() holds only for app 0. */
  function Reset(p: Proc): Proc {
    if Running(p) == 0 && p.appId != -1 then p.(appId := -1) else p
  }

  /** execute from the clean slate on, up to what the guard does on a failure. */
  function Launched(apps: seq<App>, t: Proc, id: nat, w: World): (bool, Proc)
    requires id < |apps|
  {
    var app := apps[id];
    var m := Successes(app, w, 0);
    var ran := t.(appId := id, undoApp := id, done := m, log := t.log + Dids(id, 0, m));
    if m < |app.preps| then (false, ran.(log := ran.log + [Failed(id, m)]))
    else (!StartFails(app, w), ran.(placebo := app.cmd == "", alive := app.cmd != "" && !w.startError))
  }

  /** execute, when no undo command fails. */
  function Executed(apps: seq<App>, p: Proc, id: int, w: World): (int, Proc) {
    if id < 0 || id >= |apps| then (404, Reset(p))
    else
      var (ok, q) := Launched(apps, Terminated(apps, Reset(p)), id, w);
      if ok then (0, q) else (-1, Terminated(apps, q))
  }

  // ---- The discipline, stated on the log alone ----

  /** The prep commands in force: the first `height` of `app`. */
  datatype Stack = Stack(app: nat, height: nat)

  /** Nothing from `low` on that an undo command should have reversed. */
  predicate NoUndoFrom(apps: seq<App>, s: Stack, low: nat) {
    forall i :: low <= i < s.height ==> !HasUndo(apps, s.app, i)
  }

  /** A prep command may run next: the first of an app only when nothing is left to undo,
      a later one only behind the one before it. */
  predicate MayDo(apps: seq<App>, s: Stack, app: nat, i: nat) {
    if i == 0 then NoUndoFrom(apps, s, 0) else app == s.app && i == s.height
  }

  /** The stack after an event, if the event was in order. An undo must be nonempty and
      reverse the latest command that has one. */
  function After(apps: seq<App>, s: Stack, e: Event): Option<Stack> {
    match e
    case Did(app, i) => if MayDo(apps, s, app, i) then Some(Stack(app, i + 1)) else None
    case Failed(app, i) => if MayDo(apps, s, app, i) then Some(Stack(app, i)) else None
    case Undid(app, i) =>
      if app == s.app && i < s.height && HasUndo(apps, app, i) && NoUndoFrom(apps, s, i + 1) then Some(Stack(app, i))
      else None
  }

  /** The stack after the whole log, if every event was in order. */
  function Replay(apps: seq<App>, log: seq<Event>): Option<Stack> {
    if |log| == 0 then Some(Stack(0, 0))
    else
      var s := Replay(apps, log[..|log| - 1]);
      if s.Some? then After(apps, s.value, log[|log| - 1]) else None
  }

  lemma {:induction false} ReplaySnoc(apps: seq<App>, log: seq<Event>, e: Event)
    requires Replay(apps, log).Some?
    ensures Replay(apps, log + [e]) == After(apps, Replay(apps, log).value, e)
  {
    assert (log + [e])[..|log|] == log;
  }

  /** The log is in order, and the iterator marks what is left to undo. */
  ghost predicate Orderly(apps: seq<App>, p: Proc) {
    var s := Replay(apps, p.log);
    && s.Some?
    && (p.done > 0 ==> s.value.app == p.undoApp)
    && p.done <= s.value.height && NoUndoFrom(apps, s.value, p.done)
  }

  const Idle := Proc(-1, false, false, 0, 0, [])

  lemma {:induction false} IdleOrderly(apps: seq<App>)
    ensures Orderly(apps, Idle)
    ensures Idle.log == [] && Idle.appId == -1 && !Idle.placebo && !Idle.alive && Idle.done == 0
  {
  }

  lemma {:induction false} UndoOrderly(apps: seq<App>, p: Proc, n: nat)
    requires Orderly(apps, p) && p.done == n + 1 && HasUndo(apps, p.undoApp, n)
    ensures Orderly(apps, p.(done := n, log := p.log + [Undid(p.undoApp, n)]))
  {
    hide Replay, HasUndo;
    ReplaySnoc(apps, p.log, Undid(p.undoApp, n));
  }

  lemma {:induction false} UndosOrderly(apps: seq<App>, p: Proc)
    requires Orderly(apps, p)
    ensures Orderly(apps, p.(done := 0, log := p.log + Undos(apps, p.undoApp, p.done)))
    decreases p.done
  {
    hide Orderly, Undos, HasUndo;
    UndosStep(apps, p.undoApp, p.done, p.log);
    if p.done > 0 {
      var n := p.done - 1;
      if HasUndo(apps, p.undoApp, n) {
        UndoOrderly(apps, p, n);
        UndosOrderly(apps, p.(done := n, log := p.log + [Undid(p.undoApp, n)]));
      } else {
        SkipOrderly(apps, p, n);
        UndosOrderly(apps, p.(done := n));
      }
    }
  }

  /** A command without an undo is passed over. */
  lemma {:induction false} SkipOrderly(apps: seq<App>, p: Proc, n: nat)
    requires Orderly(apps, p) && p.done == n + 1 && !HasUndo(apps, p.undoApp, n)
    ensures Orderly(apps, p.(done := n))
  {
    hide Replay, HasUndo;
  }

  /** The first of the undo commands behind a log. */
  lemma {:induction false} UndosStep(apps: seq<App>, app: nat, n: nat, log: seq<Event>)
    ensures log + Undos(apps, app, n) ==
      if n == 0 then log
      else if HasUndo(apps, app, n - 1) then log + [Undid(app, n - 1)] + Undos(apps, app, n - 1)
      else log + Undos(apps, app, n - 1)
  {
    hide HasUndo;
    if n > 0 && HasUndo(apps, app, n - 1) {
      Joins(log, [Undid(app, n - 1)], Undos(apps, app, n - 1));
    } else if n > 0 {
      Joins(log, [], Undos(apps, app, n - 1));
    }
  }

  lemma {:induction false} Joins(a: seq<Event>, b: seq<Event>, c: seq<Event>)
    ensures a + (b + c) == a + b + c && (b == [] ==> a + (b + c) == a + c)
  {
  }

  /** terminate undoes in order, and leaves nothing to undo. */
  lemma {:induction false} TerminatedOrderly(apps: seq<App>, p: Proc)
    requires Orderly(apps, p)
    ensures Orderly(apps, Terminated(apps, p))
  {
    UndosOrderly(apps, p);
  }

  lemma {:induction false} DidsOrderly(apps: seq<App>, p: Proc, app: nat, m: nat)
    requires Orderly(apps, p) && p.done == 0
    ensures Orderly(apps, p.(undoApp := app, done := m, log := p.log + Dids(app, 0, m)))
    ensures m > 0 ==> Replay(apps, p.log + Dids(app, 0, m)) == Some(Stack(app, m))
    decreases m
  {
    hide Replay, HasUndo;
    if m == 0 {
      assert p.log + [] == p.log;
    } else {
      DidsOrderly(apps, p, app, m - 1);
      ReplaySnoc(apps, p.log + Dids(app, 0, m - 1), Did(app, m - 1));
      Joins(p.log, Dids(app, 0, m - 1), [Did(app, m - 1)]);
    }
  }

  /** The prep commands run in order after a clean slate. */
  lemma {:induction false} LaunchedOrderly(apps: seq<App>, t: Proc, id: nat, w: World)
    requires Orderly(apps, t) && t.done == 0 && id < |apps|
    ensures Orderly(apps, Launched(apps, t, id, w).1)
  {
    hide Replay, Dids, HasUndo, Successes;
    var m := Successes(apps[id], w, 0);
    DidsOrderly(apps, t, id, m);
    ReplaySnoc(apps, t.log + Dids(id, 0, m), Failed(id, m));
  }

  /** execute keeps the log in order. */
  lemma {:induction false} ExecutedOrderly(apps: seq<App>, p: Proc, id: int, w: World)
    requires Orderly(apps, p)
    ensures Orderly(apps, Executed(apps, p, id, w).1)
  {
    hide Launched, Replay, Undos;
    if 0 <= id < |apps| {
      var t := Terminated(apps, Reset(p));
      TerminatedOrderly(apps, Reset(p));
      LaunchedOrderly(apps, t, id, w);
      TerminatedOrderly(apps, Launched(apps, t, id, w).1);
    }
  }

  lemma {:induction false} ResetOrderly(apps: seq<App>, p: Proc)
    requires Orderly(apps, p)
    ensures Orderly(apps, Reset(p))
  {
  }

  // ---- Runs ----

  datatype Call = Execute(id: int, world: World) | Terminate | ProcessExits

  /** The process object after a sequence of calls in which no undo command fails. */
  function Ran(apps: seq<App>, calls: seq<Call>): Proc {
    if |calls| == 0 then Idle
    else
      var p := Ran(apps, calls[..|calls| - 1]);
      match calls[|calls| - 1]
      case Execute(id, w) => Executed(apps, p, id, w).1
      case Terminate => Terminated(apps, p)
      case ProcessExits => p.(alive := false)
  }

  /** The log of every run is in order. */
  lemma {:induction false} RunsOrderly(apps: seq<App>, calls: seq<Call>)
    ensures Orderly(apps, Ran(apps, calls))
  {
    if |calls| > 0 {
      var before := calls[..|calls| - 1];
      RunsOrderly(apps, before);
      match calls[|calls| - 1] {
        case Execute(id, w) => ExecutedOrderly(apps, Ran(apps, before), id, w);
        case Terminate => TerminatedOrderly(apps, Ran(apps, before));
        case ProcessExits =>
      }
    }
  }

  function Times(log: seq<Event>, e: Event): nat {
    if |log| == 0 then 0 else Times(log[..|log| - 1], e) + if log[|log| - 1] == e then 1 else 0
  }

  /** In an orderly log every command with an undo has been undone as often as it has been
      done, but for one time if it is in force. */
  lemma {:induction false} DoneUndone(apps: seq<App>, log: seq<Event>, app: nat, i: nat)
    requires Replay(apps, log).Some? && HasUndo(apps, app, i)
    ensures var s := Replay(apps, log).value;
      Times(log, Did(app, i)) == Times(log, Undid(app, i)) + if s.app == app && i < s.height then 1 else 0
  {
    if |log| > 0 {
      var front, e := log[..|log| - 1], log[|log| - 1];
      DoneUndone(apps, front, app, i);
      assert After(apps, Replay(apps, front).value, e) == Replay(apps, log);
    }
  }

  lemma {:induction false} NeverUndone(apps: seq<App>, log: seq<Event>, app: nat, i: nat)
    requires Replay(apps, log).Some? && !HasUndo(apps, app, i)
    ensures Times(log, Undid(app, i)) == 0
  {
    if |log| > 0 {
      NeverUndone(apps, log[..|log| - 1], app, i);
    }
  }

  /** On every run empty undo commands are never run. */
  lemma {:induction false} OnlyNonempty(apps: seq<App>, calls: seq<Call>, app: nat, i: nat)
    requires app < |apps| && i < |apps[app].preps| && apps[app].preps[i].undoCmd == ""
    ensures Times(Ran(apps, calls).log, Undid(app, i)) == 0
  {
    hide Ran, Times, Replay;
    RunsOrderly(apps, calls);
    NeverUndone(apps, Ran(apps, calls).log, app, i);
  }

  lemma {:induction false} PrefixInOrder(apps: seq<App>, log: seq<Event>, k: nat)
    requires Replay(apps, log).Some? && k < |log|
    ensures Replay(apps, log[..k]).Some? && After(apps, Replay(apps, log[..k]).value, log[k]).Some?
    decreases |log|
  {
    var front := log[..|log| - 1];
    if k < |front| {
      PrefixInOrder(apps, front, k);
      assert front[..k] == log[..k];
    }
  }

  /** In force: done once more than undone. */
  ghost predicate InForce(log: seq<Event>, app: nat, i: nat) {
    Times(log, Did(app, i)) == Times(log, Undid(app, i)) + 1
  }

  /** Before the first command of any app is tried, everything done earlier is undone. */
  lemma {:induction false} CleanBeforeFirst(apps: seq<App>, calls: seq<Call>, k: nat, next: nat, app: nat, i: nat)
    requires k < |Ran(apps, calls).log|
    requires app < |apps| && i < |apps[app].preps| && apps[app].preps[i].undoCmd != ""
    requires Ran(apps, calls).log[k] in {Did(next, 0), Failed(next, 0)}
    ensures var before := Ran(apps, calls).log[..k];
      Times(before, Did(app, i)) == Times(before, Undid(app, i))
  {
    hide Ran, Times, Replay;
    RunsOrderly(apps, calls);
    var log := Ran(apps, calls).log;
    PrefixInOrder(apps, log, k);
    assert HasUndo(apps, app, i);
    DoneUndone(apps, log[..k], app, i);
  }

  /** An undo reverses the latest command in force that has one. */
  lemma {:induction false} UndoReversesLatest(apps: seq<App>, calls: seq<Call>, k: nat, app: nat, i: nat,
                                              other: nat, j: nat)
    requires k < |Ran(apps, calls).log| && Ran(apps, calls).log[k] == Undid(app, i)
    ensures app < |apps| && i < |apps[app].preps| && apps[app].preps[i].undoCmd != ""
    ensures InForce(Ran(apps, calls).log[..k], app, i)
    ensures other < |apps| && j < |apps[other].preps| && apps[other].preps[j].undoCmd != "" ==>
      InForce(Ran(apps, calls).log[..k], other, j) ==> other == app && j <= i
  {
    hide Ran, Times, Replay;
    RunsOrderly(apps, calls);
    var log := Ran(apps, calls).log;
    PrefixInOrder(apps, log, k);
    DoneUndone(apps, log[..k], app, i);
    if HasUndo(apps, other, j) {
      DoneUndone(apps, log[..k], other, j);
    }
  }

  /** On every run a command that succeeded, and has an undo, has been undone exactly once
      for every time it succeeded, except while its app holds it in force. */
  lemma {:induction false} UndoneExactlyOnce(apps: seq<App>, calls: seq<Call>, app: nat, i: nat)
    requires app < |apps| && i < |apps[app].preps| && apps[app].preps[i].undoCmd != ""
    ensures var p := Ran(apps, calls);
      Times(p.log, Did(app, i)) == Times(p.log, Undid(app, i)) + if p.undoApp == app && i < p.done then 1 else 0
  {
    hide Ran, Times, Replay;
    RunsOrderly(apps, calls);
    assert HasUndo(apps, app, i);
    DoneUndone(apps, Ran(apps, calls).log, app, i);
  }

  /** terminate leaves no app and no process behind, and a second one runs nothing. */
  lemma {:induction false} TerminateOnce(apps: seq<App>, p: Proc)
    ensures Terminated(apps, Terminated(apps, p)).log == Terminated(apps, p).log
    ensures var q := Terminated(apps, p); q.appId == -1 && !q.placebo && !q.alive && q.done == 0
    ensures Running(Terminated(apps, p)) == -1
  {
  }

  /** A failed execute leaves nothing in force; one that succeeds leaves all of its prep
      commands in force, and its app running. */
  lemma {:induction false} ExecuteOutcome(apps: seq<App>, p: Proc, id: int, w: World)
    ensures var (code, q) := Executed(apps, p, id, w);
      && (code == 404 <==> !(0 <= id < |apps|))
      && (code == -1 ==> q.done == 0 && Running(q) == -1)
      && (code == 0 <==>
        && 0 <= id < |apps|
        && (forall i :: 0 <= i < |apps[id].preps| ==> i !in w.failing)
        && (apps[id].cmd != "" ==> !w.startError)
        && (apps[id].cmd == "" && apps[id].detached != [] ==> (|apps[id].detached| - 1) !in w.spawnErrors))
      && (code == 0 ==> q.done == |apps[id].preps| && q.undoApp == id == Running(q))
      && (code == 0 ==> (q.placebo <==> apps[id].cmd == "") && (q.alive <==> apps[id].cmd != ""))
      && code in {404, -1, 0}
  {
  }

  lemma {:induction false} RanSnoc(apps: seq<App>, calls: seq<Call>, id: int, w: World)
    ensures Ran(apps, calls + [Execute(id, w)]) == Executed(apps, Ran(apps, calls), id, w).1
  {
    assert (calls + [Execute(id, w)])[..|calls|] == calls;
  }

  lemma {:induction false} RanExits(apps: seq<App>, calls: seq<Call>)
    ensures Ran(apps, calls + [ProcessExits]) == Ran(apps, calls).(alive := false)
  {
    assert (calls + [ProcessExits])[..|calls|] == calls;
  }

  /** After a successful execute the app is running, and when its process exits it still is
      if and only if it has no command. */
  lemma {:induction false} RunningUntilExit(apps: seq<App>, calls: seq<Call>, id: int, w: World)
    requires Executed(apps, Ran(apps, calls), id, w).0 == 0
    ensures 0 <= id < |apps| && Running(Ran(apps, calls + [Execute(id, w)])) == id
    ensures Running(Ran(apps, calls + [Execute(id, w)] + [ProcessExits])) == if apps[id].cmd == "" then id else -1
  {
    hide Ran, Terminated, Successes, Dids;
    RanSnoc(apps, calls, id, w);
    RanExits(apps, calls + [Execute(id, w)]);
  }

  /** The reset at the head of execute is taken exactly while app 0 runs: not when the
      process has exited on its own, as its comment says. */
  lemma {:induction false} ResetOnlyForAppZero(p: Proc)
    ensures Reset(p) == if p.appId == 0 && (p.placebo || p.alive) then p.(appId := -1) else p
    ensures Reset(p) != p <==> p.appId == 0 && (p.placebo || p.alive)
  {
  }

  // ---- The class ----

  class Runner {
    const apps: seq<App>
    var appId: int
    var placebo: bool
    var alive: bool
    var undoBegin: nat
    var undoIt: nat
    var log: seq<Event>

    function View(): Proc
      reads this
    {
      Proc(appId, placebo, alive, undoBegin, undoIt, log)
    }

    /** The log of everything run so far is in order. */
    ghost predicate Valid()
      reads this
    {
      Orderly(apps, View())
    }

    constructor (apps: seq<App>)
      ensures Valid() && View() == Idle && this.apps == apps
    {
      this.apps := apps;
      appId, placebo, alive, undoBegin, undoIt, log := -1, false, false, 0, 0, [];
      new;
      IdleOrderly(apps);
    }

    /** terminate. A failing undo command ends the program. */
    method Terminate(undoFails: set<nat>) returns (aborted: bool)
      requires Valid()
      modifies this
      ensures aborted <==> exists i :: 0 <= i < old(undoIt) && i in undoFails && HasUndo(apps, old(undoBegin), i)
      ensures !aborted ==> Valid() && View() == Terminated(apps, old(View()))
    {
      hide Orderly, Undos, HasUndo;
      TerminatedOrderly(apps, View());
      ghost var goal := log + Undos(apps, undoBegin, undoIt);
      placebo, alive, appId := false, false, -1;
      assert log + [] == log;
      while undoIt != 0
        invariant undoIt <= old(undoIt) && undoBegin == old(undoBegin) && !placebo && !alive && appId == -1
        invariant log + Undos(apps, undoBegin, undoIt) == goal
        invariant forall i :: undoIt <= i < old(undoIt) && HasUndo(apps, undoBegin, i) ==> i !in undoFails
        decreases undoIt
      {
        UndosStep(apps, undoBegin, undoIt, log);
        var i := undoIt - 1;
        if HasUndo(apps, undoBegin, i) {
          log := log + [Undid(undoBegin, i)];
          if i in undoFails {
            return true;
          }
        }
        undoIt := i;
      }
      UndosStep(apps, undoBegin, 0, log);
      return false;
    }

    /** The loop over the prep commands. */
    method RunPreps(id: nat, w: World) returns (ok: bool)
      requires id < |apps| && undoIt == 0 && undoBegin == id
      modifies this`undoIt, this`log
      ensures var m := Successes(apps[id], w, 0);
        && undoIt == m && ok == (m == |apps[id].preps|)
        && log == old(log) + Dids(id, 0, m) + if ok then [] else [Failed(id, m)]
    {
      assert log + [] == log;
      while undoIt != |apps[id].preps|
        invariant undoIt <= |apps[id].preps|
        invariant Successes(apps[id], w, 0) == Successes(apps[id], w, undoIt)
        invariant log == old(log) + Dids(id, 0, undoIt)
        decreases |apps[id].preps| - undoIt
      {
        if undoIt in w.failing {
          log := log + [Failed(id, undoIt)];
          return false;
        }
        assert old(log) + (Dids(id, 0, undoIt) + [Did(id, undoIt)])
          == old(log) + Dids(id, 0, undoIt) + [Did(id, undoIt)];
        log := log + [Did(id, undoIt)];
        undoIt := undoIt + 1;
      }
      assert log + [] == log;
      return true;
    }

    /** execute from the clean slate on. */
    method Launch(id: nat, w: World) returns (ok: bool)
      requires id < |apps| && undoIt == 0 && !placebo && !alive
      modifies this
      ensures (ok, View()) == Launched(apps, old(View()), id, w)
    {
      hide Replay, Undos, Dids, Successes, HasUndo;
      var app := apps[id];
      appId, undoBegin, undoIt := id, id, 0;
      ghost var before := log;
      ok := RunPreps(id, w);
      if !ok {
        return;
      }
      assert before + Dids(id, 0, undoIt) + [] == before + Dids(id, 0, undoIt);
      var error := RunDetached(app, w);
      if app.cmd == "" {
        placebo := true;
      } else {
        error := w.startError;
        alive := !error;
      }
      return !error;
    }

    /** execute; its guard runs terminate on every failure. */
    method Execute(id: int, w: World, undoFails: set<nat>) returns (aborted: bool, code: int)
      requires Valid()
      modifies this
      ensures undoFails == {} ==> !aborted
      ensures !aborted ==> Valid() && (code, View()) == Executed(apps, old(View()), id, w)
    {
      hide Orderly, Undos, Launched, HasUndo;
      ExecutedOrderly(apps, View(), id, w);
      ghost var p := View();
      ResetOrderly(apps, p);
      var running := if placebo || alive then appId else -1;
      if running == 0 && appId != -1 {
        appId := -1;
      }
      if id < 0 || id >= |apps| {
        return false, 404;
      }
      aborted := Terminate(undoFails);
      if aborted {
        return true, -1;
      }
      LaunchedOrderly(apps, View(), id, w);
      var ok := Launch(id, w);
      if ok {
        return false, 0;
      }
      aborted := Terminate(undoFails);
      return aborted, -1;
    }

    /** The loop over the detached commands: the last one decides the error code. */
    method RunDetached(app: App, w: World) returns (error: bool)
      ensures error <==> |app.detached| > 0 && (|app.detached| - 1) in w.spawnErrors
    {
      error := false;
      for i := 0 to |app.detached|
        invariant error <==> i > 0 && (i - 1) in w.spawnErrors
      {
        error := i in w.spawnErrors;
      }
    }
  }
}
