/** The worker registry of src/chains/evm/tools/agent-worker.ts as a state machine. Its
    atomic steps are the stretches of code between awaits: a cycle's start up to its
    first read, a cycle's end once the reads have settled, a timer callback, and the
    start and stop tools. Every worker object ever created is kept, because a stopped
    object can still have a cycle in flight while a new one runs under the same id. */
module WorkerMachine {
  import opened Outcomes
  import opened LtvManager

  datatype Status = Running | Stopped | Error

  /** What a cycle's awaited reads and transactions came to. */
  datatype CycleOutcome = ReadsFailed | Decided(action: LtvAction, sent: bool)

  datatype CycleLog = CycleLog(cycleNumber: nat, failed: bool, action: Option<LtvAction>, executed: bool)

  /** `timer` is the handle field; whether that timer is still pending is the event
      loop's business. `history` is every log ever pushed. */
  datatype WorkerState = WorkerState(id: string, dryRun: bool, maxConsecutiveErrors: real, status: Status,
                                     cycleCount: nat, consecutiveErrors: nat, timer: Option<nat>,
                                     recentLogs: seq<CycleLog>, history: seq<CycleLog>)

  /** `armed` are the pending timeouts by handle, `inFlight` the cycles that have not ended. */
  datatype System = System(objects: seq<WorkerState>, registry: map<string, nat>, armed: map<nat, nat>,
                           inFlight: set<(nat, nat)>, nextHandle: nat)

  const EMPTY := System([], map[], map[], {}, 0)

  datatype Event =
    | Start(id: string, dryRun: bool, maxConsecutiveErrors: real)
    | Stop(id: string)
    | StopAll
    | Fire(handle: nat)
    | EndCycle(worker: nat, cycle: nat, outcome: CycleOutcome)

  const MAX_LOGS := 50

  // ---- steps ----

  function Fresh(id: string, dryRun: bool, maxConsecutiveErrors: real): WorkerState {
    WorkerState(id, dryRun, maxConsecutiveErrors, Running, 0, 0, None, [], [])
  }

  function BeginCycle(s: System, o: nat): System
    requires o < |s.objects|
  {
    var w := s.objects[o];
    s.(objects := s.objects[o := w.(cycleCount := w.cycleCount + 1)],
       inFlight := s.inFlight + {(o, w.cycleCount + 1)})
  }

  /** Push, then shift when there are more than 50. */
  function PushLog(logs: seq<CycleLog>, log: CycleLog): seq<CycleLog> {
    var pushed := logs + [log];
    if |pushed| > MAX_LOGS then pushed[1..] else pushed
  }

  function LogOf(w: WorkerState, cycle: nat, outcome: CycleOutcome): CycleLog {
    match outcome
    case ReadsFailed => CycleLog(cycle, true, None, false)
    case Decided(action, sent) => CycleLog(cycle, false, Some(action), !w.dryRun && !action.Hold? && sent)
  }

  /** The worker after its cycle's end, before a new timer is set. */
  function Ended(w: WorkerState, cycle: nat, outcome: CycleOutcome): WorkerState {
    var errors := if outcome.ReadsFailed? then w.consecutiveErrors + 1 else 0;
    var gaveUp := outcome.ReadsFailed? && errors as real >= w.maxConsecutiveErrors;
    var log := LogOf(w, cycle, outcome);
    w.(consecutiveErrors := errors, status := if gaveUp then Error else w.status,
       timer := if gaveUp then None else w.timer,
       recentLogs := PushLog(w.recentLogs, log), history := w.history + [log])
  }

  /** clearTimeout on the handle field, a no-op for a timer that has fired. */
  function Cleared(armed: map<nat, nat>, timer: Option<nat>): map<nat, nat> {
    if timer.Some? then armed - {timer.value} else armed
  }

  function EndCycleStep(s: System, o: nat, cycle: nat, outcome: CycleOutcome): System
    requires o < |s.objects|
  {
    var w := s.objects[o];
    var ended := Ended(w, cycle, outcome);
    var armed := if ended.timer != w.timer then Cleared(s.armed, w.timer) else s.armed;
    var rest := s.(inFlight := s.inFlight - {(o, cycle)}, armed := armed);
    if ended.status.Running? then
      rest.(objects := s.objects[o := ended.(timer := Some(s.nextHandle))],
            armed := armed[s.nextHandle := o], nextHandle := s.nextHandle + 1)
    else rest.(objects := s.objects[o := ended])
  }

  function StopObject(s: System, o: nat): System
    requires o < |s.objects|
  {
    var w := s.objects[o];
    s.(objects := s.objects[o := w.(status := Stopped, timer := None)], armed := Cleared(s.armed, w.timer))
  }

  predicate RegisteredRunning(s: System, o: nat)
    requires o < |s.objects|
  {
    s.objects[o].id in s.registry && s.registry[s.objects[o].id] == o && s.objects[o].status.Running?
  }

  function HeldTimers(s: System, done: set<nat>): set<nat> {
    set o | o in done && o < |s.objects| && s.objects[o].timer.Some? :: s.objects[o].timer.value
  }

  /** Every object in `done` stopped and its timer cleared. */
  function StopSet(s: System, done: set<nat>): System {
    s.(objects := seq(|s.objects|, o requires 0 <= o < |s.objects| =>
         if o in done then s.objects[o].(status := Stopped, timer := None) else s.objects[o]),
       armed := s.armed - HeldTimers(s, done))
  }

  function RunningSet(s: System): set<nat> {
    set o: nat | o < |s.objects| && RegisteredRunning(s, o)
  }

  /** The schema of the start tool admits an error limit of at least 1. */
  predicate GoodStart(e: Event) {
    e.Start? ==> e.maxConsecutiveErrors >= 1.0
  }

  function IsRunning(s: System, id: string): bool {
    id in s.registry && s.registry[id] < |s.objects| && s.objects[s.registry[id]].status.Running?
  }

  /** One step. Starting a running id and stopping an unknown one throw; a callback that
      is not pending cannot happen: in all these cases nothing changes. */
  function Step(s: System, e: Event): System {
    match e
    case Start(id, dryRun, max) =>
      if IsRunning(s, id) then s
      else
        var o := |s.objects|;
        BeginCycle(s.(objects := s.objects + [Fresh(id, dryRun, max)], registry := s.registry[id := o]), o)
    case Stop(id) =>
      if id in s.registry && s.registry[id] < |s.objects| then StopObject(s, s.registry[id]) else s
    case StopAll => StopSet(s, RunningSet(s))
    case Fire(h) =>
      if h in s.armed && s.armed[h] < |s.objects| then BeginCycle(s.(armed := s.armed - {h}), s.armed[h]) else s
    case EndCycle(o, cycle, outcome) =>
      if (o, cycle) in s.inFlight && o < |s.objects| then EndCycleStep(s, o, cycle, outcome) else s
  }

  function Run(s: System, es: seq<Event>): System
    decreases |es|
  {
    if es == [] then s else Run(Step(s, es[0]), es[1..])
  }

  // ---- the invariant ----

  /** Failures at the end of the history. */
  function TrailingFailures(history: seq<CycleLog>): nat {
    if history != [] && history[|history| - 1].failed then 1 + TrailingFailures(history[..|history| - 1]) else 0
  }

  function LastLogs(history: seq<CycleLog>): seq<CycleLog> {
    if |history| <= MAX_LOGS then history else history[|history| - MAX_LOGS..]
  }

  predicate GoodWorker(w: WorkerState) {
    && w.recentLogs == LastLogs(w.history)
    && (forall i | 0 <= i < |w.history| :: w.history[i].cycleNumber == i + 1)
    && (forall i | 0 <= i < |w.history| && w.history[i].executed ::
          !w.dryRun && w.history[i].action.Some? && !w.history[i].action.value.Hold?)
    && w.consecutiveErrors == TrailingFailures(w.history)
    && (w.status.Running? ==> w.consecutiveErrors as real < w.maxConsecutiveErrors)
    && (w.status.Error? ==> w.consecutiveErrors as real >= w.maxConsecutiveErrors)
    && w.maxConsecutiveErrors >= 1.0
  }

  predicate Pending(s: System, o: nat) {
    exists h :: h in s.armed && s.armed[h] == o
  }

  /** The object's cycle number that is in flight can only be its latest. */
  predicate Busy(s: System, o: nat)
    requires o < |s.objects|
  {
    (o, s.objects[o].cycleCount) in s.inFlight
  }

  predicate GoodObject(s: System, o: nat)
    requires o < |s.objects|
  {
    var w := s.objects[o];
    && GoodWorker(w)
    && |w.history| == w.cycleCount - (if Busy(s, o) then 1 else 0)
    && (w.status.Running? ==> w.id in s.registry && s.registry[w.id] == o)
    && (Pending(s, o) ==> w.status.Running? && !Busy(s, o))
    && (Busy(s, o) ==> !w.status.Error?)
    && (w.status.Running? ==> Busy(s, o) || Pending(s, o))
  }

  /** Handles: a pending timer is the handle its object holds, and no object holds
      another's pending timer, so clearTimeout never hits a stranger. */
  predicate GoodHandles(s: System) {
    && (forall h | h in s.armed :: h < s.nextHandle && s.armed[h] < |s.objects|
          && s.objects[s.armed[h]].timer == Some(h))
    && (forall o | 0 <= o < |s.objects| && s.objects[o].timer.Some? :: s.objects[o].timer.value < s.nextHandle
          && (s.objects[o].timer.value in s.armed ==> s.armed[s.objects[o].timer.value] == o))
  }

  predicate GoodRegistry(s: System) {
    && (forall id | id in s.registry :: s.registry[id] < |s.objects| && s.objects[s.registry[id]].id == id)
    && (forall p | p in s.inFlight :: p.0 < |s.objects| && p.1 == s.objects[p.0].cycleCount)
  }

  predicate Inv(s: System) {
    GoodRegistry(s) && GoodHandles(s) && forall o | 0 <= o < |s.objects| :: GoodObject(s, o)
  }

  lemma EmptyInv()
    ensures Inv(EMPTY)
  {
  }

  // ---- every step keeps the invariant ----

  /** Nothing about object p differs between s and t. */
  predicate SameFor(s: System, t: System, p: nat) {
    && p < |s.objects| && p < |t.objects| && t.objects[p] == s.objects[p]
    && (Busy(t, p) <==> Busy(s, p)) && (Pending(t, p) <==> Pending(s, p))
  }

  lemma OthersGood(s: System, t: System, p: nat)
    requires SameFor(s, t, p) && GoodObject(s, p)
    requires s.objects[p].status.Running? ==>
      s.objects[p].id in t.registry && s.objects[p].id in s.registry
      && t.registry[s.objects[p].id] == s.registry[s.objects[p].id]
    ensures GoodObject(t, p)
  {
    hide GoodWorker, Busy, Pending;
  }

  /** A cycle may begin on an object that has none in flight and no timer pending. */
  lemma BeginCycleKeeps(s: System, o: nat)
    requires GoodRegistry(s) && GoodHandles(s) && o < |s.objects|
    requires forall p | 0 <= p < |s.objects| && p != o :: GoodObject(s, p)
    requires var w := s.objects[o]; GoodWorker(w) && |w.history| == w.cycleCount && !Busy(s, o) && !Pending(s, o)
    requires var w := s.objects[o]; w.status.Running? && w.id in s.registry && s.registry[w.id] == o
    ensures Inv(BeginCycle(s, o))
  {
    var t := BeginCycle(s, o);
    assert (o, s.objects[o].cycleCount) !in s.inFlight;
    assert forall p | p in s.inFlight :: p.0 != o;
    assert Busy(t, o);
    assert !Pending(t, o);
    hide GoodWorker;
    forall p | 0 <= p < |t.objects| ensures GoodObject(t, p) {
      if p != o {
        assert SameFor(s, t, p);
        OthersGood(s, t, p);
      } else {
        assert GoodWorker(t.objects[o]) by { SameWorkerGood(s.objects[o], t.objects[o]); }
      }
    }
  }

  lemma SameWorkerGood(w: WorkerState, v: WorkerState)
    requires GoodWorker(w) && v.recentLogs == w.recentLogs && v.history == w.history && v.dryRun == w.dryRun
    requires v.consecutiveErrors == w.consecutiveErrors && v.maxConsecutiveErrors == w.maxConsecutiveErrors
    requires (v.status.Running? ==> w.status.Running?) && (v.status.Error? ==> w.status.Error?)
    ensures GoodWorker(v)
  {
  }

  lemma StopObjectHandles(s: System, o: nat)
    requires Inv(s) && o < |s.objects|
    ensures GoodRegistry(StopObject(s, o)) && GoodHandles(StopObject(s, o))
    ensures forall p :: Pending(StopObject(s, o), p) <==> Pending(s, p) && p != o
  {
    hide GoodObject;
    var t := StopObject(s, o);
    assert forall h | h in t.armed :: h in s.armed && s.armed[h] != o && t.armed[h] == s.armed[h];
    assert forall h | h in s.armed && s.armed[h] != o :: h in t.armed;
  }

  lemma StopObjectKeeps(s: System, o: nat)
    requires Inv(s) && o < |s.objects|
    ensures Inv(StopObject(s, o))
  {
    var t := StopObject(s, o);
    StopObjectHandles(s, o);
    hide GoodWorker, GoodHandles, GoodRegistry, Pending;
    forall p | 0 <= p < |t.objects| ensures GoodObject(t, p) {
      if p != o {
        assert SameFor(s, t, p);
        OthersGood(s, t, p);
      } else {
        assert GoodObject(s, o);
        SameWorkerGood(s.objects[o], t.objects[o]);
      }
    }
  }

  /** Stopping one more object on top of those done. */
  lemma StopOneMore(s: System, done: set<nat>, o: nat)
    requires o < |s.objects| && o !in done
    ensures StopObject(StopSet(s, done), o) == StopSet(s, done + {o})
  {
    var t := StopSet(s, done);
    assert t.objects[o] == s.objects[o];
    var held := HeldTimers(s, done + {o});
    if s.objects[o].timer.Some? {
      assert held == HeldTimers(s, done) + {s.objects[o].timer.value} by {
        assert s.objects[o].timer.value in held;
      }
    } else {
      assert held == HeldTimers(s, done);
    }
  }

  lemma {:induction false} StopSetKeeps(s: System, done: set<nat>)
    requires Inv(s) && forall o | o in done :: o < |s.objects|
    ensures Inv(StopSet(s, done))
    decreases done
  {
    if done == {} {
      assert StopSet(s, {}) == s;
    } else {
      var o :| o in done;
      StopSetKeeps(s, done - {o});
      StopOneMore(s, done - {o}, o);
      StopObjectKeeps(StopSet(s, done - {o}), o);
      assert done - {o} + {o} == done;
      hide StopSet, Inv;
    }
  }

  lemma PushIsLast(history: seq<CycleLog>, log: CycleLog)
    ensures PushLog(LastLogs(history), log) == LastLogs(history + [log])
  {
  }

  lemma EndedGood(w: WorkerState, cycle: nat, outcome: CycleOutcome)
    requires GoodWorker(w) && !w.status.Error? && cycle == |w.history| + 1
    ensures GoodWorker(Ended(w, cycle, outcome)) && |Ended(w, cycle, outcome).history| == cycle
    ensures Ended(w, cycle, outcome).status.Running? ==> w.status.Running?
  {
    hide LastLogs, PushLog, TrailingFailures;
    var log := LogOf(w, cycle, outcome);
    PushIsLast(w.history, log);
    OneMoreTrailing(w.history, log);
    var history := w.history + [log];
    assert forall i | 0 <= i < |w.history| :: history[i] == w.history[i];
  }

  lemma OneMoreTrailing(history: seq<CycleLog>, log: CycleLog)
    ensures TrailingFailures(history + [log]) == if log.failed then 1 + TrailingFailures(history) else 0
  {
    assert (history + [log])[..|history|] == history;
  }

  /** Nothing is pending for an object whose cycle ends, so clearing its timer clears nothing. */
  lemma EndCycleShape(s: System, o: nat, cycle: nat, outcome: CycleOutcome)
    requires Inv(s) && o < |s.objects| && (o, cycle) in s.inFlight
    ensures var ended := Ended(s.objects[o], cycle, outcome);
      EndCycleStep(s, o, cycle, outcome)
      == (if ended.status.Running? then EndedRunning(s, o, cycle, ended) else EndedIdle(s, o, cycle, ended))
    ensures cycle == s.objects[o].cycleCount && Busy(s, o) && !Pending(s, o)
  {
    assert GoodObject(s, o) && cycle == s.objects[o].cycleCount && Busy(s, o) && !Pending(s, o);
    assert Cleared(s.armed, s.objects[o].timer) == s.armed;
  }

  function EndedRunning(s: System, o: nat, cycle: nat, ended: WorkerState): System
    requires o < |s.objects|
  {
    s.(objects := s.objects[o := ended.(timer := Some(s.nextHandle))], inFlight := s.inFlight - {(o, cycle)},
       armed := s.armed[s.nextHandle := o], nextHandle := s.nextHandle + 1)
  }

  function EndedIdle(s: System, o: nat, cycle: nat, ended: WorkerState): System
    requires o < |s.objects|
  {
    s.(objects := s.objects[o := ended], inFlight := s.inFlight - {(o, cycle)})
  }

  lemma EndedObject(s: System, o: nat, cycle: nat, outcome: CycleOutcome)
    requires Inv(s) && o < |s.objects| && cycle == s.objects[o].cycleCount && Busy(s, o)
    ensures var w, ended := s.objects[o], Ended(s.objects[o], cycle, outcome);
      && GoodWorker(ended) && |ended.history| == cycle && ended.id == w.id && ended.cycleCount == cycle
      && (ended.status.Running? ==> w.status.Running?) && (ended.timer == w.timer || ended.timer == None)
  {
    assert GoodObject(s, o);
    EndedGood(s.objects[o], cycle, outcome);
    hide GoodWorker;
  }

  lemma EndCycleKeeps(s: System, o: nat, cycle: nat, outcome: CycleOutcome)
    requires Inv(s) && o < |s.objects| && (o, cycle) in s.inFlight
    ensures Inv(EndCycleStep(s, o, cycle, outcome))
  {
    EndCycleShape(s, o, cycle, outcome);
    EndedObject(s, o, cycle, outcome);
    var ended := Ended(s.objects[o], cycle, outcome);
    assert GoodObject(s, o);
    hide Ended, GoodWorker, EndCycleStep;
    if ended.status.Running? {
      RunningEndKeeps(s, o, cycle, ended);
    } else {
      IdleEndKeeps(s, o, cycle, ended);
    }
  }

  lemma RunningEndHandles(s: System, o: nat, cycle: nat, ended: WorkerState)
    requires Inv(s) && o < |s.objects| && (o, cycle) in s.inFlight && cycle == s.objects[o].cycleCount && !Pending(s, o)
    requires cycle == ended.cycleCount && ended.id == s.objects[o].id
    ensures var t := EndedRunning(s, o, cycle, ended);
      && GoodRegistry(t) && GoodHandles(t) && !Busy(t, o) && Pending(t, o)
      && forall p :: p != o ==> (Pending(t, p) <==> Pending(s, p))
  {
    hide GoodObject;
    var t := EndedRunning(s, o, cycle, ended);
    assert s.nextHandle !in s.armed;
    assert t.armed[s.nextHandle] == o;
    forall p | p != o && Pending(s, p) ensures Pending(t, p) {
      var h :| h in s.armed && s.armed[h] == p;
      assert h in t.armed && t.armed[h] == p;
    }
  }

  lemma RunningEndKeeps(s: System, o: nat, cycle: nat, ended: WorkerState)
    requires Inv(s) && o < |s.objects| && (o, cycle) in s.inFlight && cycle == s.objects[o].cycleCount && !Pending(s, o)
    requires GoodWorker(ended) && |ended.history| == cycle == ended.cycleCount && ended.id == s.objects[o].id
    requires ended.status.Running? && s.objects[o].status.Running?
    ensures Inv(EndedRunning(s, o, cycle, ended))
  {
    var t := EndedRunning(s, o, cycle, ended);
    RunningEndHandles(s, o, cycle, ended);
    assert GoodObject(s, o);
    assert forall p | 0 <= p < |s.objects| && p != o :: Busy(t, p) <==> Busy(s, p);
    hide GoodWorker, GoodHandles, GoodRegistry, Pending, Busy;
    assert GoodWorker(t.objects[o]) by { SameWorkerGood(ended, t.objects[o]); }
    forall p | 0 <= p < |t.objects| && p != o ensures GoodObject(t, p) {
      assert SameFor(s, t, p);
      OthersGood(s, t, p);
    }
  }

  lemma IdleEndKeeps(s: System, o: nat, cycle: nat, ended: WorkerState)
    requires Inv(s) && o < |s.objects| && (o, cycle) in s.inFlight && cycle == s.objects[o].cycleCount && !Pending(s, o)
    requires GoodWorker(ended) && |ended.history| == cycle == ended.cycleCount && ended.id == s.objects[o].id
    requires !ended.status.Running? && (ended.timer == s.objects[o].timer || ended.timer == None)
    ensures Inv(EndedIdle(s, o, cycle, ended))
  {
    var t := EndedIdle(s, o, cycle, ended);
    hide GoodWorker;
    assert !Busy(t, o) && !Pending(t, o);
    forall p | 0 <= p < |t.objects| && p != o ensures GoodObject(t, p) {
      assert SameFor(s, t, p);
      OthersGood(s, t, p);
    }
  }

  lemma StartKeeps(s: System, id: string, dryRun: bool, max: real)
    requires Inv(s) && max >= 1.0
    ensures Inv(Step(s, Start(id, dryRun, max)))
  {
    if !IsRunning(s, id) {
      var o, w := |s.objects|, Fresh(id, dryRun, max);
      var t := s.(objects := s.objects + [w], registry := s.registry[id := o]);
      hide GoodWorker;
      forall p | 0 <= p < o ensures GoodObject(t, p) {
        assert GoodObject(s, p);
        assert SameFor(s, t, p);
        OthersGood(s, t, p);
      }
      assert GoodWorker(w) by { FreshGood(id, dryRun, max); }
      assert !Pending(t, o) && !Busy(t, o);
      BeginCycleKeeps(t, o);
    }
  }

  lemma FreshGood(id: string, dryRun: bool, max: real)
    requires max >= 1.0
    ensures GoodWorker(Fresh(id, dryRun, max))
  {
  }

  lemma FiredHandles(s: System, h: nat)
    requires Inv(s) && h in s.armed
    ensures var o, t := s.armed[h], s.(armed := s.armed - {h});
      && GoodRegistry(t) && GoodHandles(t) && Pending(s, o) && !Pending(t, o)
      && forall p :: p != o ==> (Pending(t, p) <==> Pending(s, p))
  {
    hide GoodObject;
    var t := s.(armed := s.armed - {h});
    forall p | p != s.armed[h] && Pending(s, p) ensures Pending(t, p) {
      var g :| g in s.armed && s.armed[g] == p;
      assert g in t.armed && t.armed[g] == p;
    }
  }

  lemma FireKeeps(s: System, h: nat)
    requires Inv(s)
    ensures Inv(Step(s, Fire(h)))
  {
    if h in s.armed {
      var o, t := s.armed[h], s.(armed := s.armed - {h});
      assert o < |s.objects|;
      FiredHandles(s, h);
      hide GoodWorker, GoodHandles, GoodRegistry, Pending, BeginCycle;
      forall p | 0 <= p < |s.objects| && p != o ensures GoodObject(t, p) {
        assert SameFor(s, t, p);
        OthersGood(s, t, p);
      }
      assert GoodObject(s, o);
      BeginCycleKeeps(t, o);
    }
  }

  lemma StepKeeps(s: System, e: Event)
    requires Inv(s) && GoodStart(e)
    ensures Inv(Step(s, e))
  {
    match e
    case Start(id, dryRun, max) => StartKeeps(s, id, dryRun, max);
    case Stop(id) =>
      hide StopObject, GoodObject, GoodHandles;
      if id in s.registry { StopObjectKeeps(s, s.registry[id]); }
    case StopAll => StopSetKeeps(s, RunningSet(s));
    case Fire(h) => FireKeeps(s, h);
    case EndCycle(o, cycle, outcome) =>
      hide EndCycleStep, GoodObject, GoodHandles;
      if (o, cycle) in s.inFlight { EndCycleKeeps(s, o, cycle, outcome); }
  }

  /** The invariant holds after every interleaving of steps. */
  lemma {:induction false} RunKeeps(s: System, es: seq<Event>)
    requires Inv(s) && forall i | 0 <= i < |es| :: GoodStart(es[i])
    ensures Inv(Run(s, es))
    decreases |es|
  {
    if es != [] {
      StepKeeps(s, es[0]);
      hide Step, Inv, GoodStart;
      RunKeeps(Step(s, es[0]), es[1..]);
    }
  }

  // ---- what the invariant says over whole runs ----

  ghost predicate Reachable(s: System) {
    exists es :: (forall i | 0 <= i < |es| :: GoodStart(es[i])) && s == Run(EMPTY, es)
  }

  lemma ReachableInv(s: System)
    requires Reachable(s)
    ensures Inv(s)
  {
    var es :| (forall i | 0 <= i < |es| :: GoodStart(es[i])) && s == Run(EMPTY, es);
    EmptyInv();
    RunKeeps(EMPTY, es);
  }

  /** At most one running object per id; a running object has exactly one pending timer
      or exactly one cycle in flight, never both, and its errors are below its limit. */
  lemma RunningIsExclusive(s: System, o: nat)
    requires Reachable(s) && o < |s.objects| && s.objects[o].status.Running?
    ensures forall p | 0 <= p < |s.objects| && p != o && s.objects[p].status.Running? :: s.objects[p].id != s.objects[o].id
    ensures Pending(s, o) <==> !Busy(s, o)
    ensures forall g, h | g in s.armed && h in s.armed && s.armed[g] == s.armed[h] == o :: g == h
    ensures forall c :: (o, c) in s.inFlight ==> c == s.objects[o].cycleCount
    ensures s.objects[o].consecutiveErrors as real < s.objects[o].maxConsecutiveErrors
  {
    ReachableInv(s);
    assert GoodObject(s, o);
    forall p | 0 <= p < |s.objects| && p != o && s.objects[p].status.Running?
      ensures s.objects[p].id != s.objects[o].id
    {
      assert GoodObject(s, p);
    }
    forall c | (o, c) in s.inFlight ensures c == s.objects[o].cycleCount {
      assert (o, c).0 == o && (o, c).1 == c;
    }
  }

  /** The visible logs are the last 50 of the history, and the history numbers its cycles
      1, 2, 3, ... without gaps, up to the cycle count less the cycle in flight. */
  lemma LogsAreWindow(s: System, o: nat)
    requires Reachable(s) && o < |s.objects|
    ensures var w := s.objects[o];
      && |w.recentLogs| == (if |w.history| < 50 then |w.history| else 50)
      && w.recentLogs == w.history[|w.history| - |w.recentLogs|..]
      && (forall i | 0 <= i < |w.history| :: w.history[i].cycleNumber == i + 1)
      && |w.history| == w.cycleCount - (if Busy(s, o) then 1 else 0)
      && (forall i | 0 <= i < |w.history| && w.history[i].executed ::
            !w.dryRun && w.history[i].action.Some? && !w.history[i].action.value.Hold?)
  {
    ReachableInv(s);
    hide Reachable, TrailingFailures, GoodRegistry, GoodHandles;
    assert GoodObject(s, o);
  }

  lemma {:induction false} AllFailedTrail(history: seq<CycleLog>)
    requires forall i | 0 <= i < |history| :: history[i].failed
    ensures TrailingFailures(history) == |history|
  {
    if history != [] {
      AllFailedTrail(history[..|history| - 1]);
    }
  }

  /** A worker all of whose reads have failed so far is running only while it has ended
      fewer cycles than its limit; one that was never stopped is running exactly while its
      consecutive failures are below the limit. */
  lemma FailingLeavesRunning(s: System, o: nat)
    requires Reachable(s) && o < |s.objects|
    ensures var w := s.objects[o];
      && ((w.status.Running? && forall i | 0 <= i < |w.history| :: w.history[i].failed) ==>
            |w.history| as real < w.maxConsecutiveErrors)
      && (!w.status.Stopped? ==>
            (w.status.Running? <==> TrailingFailures(w.history) as real < w.maxConsecutiveErrors))
  {
    ReachableInv(s);
    assert GoodObject(s, o);
    if forall i | 0 <= i < |s.objects[o].history| :: s.objects[o].history[i].failed {
      AllFailedTrail(s.objects[o].history);
    }
  }

  /** After stop-all nothing is running and no timer is pending. */
  lemma StopAllSilences(s: System)
    requires Reachable(s)
    ensures var t := Step(s, StopAll);
      && t.armed == map[] && t.inFlight == s.inFlight
      && forall o | 0 <= o < |t.objects| :: !t.objects[o].status.Running?
  {
    ReachableInv(s);
    var t := Step(s, StopAll);
    StepKeeps(s, StopAll);
    forall o | 0 <= o < |t.objects| ensures !t.objects[o].status.Running? {
      assert GoodObject(s, o);
      assert s.objects[o].status.Running? ==> o in RunningSet(s);
    }
    if h :| h in t.armed {
      assert GoodObject(t, t.armed[h]) && Pending(t, t.armed[h]);
    }
  }

  // ---- a worker that is not running never starts another cycle ----

  /** From s to t object o stayed idle: no new cycle, no longer running, and at most the
      one cycle that was in flight has ended. */
  predicate StayedIdle(s: System, t: System, o: nat)
    requires o < |s.objects|
  {
    && o < |t.objects| && !t.objects[o].status.Running?
    && t.objects[o].cycleCount == s.objects[o].cycleCount
    && (if Busy(t, o) then Busy(s, o) && t.objects[o].history == s.objects[o].history
        else if Busy(s, o) then
          |t.objects[o].history| == |s.objects[o].history| + 1 && s.objects[o].history <= t.objects[o].history
        else t.objects[o].history == s.objects[o].history)
  }

  lemma StepStaysIdle(s: System, e: Event, o: nat)
    requires Inv(s) && o < |s.objects| && !s.objects[o].status.Running?
    ensures StayedIdle(s, Step(s, e), o)
  {
    assert GoodObject(s, o) && !Pending(s, o);
    hide GoodWorker, GoodHandles, Ended, Cleared;
    match e
    case Start(id, dryRun, max) =>
    case Stop(id) =>
    case StopAll => assert o !in RunningSet(s);
    case Fire(h) => assert h in s.armed ==> s.armed[h] != o;
    case EndCycle(p, cycle, outcome) =>
      if (p, cycle) in s.inFlight {
        EndCycleShape(s, p, cycle, outcome);
        hide EndCycleStep;
        if p == o { assert Busy(s, o); }
      }
  }

  lemma StayedIdleTransitive(s: System, t: System, u: System, o: nat)
    requires o < |s.objects| && StayedIdle(s, t, o) && StayedIdle(t, u, o)
    ensures StayedIdle(s, u, o)
  {
  }

  /** Once an object is not running, no run makes it start a cycle again. */
  lemma {:induction false} NeverStartsAgain(s: System, es: seq<Event>, o: nat)
    requires Inv(s) && o < |s.objects| && !s.objects[o].status.Running?
    requires forall i | 0 <= i < |es| :: GoodStart(es[i])
    ensures StayedIdle(s, Run(s, es), o)
    decreases |es|
  {
    if es != [] {
      var t := Step(s, es[0]);
      StepKeeps(s, es[0]);
      StepStaysIdle(s, es[0], o);
      hide Step, Inv, GoodStart;
      assert o < |t.objects|;
      NeverStartsAgain(t, es[1..], o);
      StayedIdleTransitive(s, t, Run(s, es), o);
    }
  }

  // ---- what a worker that is not running can still do ----

  /** A step adds at most one object, the fresh one of an accepted start; the others keep
      their id and their mode. */
  lemma StepFrame(s: System, e: Event, o: nat)
    requires Inv(s) && o < |s.objects|
    ensures var t := Step(s, e);
      o < |t.objects| && t.objects[o].id == s.objects[o].id && t.objects[o].dryRun == s.objects[o].dryRun
  {
    hide GoodObject, GoodHandles, PushLog, LogOf, Cleared;
    match e
    case Start(id, dryRun, max) =>
    case Stop(id) =>
    case StopAll =>
    case Fire(h) =>
    case EndCycle(p, cycle, outcome) =>
  }

  lemma {:induction false} ModeStays(s: System, es: seq<Event>, o: nat)
    requires Inv(s) && o < |s.objects| && forall i | 0 <= i < |es| :: GoodStart(es[i])
    ensures o < |Run(s, es).objects| && Run(s, es).objects[o].dryRun == s.objects[o].dryRun
    decreases |es|
  {
    if es != [] {
      hide Step, Inv, GoodStart;
      StepKeeps(s, es[0]);
      StepFrame(s, es[0], o);
      ModeStays(Step(s, es[0]), es[1..], o);
    }
  }

  /** The history of object o grew from s to t by a cycle that executed its action. */
  predicate Executed(s: System, t: System, o: nat) {
    && o < |s.objects| && o < |t.objects|
    && exists i :: |s.objects[o].history| <= i < |t.objects[o].history| && t.objects[o].history[i].executed
  }

  ghost predicate CanStillSend(s: System, o: nat) {
    exists es :: (forall i | 0 <= i < |es| :: GoodStart(es[i])) && Executed(s, Run(s, es), o)
  }

  /** A worker that is not running can still send something exactly when one of its cycles is
      in flight and it is not a dry run: stopping does not recall the cycle in flight. */
  lemma StoppedSendsExactlyWhenBusy(s: System, o: nat)
    requires Inv(s) && o < |s.objects| && !s.objects[o].status.Running?
    ensures CanStillSend(s, o) <==> Busy(s, o) && !s.objects[o].dryRun
  {
    if CanStillSend(s, o) {
      var es :| (forall i | 0 <= i < |es| :: GoodStart(es[i])) && Executed(s, Run(s, es), o);
      ExecutedWasBusy(s, es, o);
    }
    if Busy(s, o) && !s.objects[o].dryRun {
      var e := EndCycle(o, s.objects[o].cycleCount, Decided(Repay(0.0, 0.0, 1.0), true));
      EndingExecutes(s, o);
      RunOne(s, e);
      assert forall i | 0 <= i < |[e]| :: GoodStart([e][i]);
    }
  }

  lemma ExecutedWasBusy(s: System, es: seq<Event>, o: nat)
    requires Inv(s) && o < |s.objects| && !s.objects[o].status.Running?
    requires (forall i | 0 <= i < |es| :: GoodStart(es[i])) && Executed(s, Run(s, es), o)
    ensures Busy(s, o) && !s.objects[o].dryRun
  {
    hide Run, Inv, GoodStart, Busy;
    NeverStartsAgain(s, es, o);
    ModeStays(s, es, o);
    RunKeeps(s, es);
    if s.objects[o].dryRun {
      DryNeverExecutes(Run(s, es), o);
    }
  }

  lemma DryNeverExecutes(s: System, o: nat)
    requires Inv(s) && o < |s.objects| && s.objects[o].dryRun
    ensures forall i | 0 <= i < |s.objects[o].history| :: !s.objects[o].history[i].executed
  {
    hide TrailingFailures, LastLogs, GoodRegistry, GoodHandles;
    assert GoodObject(s, o);
  }

  lemma EndingExecutes(s: System, o: nat)
    requires Inv(s) && o < |s.objects| && Busy(s, o) && !s.objects[o].dryRun
    ensures Executed(s, Step(s, EndCycle(o, s.objects[o].cycleCount, Decided(Repay(0.0, 0.0, 1.0), true))), o)
  {
    hide Inv, PushLog, Cleared;
    var outcome := Decided(Repay(0.0, 0.0, 1.0), true);
    var w := s.objects[o];
    var t := Step(s, EndCycle(o, w.cycleCount, outcome));
    assert t.objects[o].history == w.history + [LogOf(w, w.cycleCount, outcome)];
    assert t.objects[o].history[|w.history|].executed;
  }

  lemma RunOne(s: System, e: Event)
    ensures Run(s, [e]) == Step(s, e)
  {
    hide Step;
    assert [e][1..] == [];
    assert Run(Step(s, e), []) == Step(s, e);
  }

  /** One such run from the start: a stopped worker sends its transactions. */
  lemma StoppedMayStillSend(action: LtvAction, max: real)
    requires !action.Hold? && max >= 1.0
    ensures var t := Run(EMPTY, [Start("w", false, max), Stop("w"), EndCycle(0, 1, Decided(action, true))]);
      && |t.objects| == 1 && t.objects[0].status.Stopped? && t.inFlight == {} && t.armed == map[]
      && t.objects[0].history == [CycleLog(1, false, Some(action), true)]
  {
    var e1, e2, e3 := Start("w", false, max), Stop("w"), EndCycle(0, 1, Decided(action, true));
    var s1 := Step(EMPTY, e1);
    var s2 := Step(s1, e2);
    var s3 := Step(s2, e3);
    assert (0, 1) in s2.inFlight;
    assert s3.inFlight == {};
    assert [e1, e2, e3][1..] == [e2, e3] && [e2, e3][1..] == [e3] && [e3][1..] == [];
    RunThree(EMPTY, e1, e2, e3);
  }

  lemma RunThree(s: System, e1: Event, e2: Event, e3: Event)
    ensures Run(s, [e1, e2, e3]) == Step(Step(Step(s, e1), e2), e3)
  {
    hide Step;
    assert [e1, e2, e3][1..] == [e2, e3] && [e2, e3][1..] == [e3] && [e3][1..] == [];
    assert Run(Step(Step(s, e1), e2), [e3]) == Run(Step(Step(Step(s, e1), e2), e3), []);
  }

  // ---- one account is acted on by one cycle at a time, unless a start overlaps ----

  predicate Live(s: System, o: nat) {
    o < |s.objects| && (s.objects[o].status.Running? || Busy(s, o))
  }

  /** No two objects of one id are running or have a cycle in flight. */
  ghost predicate LiveAlone(s: System) {
    forall o, p | 0 <= o < |s.objects| && 0 <= p < |s.objects| && Live(s, o) && Live(s, p) ::
      s.objects[o].id == s.objects[p].id ==> o == p
  }

  /** No id has two cycles in flight. */
  ghost predicate BusyAlone(s: System) {
    forall o, p | 0 <= o < |s.objects| && 0 <= p < |s.objects| && Busy(s, o) && Busy(s, p) ::
      s.objects[o].id == s.objects[p].id ==> o == p
  }

  predicate IdBusy(s: System, id: string) {
    exists o | 0 <= o < |s.objects| :: s.objects[o].id == id && Busy(s, o)
  }

  /** A start that is let through although a stopped worker of the id has a cycle in flight. */
  predicate OverlappingStart(s: System, e: Event) {
    e.Start? && !IsRunning(s, e.id) && IdBusy(s, e.id)
  }

  lemma StartAdds(s: System, id: string, dryRun: bool, max: real)
    requires Inv(s) && !IsRunning(s, id)
    ensures var t := Step(s, Start(id, dryRun, max));
      && |t.objects| == |s.objects| + 1 && t.objects[|s.objects|].id == id && Busy(t, |s.objects|)
      && t.objects[|s.objects|].dryRun == dryRun && t.objects[|s.objects|].maxConsecutiveErrors == max
      && t.objects[|s.objects|].history == [] && t.objects[|s.objects|].status == Running
      && forall p | 0 <= p < |s.objects| :: t.objects[p] == s.objects[p] && (Busy(t, p) <==> Busy(s, p))
  {
    hide GoodObject, GoodHandles;
  }

  lemma OthersAddNone(s: System, e: Event)
    requires Inv(s) && (e.Start? ==> IsRunning(s, e.id))
    ensures |Step(s, e).objects| == |s.objects|
  {
    hide GoodObject, GoodHandles, GoodRegistry, Ended, Cleared;
  }

  /** An object that was not live does not come to life. */
  lemma LiveWasLive(s: System, e: Event, o: nat)
    requires Inv(s) && o < |s.objects| && Live(Step(s, e), o)
    ensures Live(s, o)
  {
    hide Step, Inv;
    if !Live(s, o) {
      StepStaysIdle(s, e, o);
    }
  }

  lemma StartStaysAlone(s: System, id: string, dryRun: bool, max: real)
    requires Inv(s) && LiveAlone(s) && !IsRunning(s, id)
    ensures !IdBusy(s, id) ==> LiveAlone(Step(s, Start(id, dryRun, max)))
    ensures IdBusy(s, id) ==> !BusyAlone(Step(s, Start(id, dryRun, max)))
  {
    StartAdds(s, id, dryRun, max);
    NotRunning(s, id);
    hide Step, Inv, IsRunning, Busy;
    var t := Step(s, Start(id, dryRun, max));
    if IdBusy(s, id) {
      var o :| 0 <= o < |s.objects| && s.objects[o].id == id && Busy(s, o);
      assert Busy(t, o) && Busy(t, |s.objects|);
    } else {
      forall p | 0 <= p < |s.objects| && Live(t, p) ensures Live(s, p) && s.objects[p].id != id {
      }
    }
  }

  lemma NotRunning(s: System, id: string)
    requires Inv(s) && !IsRunning(s, id)
    ensures forall o | 0 <= o < |s.objects| && s.objects[o].id == id :: !s.objects[o].status.Running?
  {
    forall o | 0 <= o < |s.objects| && s.objects[o].id == id ensures !s.objects[o].status.Running? {
      assert GoodObject(s, o);
    }
  }

  lemma OtherStaysAlone(s: System, e: Event)
    requires Inv(s) && LiveAlone(s) && (e.Start? ==> IsRunning(s, e.id))
    ensures LiveAlone(Step(s, e))
  {
    OthersAddNone(s, e);
    hide Step, Inv, IsRunning, Live;
    var t := Step(s, e);
    forall o, p | 0 <= o < |t.objects| && 0 <= p < |t.objects| && Live(t, o) && Live(t, p)
      ensures t.objects[o].id == t.objects[p].id ==> o == p
    {
      StepFrame(s, e, o);
      StepFrame(s, e, p);
      LiveWasLive(s, e, o);
      LiveWasLive(s, e, p);
    }
  }

  lemma AloneIsBusyAlone(s: System)
    requires LiveAlone(s)
    ensures BusyAlone(s)
  {
  }

  /** All along the run no id has two cycles in flight. */
  ghost predicate AlwaysBusyAlone(s: System, es: seq<Event>)
    decreases |es|
  {
    BusyAlone(s) && (es != [] ==> AlwaysBusyAlone(Step(s, es[0]), es[1..]))
  }

  predicate NoOverlap(s: System, es: seq<Event>)
    decreases |es|
  {
    es != [] ==> !OverlappingStart(s, es[0]) && NoOverlap(Step(s, es[0]), es[1..])
  }

  lemma {:induction false} AloneExactlyWithoutOverlap(s: System, es: seq<Event>)
    requires Inv(s) && LiveAlone(s) && forall i | 0 <= i < |es| :: GoodStart(es[i])
    ensures AlwaysBusyAlone(s, es) <==> NoOverlap(s, es)
    decreases |es|
  {
    AloneIsBusyAlone(s);
    if es != [] {
      hide Inv, Step, GoodStart, LiveAlone, BusyAlone, IsRunning, IdBusy;
      var t := Step(s, es[0]);
      StepKeeps(s, es[0]);
      if es[0].Start? && !IsRunning(s, es[0].id) {
        StartStaysAlone(s, es[0].id, es[0].dryRun, es[0].maxConsecutiveErrors);
      } else {
        OtherStaysAlone(s, es[0]);
      }
      if !OverlappingStart(s, es[0]) {
        AloneExactlyWithoutOverlap(t, es[1..]);
      }
    }
  }

  /** In a run no account ever has two cycles in flight exactly when no start is made, and
      let through, while a stopped worker of that account still has its cycle in flight. */
  lemma OneCyclePerAccountExactly(es: seq<Event>)
    requires forall i | 0 <= i < |es| :: GoodStart(es[i])
    ensures AlwaysBusyAlone(EMPTY, es) <==> NoOverlap(EMPTY, es)
  {
    EmptyInv();
    hide Inv, GoodStart;
    AloneExactlyWithoutOverlap(EMPTY, es);
  }

  /** Stop and start again at once, and two cycles of one account are in flight. */
  lemma RestartOverlaps(id: string, max: real)
    requires max >= 1.0
    ensures var t := Run(EMPTY, [Start(id, false, max), Stop(id), Start(id, false, max)]);
      && t.inFlight == {(0, 1), (1, 1)} && |t.objects| == 2 && t.objects[0].id == t.objects[1].id == id
      && t.registry == map[id := 1]
  {
    var e1, e2 := Start(id, false, max), Stop(id);
    var s1 := Step(EMPTY, e1);
    var s2 := Step(s1, e2);
    var s3 := Step(s2, e1);
    assert s2.objects[0].status.Stopped? && s2.registry == map[id := 0];
    assert s3.registry == map[id := 1];
    RunThree(EMPTY, e1, e2, e1);
  }

  // ---- what a start sets and a cycle's end records ----

  /** An accepted start puts a running object with the mode and the error limit given, its
      first cycle in flight, under its id. */
  lemma StartSets(es: seq<Event>, id: string, dryRun: bool, max: real)
    requires (forall i | 0 <= i < |es| :: GoodStart(es[i])) && !IsRunning(Run(EMPTY, es), id)
    ensures var s := Run(EMPTY, es);
      var t := Step(s, Start(id, dryRun, max));
      var o := |s.objects|;
      && |t.objects| == o + 1 && t.objects[o].id == id && t.objects[o].dryRun == dryRun
      && t.objects[o].maxConsecutiveErrors == max && t.objects[o].status == Running && t.objects[o].history == []
      && Busy(t, o) && id in t.registry && t.registry[id] == o
  {
    EmptyInv();
    RunKeeps(EMPTY, es);
    hide Run, Inv, GoodStart;
    StartAdds(Run(EMPTY, es), id, dryRun, max);
  }

  /** A worker started in dry-run mode never executes an action, in any continuation. */
  lemma DryStartNeverExecutes(s: System, id: string, max: real, es: seq<Event>)
    requires Inv(s) && !IsRunning(s, id) && max >= 1.0 && forall i | 0 <= i < |es| :: GoodStart(es[i])
    ensures var t := Run(Step(s, Start(id, true, max)), es);
      && |s.objects| < |t.objects| && t.objects[|s.objects|].dryRun
      && forall i | 0 <= i < |t.objects[|s.objects|].history| :: !t.objects[|s.objects|].history[i].executed
  {
    var u := Step(s, Start(id, true, max));
    StartAdds(s, id, true, max);
    StepKeeps(s, Start(id, true, max));
    hide Run, Inv, Step, GoodStart;
    ModeStays(u, es, |s.objects|);
    RunKeeps(u, es);
    DryNeverExecutes(Run(u, es), |s.objects|);
  }

  /** The end of a cycle leaves one log, of that cycle: failed exactly when the reads failed,
      else with the decision, and executed exactly when that was an action, sent, and the
      worker is no dry run. */
  lemma EndIsRecorded(s: System, o: nat, cycle: nat, outcome: CycleOutcome)
    requires Inv(s) && o < |s.objects| && (o, cycle) in s.inFlight
    ensures var w, t := s.objects[o], Step(s, EndCycle(o, cycle, outcome));
      && |t.objects| == |s.objects| && |t.objects[o].history| == |w.history| + 1
      && t.objects[o].history[..|w.history|] == w.history
      && var log := t.objects[o].history[|w.history|];
      && log.cycleNumber == cycle
      && (match outcome
          case ReadsFailed => log.failed && log.action == None && !log.executed
          case Decided(action, sent) =>
            !log.failed && log.action == Some(action) && (log.executed <==> !w.dryRun && !action.Hold? && sent))
  {
    hide Inv, PushLog, Cleared;
  }
}
