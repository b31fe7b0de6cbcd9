/** The worker objects and the registry of src/chains/evm/tools/agent-worker.ts, updated
    in place, against the steps of WorkerMachine. Each worker carries its creation number
    so that the event loop's pending callbacks can name it. */
module AgentWorker {
  import opened Outcomes
  import opened LtvManager
  import opened WorkerMachine

  class Worker {
    const serial: nat
    const id: string
    const dryRun: bool
    const maxConsecutiveErrors: real
    var status: Status
    var cycleCount: nat
    var consecutiveErrors: nat
    var timer: Option<nat>
    var recentLogs: seq<CycleLog>
    ghost var history: seq<CycleLog>

    ghost function Abs(): WorkerState
      reads this
    {
      WorkerState(id, dryRun, maxConsecutiveErrors, status, cycleCount, consecutiveErrors, timer, recentLogs, history)
    }

    constructor (serial: nat, id: string, dryRun: bool, maxConsecutiveErrors: real)
      ensures Abs() == Fresh(id, dryRun, maxConsecutiveErrors) && this.serial == serial
      ensures this.id == id && this.dryRun == dryRun && this.maxConsecutiveErrors == maxConsecutiveErrors
    {
      this.serial, this.id, this.dryRun, this.maxConsecutiveErrors := serial, id, dryRun, maxConsecutiveErrors;
      status, cycleCount, consecutiveErrors, timer, recentLogs, history := Running, 0, 0, None, [], [];
    }

    /** The bookkeeping of a cycle's end; the caller clears the timer it is told to. */
    method Finish(cycle: nat, outcome: CycleOutcome) returns (cleared: Option<nat>)
      modifies this
      ensures Abs() == Ended(old(Abs()), cycle, outcome)
      ensures cleared == if timer != old(timer) then old(timer) else None
    {
      cleared := None;
      ghost var before := Abs();
      var log := CycleLog(cycle, true, None, false);
      match outcome {
        case Decided(action, sent) =>
          log := CycleLog(cycle, false, Some(action), !dryRun && !action.Hold? && sent);
          consecutiveErrors := 0;
        case ReadsFailed =>
          consecutiveErrors := consecutiveErrors + 1;
          if consecutiveErrors as real >= maxConsecutiveErrors {
            status := Error;
            if timer.Some? {
              cleared := timer;
              timer := None;
            }
          }
      }
      recentLogs := recentLogs + [log];
      if |recentLogs| > MAX_LOGS {
        recentLogs := recentLogs[1..];
      }
      history := history + [log];
      assert log == LogOf(before, cycle, outcome);
      assert recentLogs == PushLog(before.recentLogs, log);
    }
  }

  ghost function AbsAll(ws: seq<Worker>): (states: seq<WorkerState>)
    reads ws
    ensures |states| == |ws| && forall i | 0 <= i < |ws| :: states[i] == ws[i].Abs()
  {
    if ws == [] then [] else AbsAll(ws[..|ws| - 1]) + [ws[|ws| - 1].Abs()]
  }

  class WorkerPool {
    var workers: map<string, Worker>
    // The event loop: every worker object its callbacks may refer to, the pending
    // timeouts, and the cycles whose reads have not settled.
    var objects: seq<Worker>
    var armed: map<nat, nat>
    var inFlight: set<(nat, nat)>
    var nextHandle: nat

    /** Every registered or scheduled worker is one of the objects, under its number. */
    ghost predicate Linked()
      reads this, objects
    {
      && (forall i | 0 <= i < |objects| :: objects[i].serial == i)
      && (forall id | id in workers :: workers[id].serial < |objects| && objects[workers[id].serial] == workers[id])
    }

    predicate Has(w: Worker)
      reads this
    {
      w.serial < |objects| && objects[w.serial] == w
    }

    ghost predicate Valid()
      reads this, objects
    {
      Linked() && Inv(Abs())
    }

    ghost function Registry(): map<string, nat>
      reads this
    {
      map id | id in workers :: workers[id].serial
    }

    ghost function Abs(): System
      reads this, objects
    {
      System(AbsAll(objects), Registry(), armed, inFlight, nextHandle)
    }

    constructor ()
      ensures Valid() && Abs() == EMPTY
    {
      workers, objects, armed, inFlight, nextHandle := map[], [], map[], {}, 0;
    }

    /** runCycle up to its first await. */
    method BeginCycle(w: Worker)
      requires Linked() && Has(w)
      modifies this`inFlight, w`cycleCount
      ensures Linked() && Abs() == WorkerMachine.BeginCycle(old(Abs()), w.serial)
    {
      hide AbsAll;
      w.cycleCount := w.cycleCount + 1;
      inFlight := inFlight + {(w.serial, w.cycleCount)};
      assert AbsAll(objects) == old(AbsAll(objects))[w.serial := w.Abs()];
    }

    /** runCycle from the settling of its reads to its end. */
    method FinishCycle(w: Worker, cycle: nat, outcome: CycleOutcome)
      requires Linked() && Has(w)
      modifies this`inFlight, this`armed, this`nextHandle, w
      ensures Linked() && Abs() == EndCycleStep(old(Abs()), w.serial, cycle, outcome)
    {
      hide Ended, AbsAll, Cleared, EndCycleStep;
      ghost var s := Abs();
      assert s.objects[w.serial] == w.Abs();
      SettleCycle(w, cycle, outcome);
      if w.status == Running {
        SetTimer(w);
      }
      assert AbsAll(objects) == s.objects[w.serial := w.Abs()];
      EndCycleIs(s, w.serial, cycle, outcome, Abs());
    }

    method SettleCycle(w: Worker, cycle: nat, outcome: CycleOutcome)
      modifies this`inFlight, this`armed, w
      ensures w.Abs() == Ended(old(w.Abs()), cycle, outcome)
      ensures inFlight == old(inFlight) - {(w.serial, cycle)}
      ensures armed == if w.timer != old(w.timer) then Cleared(old(armed), old(w.timer)) else old(armed)
    {
      hide Ended;
      inFlight := inFlight - {(w.serial, cycle)};
      var cleared := w.Finish(cycle, outcome);
      if cleared.Some? {
        armed := armed - {cleared.value};
      }
    }

    /** setTimeout for the worker's next cycle. */
    method SetTimer(w: Worker)
      modifies this`armed, this`nextHandle, w`timer
      ensures w.timer == Some(old(nextHandle)) && nextHandle == old(nextHandle) + 1
      ensures armed == old(armed)[old(nextHandle) := w.serial]
      ensures w.Abs() == old(w.Abs()).(timer := Some(old(nextHandle)))
    {
      w.timer := Some(nextHandle);
      armed := armed[nextHandle := w.serial];
      nextHandle := nextHandle + 1;
    }

    method EndCycle(serial: nat, cycle: nat, outcome: CycleOutcome)
      requires Valid() && (serial, cycle) in inFlight
      modifies this, objects
      ensures Valid() && Abs() == Step(old(Abs()), Event.EndCycle(serial, cycle, outcome))
    {
      assert (serial, cycle).0 < |objects|;
      StepKeeps(Abs(), Event.EndCycle(serial, cycle, outcome));
      assert Step(Abs(), Event.EndCycle(serial, cycle, outcome)) == EndCycleStep(Abs(), serial, cycle, outcome);
      hide *;
      FinishCycle(objects[serial], cycle, outcome);
    }

    /** A pending timeout fires. Its handle stays in the worker's field. */
    method FireTimer(handle: nat)
      requires Valid() && handle in armed
      modifies this, objects
      ensures Valid() && Abs() == Step(old(Abs()), Fire(handle))
    {
      assert armed[handle] < |objects|;
      StepKeeps(Abs(), Fire(handle));
      hide Inv, WorkerMachine.BeginCycle, AbsAll;
      var w := objects[armed[handle]];
      armed := armed - {handle};
      BeginCycle(w);
    }

    /** The start tool; false when it throws because the id is running. */
    method StartWorker(id: string, dryRun: bool, maxConsecutiveErrors: real) returns (started: bool)
      requires Valid() && maxConsecutiveErrors >= 1.0
      modifies this, objects
      ensures Valid() && Abs() == Step(old(Abs()), Start(id, dryRun, maxConsecutiveErrors))
      ensures started <==> !IsRunning(old(Abs()), id)
      ensures if started then |objects| == |old(objects)| + 1 && objects[..|old(objects)|] == old(objects)
                              && fresh(objects[|old(objects)|]) && objects[|old(objects)|].id == id
                              && objects[|old(objects)|].dryRun == dryRun
                              && objects[|old(objects)|].maxConsecutiveErrors == maxConsecutiveErrors
              else objects == old(objects)
    {
      StepKeeps(Abs(), Start(id, dryRun, maxConsecutiveErrors));
      hide Inv, WorkerMachine.BeginCycle, AbsAll, Fresh;
      if id in workers && workers[id].status == Running {
        return false;
      }
      hide Linked, Registry;
      Launch(id, dryRun, maxConsecutiveErrors);
      return true;
    }

    method Launch(id: string, dryRun: bool, maxConsecutiveErrors: real)
      requires Linked()
      modifies this`workers, this`objects, this`inFlight
      ensures Linked() && |objects| == |old(objects)| + 1 && objects[..|old(objects)|] == old(objects)
      ensures fresh(objects[|old(objects)|])
      ensures objects[|old(objects)|].id == id && objects[|old(objects)|].dryRun == dryRun
      ensures objects[|old(objects)|].maxConsecutiveErrors == maxConsecutiveErrors
      ensures var s := old(Abs());
        Abs() == WorkerMachine.BeginCycle(
          s.(objects := s.objects + [Fresh(id, dryRun, maxConsecutiveErrors)], registry := s.registry[id := |s.objects|]),
          |s.objects|)
    {
      hide WorkerMachine.BeginCycle, AbsAll, Fresh;
      var w := new Worker(|objects|, id, dryRun, maxConsecutiveErrors);
      Register(id, w);
      BeginCycle(w);
    }

    method Register(id: string, w: Worker)
      requires Linked() && w.serial == |objects|
      modifies this`workers, this`objects
      ensures Linked() && objects == old(objects) + [w]
      ensures Abs() == old(Abs()).(objects := old(Abs()).objects + [w.Abs()], registry := old(Registry())[id := w.serial])
    {
      hide AbsAll;
      workers := workers[id := w];
      objects := objects + [w];
      assert AbsAll(objects) == old(AbsAll(objects)) + [w.Abs()];
      assert Registry() == old(Registry())[id := w.serial];
    }

    method StopObject(w: Worker)
      requires Linked() && Has(w)
      modifies this`armed, w
      ensures Linked() && Abs() == WorkerMachine.StopObject(old(Abs()), w.serial)
    {
      hide AbsAll;
      w.status := Stopped;
      if w.timer.Some? {
        armed := armed - {w.timer.value};
        w.timer := None;
      }
      assert AbsAll(objects) == old(AbsAll(objects))[w.serial := w.Abs()];
    }

    /** The stop tool with an id; false when it throws because the id is unknown. */
    method StopWorker(id: string) returns (found: bool)
      requires Valid()
      modifies this, objects
      ensures Valid() && Abs() == Step(old(Abs()), Stop(id)) && (found <==> id in old(workers))
    {
      StepKeeps(Abs(), Stop(id));
      hide Inv, WorkerMachine.StopObject, AbsAll;
      if id !in workers {
        return false;
      }
      StopObject(workers[id]);
      return true;
    }

    /** The stop tool without an id. */
    method StopAllWorkers() returns (count: nat)
      requires Valid()
      modifies this, objects
      ensures Valid() && Abs() == Step(old(Abs()), StopAll) && count == |RunningSet(old(Abs()))|
    {
      ghost var s := Abs();
      StepKeeps(s, StopAll);
      assert Step(s, StopAll) == StopSet(s, RunningSet(s));
      hide StopSet, Step, Inv, RunningSet, AbsAll, Registry, Linked;
      count := StopEach();
    }

    /** It goes through the registry in no particular order. */
    method StopEach() returns (count: nat)
      requires Linked() && Inv(Abs())
      modifies this`armed, objects
      ensures Linked() && Abs() == StopSet(old(Abs()), RunningSet(old(Abs())))
      ensures count == |RunningSet(old(Abs()))|
    {
      ghost var s := Abs();
      assert s.registry.Keys == workers.Keys;
      hide *;
      count := 0;
      var ids := workers.Keys;
      ghost var done := NothingStopped(s);
      while ids != {}
        invariant Linked() && Abs() == StopSet(s, done) && StoppedAllBut(s, ids, done)
        invariant count == |done| && ids <= workers.Keys
        decreases ids
      {
        var id :| id in ids;
        count, done := StopIfRunning(id, count, s, ids, done);
        ids := ids - {id};
      }
      AllStopped(s, done);
    }

    lemma FindWorker(id: string)
      requires Linked() && id in workers
      ensures Has(workers[id]) && id in Abs().registry && Abs().registry[id] == workers[id].serial < |Abs().objects|
      ensures Abs().objects[workers[id].serial].status == workers[id].status
    {
    }

    method StopIfRunning(id: string, before: nat, ghost s: System, ghost ids: set<string>, ghost stopped: set<nat>)
      returns (count: nat, ghost done: set<nat>)
      requires Linked() && Inv(s) && Abs() == StopSet(s, stopped) && StoppedAllBut(s, ids, stopped)
      requires id in ids && id in workers && before == |stopped|
      modifies this`armed, objects
      ensures Linked() && Abs() == StopSet(s, done) && StoppedAllBut(s, ids - {id}, done) && count == |done|
    {
      hide *;
      var w := workers[id];
      count, done := before, stopped;
      FindWorker(id);
      KeepsRegistry(s, stopped);
      OneLess(s, ids, stopped, id);
      if w.status == Running {
        StopOneMore(s, stopped, w.serial);
        StopObject(w);
        count, done := count + 1, done + {w.serial};
      }
    }
  }

  /** The fields of the step that ends a cycle. */
  lemma EndCycleIs(s: System, o: nat, cycle: nat, outcome: CycleOutcome, t: System)
    requires o < |s.objects| && t.registry == s.registry && t.inFlight == s.inFlight - {(o, cycle)}
    requires var ended := Ended(s.objects[o], cycle, outcome);
      var armed := if ended.timer != s.objects[o].timer then Cleared(s.armed, s.objects[o].timer) else s.armed;
      if ended.status.Running? then
        && t.objects == s.objects[o := ended.(timer := Some(s.nextHandle))]
        && t.armed == armed[s.nextHandle := o] && t.nextHandle == s.nextHandle + 1
      else t.objects == s.objects[o := ended] && t.armed == armed && t.nextHandle == s.nextHandle
    ensures t == EndCycleStep(s, o, cycle, outcome)
  {
    hide Ended, Cleared;
  }

  /** `done` are the running objects whose ids are no longer to be visited. */
  ghost predicate StoppedAllBut(s: System, ids: set<string>, done: set<nat>) {
    forall o :: o in done <==> o in RunningSet(s) && s.objects[o].id !in ids
  }

  lemma NothingStopped(s: System) returns (done: set<nat>)
    requires Inv(s)
    ensures done == {} && StopSet(s, done) == s && StoppedAllBut(s, s.registry.Keys, done)
  {
    done := {};
    assert HeldTimers(s, {}) == {};
    assert StopSet(s, {}).objects == s.objects;
  }

  lemma KeepsRegistry(s: System, done: set<nat>)
    ensures StopSet(s, done).registry == s.registry && |StopSet(s, done).objects| == |s.objects|
  {
  }

  lemma AllStopped(s: System, done: set<nat>)
    requires StoppedAllBut(s, {}, done)
    ensures done == RunningSet(s)
  {
  }

  /** Visiting one more id: its object, when running, is the only one this id adds. */
  lemma OneLess(s: System, ids: set<string>, done: set<nat>, id: string)
    requires Inv(s) && id in s.registry && id in ids && StoppedAllBut(s, ids, done)
    ensures s.registry[id] < |s.objects| && s.registry[id] !in done
    ensures StopSet(s, done).objects[s.registry[id]] == s.objects[s.registry[id]]
    ensures StoppedAllBut(s, ids - {id},
              if s.objects[s.registry[id]].status.Running? then done + {s.registry[id]} else done)
  {
    hide GoodObject, GoodHandles;
    assert s.objects[s.registry[id]].id == id;
  }
}
