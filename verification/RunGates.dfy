/** `runGates` itself: the loop over three local collections, proved to perform
    only legal runs of the machine in `GateRun` and to finish them. */
module RunGates {
  import opened Options
  import opened GateGraph
  import opened GateRun

  const MAX_SAFE_INTEGER := 9007199254740991

  datatype RunError = InvalidGraph(error: GraphError) | InvalidConcurrency(maxActive: int)

  predicate ValidConcurrency(maxActive: int) {
    1 <= maxActive <= MAX_SAFE_INTEGER
  }

  /** One result per gate, in input order, from a complete run. */
  ghost predicate ResultsOf(gates: seq<Gate>, maxActive: int, outcome: Outcome, log: seq<Event>,
                            results: seq<GateResult>)
  {
    var s := Replay(gates, outcome, log);
    && Legal(gates, maxActive, outcome, log)
    && Complete(gates, s)
    && |results| == |gates|
    && forall i :: 0 <= i < |gates| ==> gates[i].id in s.results && results[i] == s.results[gates[i].id]
  }

  predicate AnyPending(gates: seq<Gate>, states: map<Id, GateState>) {
    exists gate :: gate in gates && IsPending(states, gate.id)
  }

  lemma LegalStep(gates: seq<Gate>, maxActive: int, outcome: Outcome, log: seq<Event>, event: Event)
    requires Admissible(gates) && 1 <= maxActive
    requires Legal(gates, maxActive, outcome, log)
    requires Enabled(gates, maxActive, Replay(gates, outcome, log), event)
    ensures Legal(gates, maxActive, outcome, log + [event])
    ensures var after := Replay(gates, outcome, log + [event]);
            && after == Apply(outcome, Replay(gates, outcome, log), event)
            && Remaining(after) < Remaining(Replay(gates, outcome, log))
  {
    assert (log + [event])[..|log|] == log;
    ReachableConsistent(gates, maxActive, outcome, log);
    StepConsumes(gates, maxActive, outcome, Replay(gates, outcome, log), event);
  }

  lemma ReplayAligned(gates: seq<Gate>, maxActive: int, outcome: Outcome, log: seq<Event>)
    requires Admissible(gates) && 1 <= maxActive
    requires Legal(gates, maxActive, outcome, log)
    ensures Aligned(gates, maxActive, Replay(gates, outcome, log))
  {
    ReachableConsistent(gates, maxActive, outcome, log);
  }

  lemma NothingPendingIsComplete(gates: seq<Gate>, maxActive: int, outcome: Outcome, log: seq<Event>)
    requires Admissible(gates) && 1 <= maxActive
    requires Legal(gates, maxActive, outcome, log)
    requires var s := Replay(gates, outcome, log); s.running == [] && !AnyPending(gates, s.states)
    ensures Complete(gates, Replay(gates, outcome, log))
  {
    ReplayAligned(gates, maxActive, outcome, log);
    var s := Replay(gates, outcome, log);
    forall gate | gate in gates
      ensures HasSettled(s.states, gate.id)
    {
      assert !IsPending(s.states, gate.id);
    }
  }

  /** The collections `runGates` updates, and the events it has caused so far. */
  class Scheduler {
    const gates: seq<Gate>
    const maxActive: int
    const outcome: Outcome
    var states: map<Id, GateState>
    var results: map<Id, GateResult>
    var running: seq<Id>
    ghost var log: seq<Event>

    ghost function View(): Sched
      reads this
    {
      Sched(states, results, running)
    }

    /** The collections are those of a legal run of the machine. */
    ghost predicate Valid()
      reads this
    {
      && Admissible(gates) && 1 <= maxActive
      && Legal(gates, maxActive, outcome, log)
      && View() == Replay(gates, outcome, log)
    }

    constructor (gates: seq<Gate>, maxActive: int, outcome: Outcome)
      requires Admissible(gates) && 1 <= maxActive
      ensures Valid() && log == []
      ensures this.gates == gates && this.maxActive == maxActive && this.outcome == outcome
    {
      this.gates, this.maxActive, this.outcome := gates, maxActive, outcome;
      states := map id | id in Ids(gates) :: Pending;
      results, running, log := map[], [], [];
    }

    method Start(id: Id)
      requires Valid() && Enabled(gates, maxActive, View(), Event.Start(id))
      modifies this
      ensures Valid() && log == old(log) + [Event.Start(id)] && Remaining(View()) < old(Remaining(View()))
      ensures running == old(running) + [id]
    {
      LegalStep(gates, maxActive, outcome, log, Event.Start(id));
      states := states[id := Running];
      running := running + [id];
      log := log + [Event.Start(id)];
    }

    method Skip(id: Id, failedDeps: seq<Id>)
      requires Valid() && Enabled(gates, maxActive, View(), Event.Skip(id, failedDeps))
      modifies this
      ensures Valid() && log == old(log) + [Event.Skip(id, failedDeps)] && Remaining(View()) < old(Remaining(View()))
    {
      LegalStep(gates, maxActive, outcome, log, Event.Skip(id, failedDeps));
      states := states[id := Settled(Skipped)];
      results := results[id := GateResult(Skipped, failedDeps)];
      log := log + [Event.Skip(id, failedDeps)];
    }

    method Settle(id: Id)
      requires Valid() && Enabled(gates, maxActive, View(), Event.Settle(id))
      modifies this
      ensures Valid() && log == old(log) + [Event.Settle(id)] && Remaining(View()) < old(Remaining(View()))
    {
      LegalStep(gates, maxActive, outcome, log, Event.Settle(id));
      running := Without(running, id);
      states := states[id := Settled(outcome(id))];
      results := results[id := GateResult(outcome(id), [])];
      log := log + [Event.Settle(id)];
    }

    /** Start gates until the pool is full or nothing is startable. */
    method FillSlots() returns (madeProgress: bool)
      requires Valid()
      modifies this
      ensures Valid()
      ensures maxActive <= |running| || FirstStartable(gates, states).None?
      ensures if madeProgress then Remaining(View()) < old(Remaining(View())) && running != []
              else View() == old(View())
    {
      madeProgress := false;
      while |running| < maxActive
        invariant Valid()
        invariant if madeProgress then Remaining(View()) < old(Remaining(View())) && running != []
                  else View() == old(View())
        decreases Remaining(View())
      {
        var ready := FirstStartable(gates, states);
        if ready.None? {
          break;
        }
        Start(ready.value.id);
        madeProgress := true;
      }
    }

    method SkipBlocked()
      requires Valid() && running == [] && FirstStartable(gates, states).None?
      requires AnyPending(gates, states)
      modifies this
      ensures Valid() && Remaining(View()) < old(Remaining(View()))
    {
      ReplayAligned(gates, maxActive, outcome, log);
      var blocked := FirstBlocked(gates, states);
      if blocked.None? {
        // "validated graph stalled without a failed dependency"
        NeverStalls(gates, states);
        assert false;
      }
      Skip(blocked.value.id, FailedAmong(blocked.value.needs, states));
    }

    /** Wait for any one running gate. */
    method AwaitOne()
      requires Valid() && running != []
      requires maxActive <= |running| || FirstStartable(gates, states).None?
      modifies this
      ensures Valid() && Remaining(View()) < old(Remaining(View()))
    {
      assert 0 <= 0 < |running|;
      var choice :| 0 <= choice < |running|;
      Settle(running[choice]);
    }

    method Run()
      requires Valid()
      modifies this
      ensures Valid() && Complete(gates, View())
    {
      while true
        invariant Valid()
        decreases Remaining(View())
      {
        var madeProgress := FillSlots();
        if |running| == 0 {
          if !AnyPending(gates, states) {
            break;
          }
          SkipBlocked();
          continue;
        }
        if !madeProgress {
          AwaitOne();
        }
      }
      NothingPendingIsComplete(gates, maxActive, outcome, log);
    }

    method Collect() returns (inOrder: seq<GateResult>)
      requires Valid() && Complete(gates, View())
      ensures ResultsOf(gates, maxActive, outcome, log, inOrder)
    {
      ReplayAligned(gates, maxActive, outcome, log);
      inOrder := [];
      for i := 0 to |gates|
        invariant |inOrder| == i
        invariant forall k :: 0 <= k < i ==> gates[k].id in results && inOrder[k] == results[gates[k].id]
      {
        assert HasSettled(states, gates[i].id);
        if gates[i].id !in results {
          // "missing result"
          assert false;
        }
        inOrder := inOrder + [results[gates[i].id]];
      }
    }
  }

  /** Which running gate settles next is an arbitrary choice, so the contract holds
      for every settle order. */
  method RunGates(gates: seq<Gate>, maxActive: int, outcome: Outcome)
    returns (answer: Result<seq<GateResult>, RunError>, ghost log: seq<Event>)
    ensures answer.Ok? <==> Admissible(gates) && 1 <= maxActive <= 9007199254740991
    ensures answer.Ok? ==> ResultsOf(gates, maxActive, outcome, log, answer.value)
    ensures !Admissible(gates) ==>
              answer.Err? && answer.error.InvalidGraph? && Justified(gates, answer.error.error)
    ensures Admissible(gates) && answer.Err? ==> answer == Err(InvalidConcurrency(maxActive))
  {
    log := [];
    var invalid := ValidateGateGraph(gates);
    if invalid.Some? {
      return Err(InvalidGraph(invalid.value)), log;
    }
    if !ValidConcurrency(maxActive) {
      return Err(InvalidConcurrency(maxActive)), log;
    }
    var scheduler := new Scheduler(gates, maxActive, outcome);
    scheduler.Run();
    var inOrder := scheduler.Collect();
    return Ok(inOrder), scheduler.log;
  }

  /** Any two finished calls on one gate list return the same results, whatever
      settles when and whatever their concurrency. */
  lemma ResultsIndependentOfSchedule(
    gates: seq<Gate>, outcome: Outcome,
    maxA: int, logA: seq<Event>, resultsA: seq<GateResult>,
    maxB: int, logB: seq<Event>, resultsB: seq<GateResult>)
    requires Admissible(gates) && 1 <= maxA && 1 <= maxB
    requires ResultsOf(gates, maxA, outcome, logA, resultsA)
    requires ResultsOf(gates, maxB, outcome, logB, resultsB)
    ensures resultsA == resultsB
  {
    ScheduleIndependence(gates, outcome, maxA, logA, maxB, logB);
  }

  /** The returned statuses solve the dependency equations, which no other
      statuses do: a gate is skipped exactly when one of its needs did not pass. */
  ghost predicate SolvesStatuses(gates: seq<Gate>, outcome: Outcome, status: map<Id, ResultStatus>) {
    && status.Keys == Ids(gates)
    && forall gate :: gate in gates ==>
         status[gate.id] == if exists n :: n in gate.needs && n in status && status[n] != Passed
                            then Skipped else outcome(gate.id)
  }

  lemma ResultsSolveStatuses(gates: seq<Gate>, maxActive: int, outcome: Outcome, log: seq<Event>,
                             results: seq<GateResult>, status: map<Id, ResultStatus>)
    requires Admissible(gates) && 1 <= maxActive
    requires ResultsOf(gates, maxActive, outcome, log, results)
    requires status.Keys == Ids(gates)
    requires forall i :: 0 <= i < |gates| ==> status[gates[i].id] == results[i].status
    ensures SolvesStatuses(gates, outcome, status)
  {
    var s := Replay(gates, outcome, log);
    ReachableConsistent(gates, maxActive, outcome, log);
    forall id | id in status
      ensures HasSettled(s.states, id) && status[id] == s.states[id].status
    {
      var i :| 0 <= i < |gates| && gates[i].id == id;
    }
    forall gate | gate in gates
      ensures status[gate.id] == if exists n :: n in gate.needs && n in status && status[n] != Passed
                                 then Skipped else outcome(gate.id)
    {
      FinalStatuses(gates, maxActive, outcome, log, gate);
      assert NeedFailed(gate, s.states) <==> exists n :: n in gate.needs && n in status && status[n] != Passed;
    }
  }

  lemma StatusFollowsNeeds(gates: seq<Gate>, outcome: Outcome, a: map<Id, ResultStatus>, b: map<Id, ResultStatus>,
                           gate: Gate)
    requires SolvesStatuses(gates, outcome, a) && SolvesStatuses(gates, outcome, b) && gate in gates
    requires forall n :: n in gate.needs && n in a ==> a[n] == b[n]
    ensures a[gate.id] == b[gate.id]
  {
  }

  lemma StatusesUnique(gates: seq<Gate>, outcome: Outcome, a: map<Id, ResultStatus>, b: map<Id, ResultStatus>)
    requires Admissible(gates)
    requires SolvesStatuses(gates, outcome, a) && SolvesStatuses(gates, outcome, b)
    ensures a == b
  {
    var differing := set id | id in a && a[id] != b[id];
    if differing != {} {
      var gate := MinimalGate(gates, differing);
      StatusFollowsNeeds(gates, outcome, a, b, gate);
    }
    assert forall id :: id in a ==> id !in differing;
  }
}
