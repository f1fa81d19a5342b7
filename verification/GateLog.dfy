/** The scheduler seen from outside: what a run is, said of its log alone.

    The log is read as the order of events. Nothing here looks at the scheduler's
    own states, list of running gates, or searches. */
module GateLog {
  import opened Options
  import opened GateGraph
  import opened GateRun

  // ---- What the events so far say of one gate ----

  /** No event of the gate has happened. */
  ghost predicate Waits(log: seq<Event>, id: Id) {
    forall e :: e in log ==> e.id != id
  }

  ghost predicate IsSkipped(log: seq<Event>, id: Id) {
    exists e :: e in log && e.Skip? && e.id == id
  }

  ghost predicate Ended(log: seq<Event>, id: Id) {
    Settle(id) in log || IsSkipped(log, id)
  }

  ghost predicate Succeeded(outcome: Outcome, log: seq<Event>, id: Id) {
    Settle(id) in log && outcome(id) == Passed
  }

  ghost predicate FellThrough(outcome: Outcome, log: seq<Event>, id: Id) {
    (Settle(id) in log && outcome(id) != Passed) || IsSkipped(log, id)
  }

  /** The gates handed to the executor that have not settled. */
  ghost function Active(log: seq<Event>): set<Id> {
    set e | e in log && e.Start? && Settle(e.id) !in log :: e.id
  }

  // ---- The next event ----

  ghost predicate MayStart(gate: Gate, outcome: Outcome, log: seq<Event>) {
    && Waits(log, gate.id)
    && (forall id :: id in gate.needs ==> Succeeded(outcome, log, id))
    && (forall id :: id in gate.after ==> Ended(log, id))
  }

  ghost predicate MustSkip(gate: Gate, outcome: Outcome, log: seq<Event>) {
    Waits(log, gate.id) && exists id :: id in gate.needs && FellThrough(outcome, log, id)
  }

  /** The items that are kept, in their order. */
  ghost function Kept(ids: seq<Id>, keep: Id -> bool): seq<Id> {
    if ids == [] then []
    else
      var last := ids[|ids| - 1];
      Kept(ids[..|ids| - 1], keep) + (if keep(last) then [last] else [])
  }

  ghost function Starting(outcome: Outcome, log: seq<Event>): Gate -> bool {
    gate => MayStart(gate, outcome, log)
  }

  ghost function Skipping(outcome: Outcome, log: seq<Event>): Gate -> bool {
    gate => MustSkip(gate, outcome, log)
  }

  ghost function Failing(outcome: Outcome, log: seq<Event>): Id -> bool {
    id => FellThrough(outcome, log, id)
  }

  /** The `k`th gate is the first of the list that satisfies `ok`. */
  ghost predicate IsFirst(gates: seq<Gate>, k: nat, ok: Gate -> bool) {
    k < |gates| && ok(gates[k]) && forall h :: 0 <= h < k ==> !ok(gates[h])
  }

  ghost predicate NoneMayStart(gates: seq<Gate>, outcome: Outcome, log: seq<Event>) {
    forall gate :: gate in gates ==> !MayStart(gate, outcome, log)
  }

  ghost predicate Follows(gates: seq<Gate>, maxActive: int, outcome: Outcome, log: seq<Event>, event: Event) {
    match event
    case Start(id) =>
      && |Active(log)| < maxActive
      && exists k: nat :: IsFirst(gates, k, Starting(outcome, log)) && gates[k].id == id
    case Settle(id) =>
      id in Active(log) && (maxActive <= |Active(log)| || NoneMayStart(gates, outcome, log))
    case Skip(id, failedDeps) =>
      && Active(log) == {} && NoneMayStart(gates, outcome, log)
      && exists k: nat :: IsFirst(gates, k, Skipping(outcome, log)) && gates[k].id == id
           && failedDeps == Kept(gates[k].needs, Failing(outcome, log))
  }

  // ---- The scheduler's collections mirror the log ----

  ghost predicate MirrorsGate(outcome: Outcome, log: seq<Event>, s: Sched, id: Id)
    requires id in s.states
  {
    match s.states[id]
    case Pending => Waits(log, id)
    case Running => Start(id) in log && Settle(id) !in log && !IsSkipped(log, id)
    case Settled(status) =>
      if Settle(id) in log then
        && Start(id) in log && !IsSkipped(log, id) && status == outcome(id)
        && id in s.results && s.results[id] == GateResult(outcome(id), [])
      else
        && IsSkipped(log, id) && Start(id) !in log && status == Skipped
        && id in s.results
        && forall e :: e in log && e.Skip? && e.id == id ==> s.results[id] == GateResult(Skipped, e.failedDeps)
  }

  ghost predicate Mirrors(gates: seq<Gate>, outcome: Outcome, log: seq<Event>, s: Sched) {
    && s.states.Keys == Ids(gates)
    && (forall e :: e in log ==> e.id in s.states)
    && (forall id :: id in s.states ==> MirrorsGate(outcome, log, s, id))
  }

  lemma StepMirrors(gates: seq<Gate>, maxActive: int, outcome: Outcome, log: seq<Event>, s: Sched, event: Event)
    requires Aligned(gates, maxActive, s) && Mirrors(gates, outcome, log, s)
    requires Enabled(gates, maxActive, s, event)
    ensures Mirrors(gates, outcome, log + [event], Apply(outcome, s, event))
  {
    var more, after := log + [event], Apply(outcome, s, event);
    assert event in more;
    forall id | id in after.states
      ensures MirrorsGate(outcome, more, after, id)
    {
      assert MirrorsGate(outcome, log, s, id);
      if id == event.id {
        OwnEvent(gates, maxActive, outcome, log, s, event);
      } else {
        OtherEvent(outcome, log, s, event, after, id);
      }
    }
  }

  lemma OwnEvent(gates: seq<Gate>, maxActive: int, outcome: Outcome, log: seq<Event>, s: Sched, event: Event)
    requires Aligned(gates, maxActive, s) && event.id in s.states && MirrorsGate(outcome, log, s, event.id)
    requires Enabled(gates, maxActive, s, event)
    ensures MirrorsGate(outcome, log + [event], Apply(outcome, s, event), event.id)
  {
    var more := log + [event];
    assert event in more;
    assert forall e :: e in log ==> e in more;
  }

  lemma OtherEvent(outcome: Outcome, log: seq<Event>, s: Sched, event: Event, after: Sched, id: Id)
    requires id in s.states && MirrorsGate(outcome, log, s, id) && id != event.id
    requires id in after.states && after.states[id] == s.states[id]
    requires id in s.results ==> id in after.results && after.results[id] == s.results[id]
    ensures MirrorsGate(outcome, log + [event], after, id)
  {
    var more := log + [event];
    assert forall e :: e in more && e.id == id ==> e in log;
    assert forall e :: e in log ==> e in more;
  }

  lemma {:induction false} ReplayMirrors(gates: seq<Gate>, maxActive: int, outcome: Outcome, log: seq<Event>)
    requires UniqueIds(gates) && 1 <= maxActive && Legal(gates, maxActive, outcome, log)
    ensures Mirrors(gates, outcome, log, Replay(gates, outcome, log))
  {
    if log != [] {
      var k := |log| - 1;
      ReplayMirrors(gates, maxActive, outcome, log[..k]);
      ReachableConsistent(gates, maxActive, outcome, log[..k]);
      LastMirrors(gates, maxActive, outcome, log, Replay(gates, outcome, log[..k]));
    }
  }

  lemma LastApart(log: seq<Event>)
    requires log != []
    ensures log == log[..|log| - 1] + [log[|log| - 1]]
  {
  }

  lemma LastMirrors(gates: seq<Gate>, maxActive: int, outcome: Outcome, log: seq<Event>, s: Sched)
    requires log != [] && Aligned(gates, maxActive, s) && Mirrors(gates, outcome, log[..|log| - 1], s)
    requires Enabled(gates, maxActive, s, log[|log| - 1])
    ensures Mirrors(gates, outcome, log, Apply(outcome, s, log[|log| - 1]))
  {
    LastApart(log);
    StepMirrors(gates, maxActive, outcome, log[..|log| - 1], s, log[|log| - 1]);
  }

  /** The questions asked of the states are those answered by the log. */
  lemma AskedOfLog(gates: seq<Gate>, outcome: Outcome, log: seq<Event>, s: Sched, id: Id)
    requires Mirrors(gates, outcome, log, s)
    ensures IsPending(s.states, id) <==> id in s.states && Waits(log, id)
    ensures HasPassed(s.states, id) <==> Succeeded(outcome, log, id)
    ensures HasSettled(s.states, id) <==> Ended(log, id)
    ensures HasFailed(s.states, id) <==> FellThrough(outcome, log, id)
    ensures id in s.states && s.states[id] == Running <==> id in Active(log)
  {
    if id in s.states {
      assert MirrorsGate(outcome, log, s, id);
      if IsSkipped(log, id) {
        var e :| e in log && e.Skip? && e.id == id;
      }
    } else {
      NoEvents(log, id);
    }
  }

  lemma NoEvents(log: seq<Event>, id: Id)
    requires Waits(log, id)
    ensures Settle(id) !in log && Start(id) !in log && !IsSkipped(log, id)
  {
    assert Settle(id).id == id && Start(id).id == id;
  }

  lemma {:induction false} AsMany(running: seq<Id>, ids: set<Id>)
    requires NoDuplicates(running) && forall id :: id in running <==> id in ids
    ensures |running| == |ids|
  {
    if running == [] {
      assert ids == {};
    } else {
      var k := |running| - 1;
      forall id
        ensures id in running[..k] <==> id in ids - {running[k]}
      {
      }
      AsMany(running[..k], ids - {running[k]});
    }
  }

  lemma ActiveIsRunning(gates: seq<Gate>, maxActive: int, outcome: Outcome, log: seq<Event>, s: Sched)
    requires Aligned(gates, maxActive, s) && Mirrors(gates, outcome, log, s)
    ensures |s.running| == |Active(log)|
    ensures forall id :: id in s.running <==> id in Active(log)
  {
    forall id
      ensures id in s.running <==> id in Active(log)
    {
      AskedOfLog(gates, outcome, log, s, id);
    }
    AsMany(s.running, Active(log));
  }

  lemma GateAsked(gates: seq<Gate>, outcome: Outcome, log: seq<Event>, s: Sched, gate: Gate)
    requires Mirrors(gates, outcome, log, s) && gate in gates
    ensures Startable(gate, s.states) <==> MayStart(gate, outcome, log)
    ensures Blocked(gate, s.states) <==> MustSkip(gate, outcome, log)
  {
    assert gate.id in Ids(gates);
    forall id
      ensures IsPending(s.states, id) <==> id in s.states && Waits(log, id)
      ensures HasPassed(s.states, id) <==> Succeeded(outcome, log, id)
      ensures HasSettled(s.states, id) <==> Ended(log, id)
      ensures HasFailed(s.states, id) <==> FellThrough(outcome, log, id)
    {
      AskedOfLog(gates, outcome, log, s, id);
    }
  }

  // ---- The searches ----

  lemma {:induction false} StartableIsFirst(gates: seq<Gate>, states: map<Id, GateState>, ok: Gate -> bool, k: nat)
    requires forall gate :: gate in gates ==> (Startable(gate, states) <==> ok(gate))
    ensures IsFirst(gates, k, ok) ==> FirstStartable(gates, states) == Some(gates[k])
  {
    if IsFirst(gates, k, ok) {
      assert gates[0] in gates;
      if k > 0 {
        assert !ok(gates[0]);
        assert forall h :: 0 <= h < k - 1 ==> gates[1..][h] == gates[h + 1];
        StartableIsFirst(gates[1..], states, ok, k - 1);
      }
    }
  }

  lemma {:induction false} BlockedIsFirst(gates: seq<Gate>, states: map<Id, GateState>, ok: Gate -> bool, k: nat)
    requires forall gate :: gate in gates ==> (Blocked(gate, states) <==> ok(gate))
    ensures IsFirst(gates, k, ok) ==> FirstBlocked(gates, states) == Some(gates[k])
  {
    if IsFirst(gates, k, ok) {
      assert gates[0] in gates;
      if k > 0 {
        assert !ok(gates[0]);
        assert forall h :: 0 <= h < k - 1 ==> gates[1..][h] == gates[h + 1];
        BlockedIsFirst(gates[1..], states, ok, k - 1);
      }
    }
  }

  lemma {:induction false} SomeFirst(gates: seq<Gate>, ok: Gate -> bool, gate: Gate) returns (k: nat)
    requires gate in gates && ok(gate)
    ensures IsFirst(gates, k, ok)
  {
    if ok(gates[0]) {
      k := 0;
    } else {
      k := SomeFirst(gates[1..], ok, gate);
      k := k + 1;
      forall h | 0 <= h < k
        ensures !ok(gates[h])
      {
        if h > 0 {
          assert gates[h] == gates[1..][h - 1];
        }
      }
    }
  }

  lemma {:induction false} FailedIsKept(ids: seq<Id>, states: map<Id, GateState>, keep: Id -> bool)
    requires forall id :: HasFailed(states, id) <==> keep(id)
    ensures FailedAmong(ids, states) == Kept(ids, keep)
  {
    if ids != [] {
      var k := |ids| - 1;
      FailedIsKept(ids[..k], states, keep);
      FailedSplits(ids[..k], ids[k..], states);
      assert ids == ids[..k] + ids[k..] && ids[k..] == [ids[k]];
      assert FailedAmong([ids[k]], states) == if keep(ids[k]) then [ids[k]] else [];
    }
  }

  lemma {:induction false} FailedSplits(a: seq<Id>, b: seq<Id>, states: map<Id, GateState>)
    ensures FailedAmong(a + b, states) == FailedAmong(a, states) + FailedAmong(b, states)
  {
    if a == [] {
      assert a + b == b;
    } else {
      assert (a + b)[0] == a[0] && (a + b)[1..] == a[1..] + b;
      FailedSplits(a[1..], b, states);
    }
  }

  // ---- A run, by its log alone ----

  lemma StartFollows(gates: seq<Gate>, maxActive: int, outcome: Outcome, log: seq<Event>, s: Sched, id: Id)
    requires Aligned(gates, maxActive, s) && Mirrors(gates, outcome, log, s)
    ensures Enabled(gates, maxActive, s, Start(id)) <==> Follows(gates, maxActive, outcome, log, Start(id))
  {
    ActiveIsRunning(gates, maxActive, outcome, log, s);
    GatesAsked(gates, outcome, log, s);
    var ok := Starting(outcome, log);
    var first := FirstStartable(gates, s.states);
    if first.Some? {
      var k := SomeFirst(gates, ok, first.value);
      StartableIsFirst(gates, s.states, ok, k);
    }
    forall k: nat | IsFirst(gates, k, ok)
      ensures first == Some(gates[k])
    {
      StartableIsFirst(gates, s.states, ok, k);
    }
  }

  lemma GatesAsked(gates: seq<Gate>, outcome: Outcome, log: seq<Event>, s: Sched)
    requires Mirrors(gates, outcome, log, s)
    ensures forall gate :: gate in gates ==> (Startable(gate, s.states) <==> MayStart(gate, outcome, log))
    ensures forall gate :: gate in gates ==> (Blocked(gate, s.states) <==> MustSkip(gate, outcome, log))
    ensures FirstStartable(gates, s.states).None? <==> NoneMayStart(gates, outcome, log)
  {
    forall gate | gate in gates
      ensures Startable(gate, s.states) <==> MayStart(gate, outcome, log)
      ensures Blocked(gate, s.states) <==> MustSkip(gate, outcome, log)
    {
      GateAsked(gates, outcome, log, s, gate);
    }
  }

  lemma NeedsAsked(gates: seq<Gate>, outcome: Outcome, log: seq<Event>, s: Sched, ids: seq<Id>)
    requires Mirrors(gates, outcome, log, s)
    ensures FailedAmong(ids, s.states) == Kept(ids, Failing(outcome, log))
  {
    forall id
      ensures HasFailed(s.states, id) <==> FellThrough(outcome, log, id)
    {
      AskedOfLog(gates, outcome, log, s, id);
    }
    FailedIsKept(ids, s.states, Failing(outcome, log));
  }

  lemma SettleFollows(gates: seq<Gate>, maxActive: int, outcome: Outcome, log: seq<Event>, s: Sched, id: Id)
    requires Aligned(gates, maxActive, s) && Mirrors(gates, outcome, log, s)
    ensures Enabled(gates, maxActive, s, Settle(id)) <==> Follows(gates, maxActive, outcome, log, Settle(id))
  {
    ActiveIsRunning(gates, maxActive, outcome, log, s);
    GatesAsked(gates, outcome, log, s);
  }

  lemma SkipFollows(gates: seq<Gate>, maxActive: int, outcome: Outcome, log: seq<Event>, s: Sched, skip: Event)
    requires Aligned(gates, maxActive, s) && Mirrors(gates, outcome, log, s) && skip.Skip?
    ensures Enabled(gates, maxActive, s, skip) <==> Follows(gates, maxActive, outcome, log, skip)
  {
    ActiveIsRunning(gates, maxActive, outcome, log, s);
    GatesAsked(gates, outcome, log, s);
    assert s.running == [] <==> Active(log) == {};
    var ok := Skipping(outcome, log);
    var first := FirstBlocked(gates, s.states);
    forall gate | gate in gates
      ensures FailedAmong(gate.needs, s.states) == Kept(gate.needs, Failing(outcome, log))
    {
      NeedsAsked(gates, outcome, log, s, gate.needs);
    }
    if first.Some? {
      var k := SomeFirst(gates, ok, first.value);
      BlockedIsFirst(gates, s.states, ok, k);
    }
    forall k: nat | IsFirst(gates, k, ok)
      ensures first == Some(gates[k])
    {
      BlockedIsFirst(gates, s.states, ok, k);
    }
  }

  lemma EventFollows(gates: seq<Gate>, maxActive: int, outcome: Outcome, log: seq<Event>, event: Event)
    requires UniqueIds(gates) && 1 <= maxActive && Legal(gates, maxActive, outcome, log)
    ensures Enabled(gates, maxActive, Replay(gates, outcome, log), event)
            <==> Follows(gates, maxActive, outcome, log, event)
  {
    var s := Replay(gates, outcome, log);
    ReachableConsistent(gates, maxActive, outcome, log);
    ReplayMirrors(gates, maxActive, outcome, log);
    match event
    case Start(id) => StartFollows(gates, maxActive, outcome, log, s, id);
    case Settle(id) => SettleFollows(gates, maxActive, outcome, log, s, id);
    case Skip(_, _) => SkipFollows(gates, maxActive, outcome, log, s, event);
  }

  ghost predicate AllFollow(gates: seq<Gate>, maxActive: int, outcome: Outcome, log: seq<Event>) {
    forall j :: 0 <= j < |log| ==> FollowsAt(gates, maxActive, outcome, log, j)
  }

  ghost predicate FollowsAt(gates: seq<Gate>, maxActive: int, outcome: Outcome, log: seq<Event>, j: nat)
    requires j < |log|
  {
    Follows(gates, maxActive, outcome, log[..j], log[j])
  }

  lemma FollowsInPrefix(gates: seq<Gate>, maxActive: int, outcome: Outcome, log: seq<Event>, k: nat, j: nat)
    requires j < k <= |log|
    ensures FollowsAt(gates, maxActive, outcome, log[..k], j) == FollowsAt(gates, maxActive, outcome, log, j)
  {
    assert log[..k][..j] == log[..j];
  }

  lemma AllFollowByLast(gates: seq<Gate>, maxActive: int, outcome: Outcome, log: seq<Event>)
    requires log != []
    ensures var before := log[..|log| - 1];
            AllFollow(gates, maxActive, outcome, log)
            <==> AllFollow(gates, maxActive, outcome, before)
                 && FollowsAt(gates, maxActive, outcome, log, |log| - 1)
  {
    var k := |log| - 1;
    forall j | 0 <= j < k
      ensures FollowsAt(gates, maxActive, outcome, log[..k], j) == FollowsAt(gates, maxActive, outcome, log, j)
    {
      FollowsInPrefix(gates, maxActive, outcome, log, k, j);
    }
  }

  /** A log is a run of the scheduler exactly when each event follows from the events
      before it: the first gate of the list that may start starts while a slot is free;
      a running gate settles only otherwise; and when nothing runs or may start, the
      first gate with a need that did not pass is skipped, naming those needs in order. */
  lemma {:induction false} LegalIffFollows(gates: seq<Gate>, maxActive: int, outcome: Outcome, log: seq<Event>)
    requires UniqueIds(gates) && 1 <= maxActive
    ensures Legal(gates, maxActive, outcome, log) <==> AllFollow(gates, maxActive, outcome, log)
  {
    if log != [] {
      var before, last := log[..|log| - 1], log[|log| - 1];
      LegalIffFollows(gates, maxActive, outcome, before);
      if Legal(gates, maxActive, outcome, before) {
        EventFollows(gates, maxActive, outcome, before, last);
      }
      AllFollowByLast(gates, maxActive, outcome, log);
    }
  }

  lemma StartMeans(gates: seq<Gate>, maxActive: int, outcome: Outcome, log: seq<Event>, gate: Gate)
    requires UniqueIds(gates) && gate in gates && Follows(gates, maxActive, outcome, log, Start(gate.id))
    ensures MayStart(gate, outcome, log)
  {
  }

  /** No gate is handed to the executor twice, and each only after all its needs have
      settled as passed and all its `after` gates have settled or been skipped. */
  lemma StartedOnceAndReady(gates: seq<Gate>, maxActive: int, outcome: Outcome, log: seq<Event>, gate: Gate, j: nat)
    requires UniqueIds(gates) && 1 <= maxActive
    requires Legal(gates, maxActive, outcome, log)
    requires gate in gates && j < |log| && log[j] == Start(gate.id)
    ensures forall i :: 0 <= i < j ==> log[i] != Start(gate.id)
    ensures forall p :: p in gate.needs ==> exists i :: 0 <= i < j && log[i] == Settle(p) && outcome(p) == Passed
    ensures forall p :: p in gate.after ==>
              exists i :: 0 <= i < j && (log[i] == Settle(p) || (log[i].Skip? && log[i].id == p))
  {
    var before := log[..j];
    EventEnabled(gates, maxActive, outcome, log, j);
    EventFollows(gates, maxActive, outcome, before, log[j]);
    StartMeans(gates, maxActive, outcome, before, gate);
    assert forall i :: 0 <= i < j ==> log[i] in before;
    assert forall e :: e in before ==> exists i :: 0 <= i < j && log[i] == e;
    forall p | p in gate.after
      ensures exists i :: 0 <= i < j && (log[i] == Settle(p) || (log[i].Skip? && log[i].id == p))
    {
      assert Ended(before, p);
    }
    forall p | p in gate.needs
      ensures exists i :: 0 <= i < j && log[i] == Settle(p) && outcome(p) == Passed
    {
      assert Succeeded(outcome, before, p);
    }
  }

  /** The results of a finished run, by its log alone: what the executor reported for a
      gate that settled, and the needs that the skip named for one that was skipped. */
  lemma ResultOfLog(gates: seq<Gate>, maxActive: int, outcome: Outcome, log: seq<Event>, gate: Gate)
    requires UniqueIds(gates) && 1 <= maxActive
    requires Legal(gates, maxActive, outcome, log) && gate in gates
    requires Complete(gates, Replay(gates, outcome, log))
    ensures gate.id in Replay(gates, outcome, log).results
    ensures Settle(gate.id) in log <==> !IsSkipped(log, gate.id)
    ensures Settle(gate.id) in log ==>
              Replay(gates, outcome, log).results[gate.id] == GateResult(outcome(gate.id), [])
    ensures forall e :: e in log && e.Skip? && e.id == gate.id ==>
              Replay(gates, outcome, log).results[gate.id] == GateResult(Skipped, e.failedDeps)
  {
    var s := Replay(gates, outcome, log);
    ReplayMirrors(gates, maxActive, outcome, log);
    assert HasSettled(s.states, gate.id);
    assert MirrorsGate(outcome, log, s, gate.id);
  }
}
