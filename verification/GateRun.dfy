/** The bounded scheduler `runGates` as a machine over events.

    A run is the sequence of its externally visible events: a gate handed to the
    executor, an executor promise that settles, and a gate skipped by the
    scheduler. The executor is an arbitrary total outcome per gate id, and which
    running gate settles next is arbitrary. */
module GateRun {
  import opened Options
  import opened Graphs
  import opened GateGraph

  datatype ResultStatus = Passed | Failed | Skipped

  datatype GateState = Pending | Running | Settled(status: ResultStatus)

  /** The observed outcome of one gate; `failedDeps` is the list a skip reports. */
  datatype GateResult = GateResult(status: ResultStatus, failedDeps: seq<Id>)

  datatype Sched = Sched(states: map<Id, GateState>, results: map<Id, GateResult>, running: seq<Id>)

  datatype Event =
    | Start(id: Id)
    | Settle(id: Id)
    | Skip(id: Id, failedDeps: seq<Id>)

  type Outcome = Id -> ResultStatus

  // ---- The scheduler's questions about one state ----

  predicate HasPassed(states: map<Id, GateState>, id: Id) {
    id in states && states[id] == Settled(Passed)
  }

  predicate HasSettled(states: map<Id, GateState>, id: Id) {
    id in states && states[id].Settled?
  }

  predicate HasFailed(states: map<Id, GateState>, id: Id) {
    HasSettled(states, id) && states[id].status != Passed
  }

  predicate IsPending(states: map<Id, GateState>, id: Id) {
    id in states && states[id] == Pending
  }

  predicate PredecessorsReady(gate: Gate, states: map<Id, GateState>) {
    && (forall id :: id in gate.needs ==> HasPassed(states, id))
    && (forall id :: id in gate.after ==> HasSettled(states, id))
  }

  predicate Startable(gate: Gate, states: map<Id, GateState>) {
    IsPending(states, gate.id) && PredecessorsReady(gate, states)
  }

  predicate NeedFailed(gate: Gate, states: map<Id, GateState>) {
    exists id :: id in gate.needs && HasFailed(states, id)
  }

  predicate Blocked(gate: Gate, states: map<Id, GateState>) {
    IsPending(states, gate.id) && NeedFailed(gate, states)
  }

  function FirstStartable(gates: seq<Gate>, states: map<Id, GateState>): (found: Option<Gate>)
    ensures found.Some? ==> found.value in gates && Startable(found.value, states)
    ensures found.None? ==> forall gate :: gate in gates ==> !Startable(gate, states)
  {
    if gates == [] then None
    else if Startable(gates[0], states) then Some(gates[0])
    else FirstStartable(gates[1..], states)
  }

  function FirstBlocked(gates: seq<Gate>, states: map<Id, GateState>): (found: Option<Gate>)
    ensures found.Some? ==> found.value in gates && Blocked(found.value, states)
    ensures found.None? ==> forall gate :: gate in gates ==> !Blocked(gate, states)
  {
    if gates == [] then None
    else if Blocked(gates[0], states) then Some(gates[0])
    else FirstBlocked(gates[1..], states)
  }

  function FailedAmong(ids: seq<Id>, states: map<Id, GateState>): (failed: seq<Id>)
    ensures forall id :: id in failed <==> id in ids && HasFailed(states, id)
  {
    if ids == [] then []
    else (if HasFailed(states, ids[0]) then [ids[0]] else []) + FailedAmong(ids[1..], states)
  }

  // ---- The machine ----

  function Initial(gates: seq<Gate>): Sched {
    Sched(map id | id in Ids(gates) :: Pending, map[], [])
  }

  function Without(running: seq<Id>, id: Id): seq<Id> {
    if running == [] then []
    else if running[0] == id then running[1..]
    else [running[0]] + Without(running[1..], id)
  }

  function Apply(outcome: Outcome, s: Sched, event: Event): Sched {
    match event
    case Start(id) => s.(states := s.states[id := Running], running := s.running + [id])
    case Settle(id) =>
      Sched(s.states[id := Settled(outcome(id))],
            s.results[id := GateResult(outcome(id), [])],
            Without(s.running, id))
    case Skip(id, failedDeps) =>
      s.(states := s.states[id := Settled(Skipped)],
         results := s.results[id := GateResult(Skipped, failedDeps)])
  }

  /** The event the scheduler may take next: start the first startable gate while a
      slot is free, wait only when that is impossible, skip only when nothing runs. */
  predicate Enabled(gates: seq<Gate>, maxActive: int, s: Sched, event: Event) {
    var startable := FirstStartable(gates, s.states);
    match event
    case Start(id) => |s.running| < maxActive && startable.Some? && startable.value.id == id
    case Settle(id) => id in s.running && (maxActive <= |s.running| || startable.None?)
    case Skip(id, failedDeps) =>
      var blocked := FirstBlocked(gates, s.states);
      && s.running == [] && startable.None?
      && blocked.Some? && blocked.value.id == id
      && failedDeps == FailedAmong(blocked.value.needs, s.states)
  }

  function Replay(gates: seq<Gate>, outcome: Outcome, log: seq<Event>): Sched {
    if log == [] then Initial(gates)
    else Apply(outcome, Replay(gates, outcome, log[..|log| - 1]), log[|log| - 1])
  }

  predicate Legal(gates: seq<Gate>, maxActive: int, outcome: Outcome, log: seq<Event>) {
    log == [] || (
      var before := log[..|log| - 1];
      && Legal(gates, maxActive, outcome, before)
      && Enabled(gates, maxActive, Replay(gates, outcome, before), log[|log| - 1]))
  }

  predicate Complete(gates: seq<Gate>, s: Sched) {
    s.running == [] && forall gate :: gate in gates ==> HasSettled(s.states, gate.id)
  }

  /** The skip events of a log, in order. */
  function Skips(log: seq<Event>): seq<Event> {
    if log == [] then []
    else
      var last := log[|log| - 1];
      Skips(log[..|log| - 1]) + (if last.Skip? then [last] else [])
  }

  function SkippedIds(skips: seq<Event>): set<Id> {
    set skip | skip in skips && skip.Skip? :: skip.id
  }

  // ---- What every reachable state satisfies ----

  ghost predicate NoDuplicates(ids: seq<Id>) {
    forall i, j :: 0 <= i < j < |ids| ==> ids[i] != ids[j]
  }

  /** A gate handed to the executor was startable and still looks it; a gate the
      scheduler skipped has a failed need. */
  ghost predicate Sound(gate: Gate, outcome: Outcome, states: map<Id, GateState>, skipped: set<Id>)
    requires gate.id in states
  {
    if gate.id in skipped then
      states[gate.id] == Settled(Skipped) && NeedFailed(gate, states)
    else
      && (states[gate.id] != Pending ==> PredecessorsReady(gate, states))
      && (states[gate.id].Settled? ==> states[gate.id].status == outcome(gate.id))
  }

  /** The two maps and the running list describe the same gates. */
  ghost predicate Aligned(gates: seq<Gate>, maxActive: int, s: Sched) {
    && s.states.Keys == Ids(gates)
    && |s.running| <= maxActive
    && NoDuplicates(s.running)
    && (forall id :: id in s.running <==> id in s.states && s.states[id] == Running)
    && (forall id :: id in s.results <==> HasSettled(s.states, id))
    && (forall id :: id in s.results ==> s.results[id].status == s.states[id].status)
  }

  ghost predicate Consistent(gates: seq<Gate>, maxActive: int, outcome: Outcome, s: Sched, skipped: set<Id>) {
    && Aligned(gates, maxActive, s)
    && skipped <= Ids(gates)
    && (forall gate :: gate in gates ==> Sound(gate, outcome, s.states, skipped))
  }

  lemma {:induction false} WithoutRemoves(running: seq<Id>, id: Id)
    requires NoDuplicates(running) && id in running
    ensures |Without(running, id)| == |running| - 1
    ensures NoDuplicates(Without(running, id))
    ensures forall other :: other in Without(running, id) <==> other in running && other != id
  {
    var rest := running[1..];
    assert running == [running[0]] + rest;
    if running[0] != id {
      WithoutRemoves(rest, id);
      assert running[0] !in rest;
    }
  }

  /** Settled states never change, so what was ready or blocked stays so. */
  ghost predicate Extends(before: map<Id, GateState>, after: map<Id, GateState>) {
    forall id :: HasSettled(before, id) ==> HasSettled(after, id) && after[id] == before[id]
  }

  lemma ReadinessPersists(gate: Gate, before: map<Id, GateState>, after: map<Id, GateState>)
    requires Extends(before, after)
    ensures PredecessorsReady(gate, before) ==> PredecessorsReady(gate, after)
    ensures NeedFailed(gate, before) ==> NeedFailed(gate, after)
  {
    if NeedFailed(gate, before) {
      var id :| id in gate.needs && HasFailed(before, id);
      assert HasFailed(after, id);
    }
  }

  lemma StepExtends(gates: seq<Gate>, maxActive: int, outcome: Outcome, s: Sched, event: Event)
    requires Aligned(gates, maxActive, s) && Enabled(gates, maxActive, s, event)
    ensures Extends(s.states, Apply(outcome, s, event).states)
  {
  }

  lemma StepAligned(gates: seq<Gate>, maxActive: int, outcome: Outcome, s: Sched, event: Event)
    requires Aligned(gates, maxActive, s) && Enabled(gates, maxActive, s, event)
    ensures Aligned(gates, maxActive, Apply(outcome, s, event))
  {
    if event.Settle? {
      WithoutRemoves(s.running, event.id);
    }
  }

  function SkippedAfter(skipped: set<Id>, event: Event): set<Id> {
    if event.Skip? then skipped + {event.id} else skipped
  }

  lemma StepSound(gates: seq<Gate>, maxActive: int, outcome: Outcome, s: Sched, skipped: set<Id>, event: Event,
                  gate: Gate)
    requires UniqueIds(gates) && gate in gates
    requires Consistent(gates, maxActive, outcome, s, skipped)
    requires Enabled(gates, maxActive, s, event)
    ensures Sound(gate, outcome, Apply(outcome, s, event).states, SkippedAfter(skipped, event))
  {
    StepExtends(gates, maxActive, outcome, s, event);
    ReadinessPersists(gate, s.states, Apply(outcome, s, event).states);
    assert Sound(gate, outcome, s.states, skipped);
  }

  lemma StepConsistent(gates: seq<Gate>, maxActive: int, outcome: Outcome, s: Sched, skipped: set<Id>, event: Event)
    requires UniqueIds(gates)
    requires Consistent(gates, maxActive, outcome, s, skipped)
    requires Enabled(gates, maxActive, s, event)
    ensures Consistent(gates, maxActive, outcome, Apply(outcome, s, event), SkippedAfter(skipped, event))
  {
    StepAligned(gates, maxActive, outcome, s, event);
    forall gate | gate in gates
      ensures Sound(gate, outcome, Apply(outcome, s, event).states, SkippedAfter(skipped, event))
    {
      StepSound(gates, maxActive, outcome, s, skipped, event, gate);
    }
  }

  // ---- Every run ----

  lemma {:induction false} PrefixLegal(gates: seq<Gate>, maxActive: int, outcome: Outcome, log: seq<Event>, k: nat)
    requires Legal(gates, maxActive, outcome, log) && k <= |log|
    ensures Legal(gates, maxActive, outcome, log[..k])
  {
    if k < |log| {
      var before := log[..|log| - 1];
      PrefixLegal(gates, maxActive, outcome, before, k);
      assert before[..k] == log[..k];
    } else {
      assert log[..k] == log;
    }
  }

  /** In every reachable state at most `maxActive` gates run, the running list is
      exactly the running gates, every started gate had its needs passed and its
      `after` gates settled, and every skipped gate has a failed need. */
  lemma {:induction false} ReachableConsistent(gates: seq<Gate>, maxActive: int, outcome: Outcome, log: seq<Event>)
    requires UniqueIds(gates) && 1 <= maxActive
    requires Legal(gates, maxActive, outcome, log)
    ensures Consistent(gates, maxActive, outcome, Replay(gates, outcome, log), SkippedIds(Skips(log)))
  {
    if log != [] {
      var before, last := log[..|log| - 1], log[|log| - 1];
      ReachableConsistent(gates, maxActive, outcome, before);
      StepConsistent(gates, maxActive, outcome, Replay(gates, outcome, before), SkippedIds(Skips(before)), last);
      SkippedByLast(log);
    }
  }

  lemma SkippedByLast(log: seq<Event>)
    requires log != []
    ensures SkippedIds(Skips(log)) == SkippedAfter(SkippedIds(Skips(log[..|log| - 1])), log[|log| - 1])
  {
  }

  /** A settled status never changes, and a gate that left `pending` never returns. */
  lemma {:induction false} StatusesPersist(gates: seq<Gate>, maxActive: int, outcome: Outcome, log: seq<Event>, k: nat)
    requires UniqueIds(gates) && 1 <= maxActive
    requires Legal(gates, maxActive, outcome, log) && k <= |log|
    ensures var before, after := Replay(gates, outcome, log[..k]).states, Replay(gates, outcome, log).states;
            && Extends(before, after)
            && forall id :: IsPending(after, id) ==> IsPending(before, id)
  {
    if k < |log| {
      var shorter := log[..|log| - 1];
      StatusesPersist(gates, maxActive, outcome, shorter, k);
      assert shorter[..k] == log[..k];
      ReachableConsistent(gates, maxActive, outcome, shorter);
      StepExtends(gates, maxActive, outcome, Replay(gates, outcome, shorter), log[|log| - 1]);
    } else {
      assert log[..k] == log;
    }
  }

  lemma EventEnabled(gates: seq<Gate>, maxActive: int, outcome: Outcome, log: seq<Event>, k: nat)
    requires Legal(gates, maxActive, outcome, log) && k < |log|
    ensures Legal(gates, maxActive, outcome, log[..k])
    ensures Enabled(gates, maxActive, Replay(gates, outcome, log[..k]), log[k])
    ensures Replay(gates, outcome, log[..k + 1]) == Apply(outcome, Replay(gates, outcome, log[..k]), log[k])
  {
    PrefixLegal(gates, maxActive, outcome, log, k);
    PrefixLegal(gates, maxActive, outcome, log, k + 1);
    assert log[..k + 1][..k] == log[..k];
  }

  // ---- No stall ----

  /** Among the gates with the given ids there is one none of whose predecessors is. */
  lemma MinimalGate(gates: seq<Gate>, ids: set<Id>) returns (gate: Gate)
    requires Admissible(gates) && ids != {} && ids <= Ids(gates)
    ensures gate in gates && gate.id in ids
    ensures forall p :: p in gate.needs || p in gate.after ==> p in Ids(gates) && p !in ids
  {
    var id := MinimalNode(Dependencies(gates), ids);
    gate :| gate in gates && gate.id == id;
    DependenciesOf(gates, gate);
    forall p | p in gate.needs || p in gate.after
      ensures p in Ids(gates) && p !in ids
    {
      assert p in Predecessors(gate);
      assert p in Next(Dependencies(gates), id);
    }
  }

  /** While gates are pending and none runs, one can start or one is blocked, so
      the scheduler's "stalled" branch is never taken. */
  lemma NeverStalls(gates: seq<Gate>, states: map<Id, GateState>)
    requires Admissible(gates) && states.Keys == Ids(gates)
    requires forall id :: id in states ==> states[id] != Running
    requires exists gate :: gate in gates && IsPending(states, gate.id)
    ensures FirstStartable(gates, states).Some? || FirstBlocked(gates, states).Some?
  {
    var pending := set id | id in states && states[id] == Pending;
    var waiting :| waiting in gates && IsPending(states, waiting.id);
    assert waiting.id in pending;
    var gate := MinimalGate(gates, pending);
    MinimalMoves(states, gate);
  }

  /** A pending gate whose predecessors have all settled starts or is blocked. */
  lemma MinimalMoves(states: map<Id, GateState>, gate: Gate)
    requires IsPending(states, gate.id)
    requires forall p :: p in gate.needs || p in gate.after ==>
               p in states && states[p] != Pending && states[p] != Running
    ensures Startable(gate, states) || Blocked(gate, states)
  {
  }

  lemma UnfinishedIsPending(gates: seq<Gate>, maxActive: int, s: Sched)
    requires Aligned(gates, maxActive, s) && !Complete(gates, s) && s.running == []
    ensures forall id :: id in s.states ==> s.states[id] != Running
    ensures exists gate :: gate in gates && IsPending(s.states, gate.id)
  {
    var gate :| gate in gates && !HasSettled(s.states, gate.id);
    assert IsPending(s.states, gate.id);
  }

  /** A run that is not complete can take another step. */
  lemma Progress(gates: seq<Gate>, maxActive: int, s: Sched) returns (event: Event)
    requires Admissible(gates) && 1 <= maxActive && Aligned(gates, maxActive, s)
    requires !Complete(gates, s)
    ensures Enabled(gates, maxActive, s, event)
  {
    var startable, blocked := FirstStartable(gates, s.states), FirstBlocked(gates, s.states);
    if |s.running| < maxActive && startable.Some? {
      event := Start(startable.value.id);
    } else if s.running != [] {
      event := Settle(s.running[0]);
    } else {
      UnfinishedIsPending(gates, maxActive, s);
      NeverStalls(gates, s.states);
      event := Skip(blocked.value.id, FailedAmong(blocked.value.needs, s.states));
    }
  }

  /** A complete run has no further step. */
  lemma CompleteIsFinal(gates: seq<Gate>, maxActive: int, s: Sched, event: Event)
    requires Complete(gates, s)
    ensures !Enabled(gates, maxActive, s, event)
  {
  }

  function PendingIds(s: Sched): set<Id> {
    set id | id in s.states && s.states[id] == Pending
  }

  function Remaining(s: Sched): nat {
    2 * |PendingIds(s)| + |s.running|
  }

  lemma StepConsumes(gates: seq<Gate>, maxActive: int, outcome: Outcome, s: Sched, event: Event)
    requires Aligned(gates, maxActive, s) && Enabled(gates, maxActive, s, event)
    ensures Remaining(Apply(outcome, s, event)) < Remaining(s)
  {
    PendingAfter(gates, maxActive, outcome, s, event);
    if event.Settle? {
      WithoutRemoves(s.running, event.id);
    }
  }

  lemma PendingAfter(gates: seq<Gate>, maxActive: int, outcome: Outcome, s: Sched, event: Event)
    requires Aligned(gates, maxActive, s) && Enabled(gates, maxActive, s, event)
    ensures event.id in PendingIds(s) <==> !event.Settle?
    ensures PendingIds(Apply(outcome, s, event)) == PendingIds(s) - {event.id}
  {
  }

  /** Every run ends: it has at most two events per gate. */
  lemma {:induction false} RunsAreBounded(gates: seq<Gate>, maxActive: int, outcome: Outcome, log: seq<Event>)
    requires UniqueIds(gates) && 1 <= maxActive
    requires Legal(gates, maxActive, outcome, log)
    ensures |log| + Remaining(Replay(gates, outcome, log)) <= 2 * |Ids(gates)|
  {
    if log == [] {
      assert PendingIds(Initial(gates)) == Ids(gates);
    } else {
      var before, last := log[..|log| - 1], log[|log| - 1];
      RunsAreBounded(gates, maxActive, outcome, before);
      ReachableConsistent(gates, maxActive, outcome, before);
      StepConsumes(gates, maxActive, outcome, Replay(gates, outcome, before), last);
    }
  }

  // ---- The final statuses ----

  /** A gate is skipped exactly when one of its needs ended failed or skipped;
      otherwise it ends with its own outcome. */
  lemma FinalStatuses(gates: seq<Gate>, maxActive: int, outcome: Outcome, log: seq<Event>, gate: Gate)
    requires UniqueIds(gates) && 1 <= maxActive
    requires Legal(gates, maxActive, outcome, log) && gate in gates
    requires Complete(gates, Replay(gates, outcome, log))
    ensures var s := Replay(gates, outcome, log);
            && gate.id in s.results
            && s.results[gate.id].status == (if NeedFailed(gate, s.states) then Skipped else outcome(gate.id))
            && (NeedFailed(gate, s.states) <==> gate.id in SkippedIds(Skips(log)))
  {
    var s := Replay(gates, outcome, log);
    ReachableConsistent(gates, maxActive, outcome, log);
    assert Sound(gate, outcome, s.states, SkippedIds(Skips(log)));
    assert HasSettled(s.states, gate.id);
  }

  // ---- Schedule independence ----

  /** Every item is related to the items before it. */
  ghost predicate Chain<E(!new)>(follows: (seq<E>, E) -> bool, items: seq<E>) {
    forall k :: 0 <= k < |items| ==> follows(items[..k], items[k])
  }

  lemma ChainAppend<E(!new)>(follows: (seq<E>, E) -> bool, items: seq<E>, item: E)
    requires Chain(follows, items) && follows(items, item)
    ensures Chain(follows, items + [item])
  {
    var longer := items + [item];
    forall k | 0 <= k < |longer|
      ensures follows(longer[..k], longer[k])
    {
      assert longer[..k] == if k < |items| then items[..k] else items;
    }
  }

  /** Chains of a functional relation agree as far as both go. */
  lemma {:induction false} ChainsAgree<E(!new)>(follows: (seq<E>, E) -> bool, a: seq<E>, b: seq<E>, k: nat)
    requires Chain(follows, a) && Chain(follows, b) && k <= |a| && k <= |b|
    requires forall before, x, y :: follows(before, x) && follows(before, y) ==> x == y
    ensures a[..k] == b[..k]
  {
    if k > 0 {
      ChainsAgree(follows, a, b, k - 1);
      assert follows(a[..k - 1], a[k - 1]) && follows(b[..k - 1], b[k - 1]);
      assert a[..k] == a[..k - 1] + [a[k - 1]] && b[..k] == b[..k - 1] + [b[k - 1]];
    }
  }

  /** A state in which nothing runs and nothing can start. */
  ghost predicate Quiescent(gates: seq<Gate>, outcome: Outcome, states: map<Id, GateState>, skipped: set<Id>) {
    && states.Keys == Ids(gates)
    && (forall id :: id in states ==> states[id] != Running)
    && (forall gate :: gate in gates ==> Sound(gate, outcome, states, skipped) && !Startable(gate, states))
  }

  lemma QuiescentAgreesAt(gate: Gate, outcome: Outcome, a: map<Id, GateState>, b: map<Id, GateState>, skipped: set<Id>)
    requires gate.id in a && gate.id in b && a[gate.id] != Running && b[gate.id] != Running
    requires Sound(gate, outcome, a, skipped) && !Startable(gate, a)
    requires Sound(gate, outcome, b, skipped) && !Startable(gate, b)
    requires forall p :: p in gate.needs || p in gate.after ==> p in a && p in b && a[p] == b[p]
    ensures a[gate.id] == b[gate.id]
  {
  }

  /** The skipped gates alone determine the quiescent state. */
  lemma QuiescentUnique(gates: seq<Gate>, outcome: Outcome, a: map<Id, GateState>, b: map<Id, GateState>,
                        skipped: set<Id>)
    requires Admissible(gates)
    requires Quiescent(gates, outcome, a, skipped) && Quiescent(gates, outcome, b, skipped)
    ensures a == b
  {
    var differing := set id | id in a && a[id] != b[id];
    if differing != {} {
      var gate := MinimalGate(gates, differing);
      QuiescentAgreesAt(gate, outcome, a, b, skipped);
    }
    assert forall id :: id in a ==> id !in differing;
  }

  ghost predicate NextSkip(gates: seq<Gate>, states: map<Id, GateState>, event: Event) {
    var blocked := FirstBlocked(gates, states);
    blocked.Some? && event == Skip(blocked.value.id, FailedAmong(blocked.value.needs, states))
  }

  /** The skip is the one dictated by a quiescent state of the skips before it. */
  ghost predicate SkipFollows(gates: seq<Gate>, outcome: Outcome, before: seq<Event>, skip: Event) {
    exists states :: Quiescent(gates, outcome, states, SkippedIds(before)) && NextSkip(gates, states, skip)
  }

  ghost function SkipRelation(gates: seq<Gate>, outcome: Outcome): (seq<Event>, Event) -> bool {
    (before, skip) => SkipFollows(gates, outcome, before, skip)
  }

  lemma NextSkipUnique(gates: seq<Gate>, outcome: Outcome, before: seq<Event>, x: Event, y: Event)
    requires Admissible(gates)
    requires SkipFollows(gates, outcome, before, x) && SkipFollows(gates, outcome, before, y)
    ensures x == y
  {
    var p :| Quiescent(gates, outcome, p, SkippedIds(before)) && NextSkip(gates, p, x);
    var q :| Quiescent(gates, outcome, q, SkippedIds(before)) && NextSkip(gates, q, y);
    QuiescentUnique(gates, outcome, p, q, SkippedIds(before));
  }

  lemma SkipChainsAgree(gates: seq<Gate>, outcome: Outcome, a: seq<Event>, b: seq<Event>, k: nat)
    requires Admissible(gates)
    requires Chain(SkipRelation(gates, outcome), a) && Chain(SkipRelation(gates, outcome), b)
    requires k <= |a| && k <= |b|
    ensures a[..k] == b[..k]
  {
    var follows := SkipRelation(gates, outcome);
    forall before, x, y | follows(before, x) && follows(before, y)
      ensures x == y
    {
      NextSkipUnique(gates, outcome, before, x, y);
    }
    ChainsAgree(follows, a, b, k);
  }

  /** From a quiescent state with nothing blocked no further skip follows. */
  lemma NoSkipFollows(gates: seq<Gate>, outcome: Outcome, states: map<Id, GateState>, skips: seq<Event>, skip: Event)
    requires Admissible(gates)
    requires Quiescent(gates, outcome, states, SkippedIds(skips)) && FirstBlocked(gates, states).None?
    ensures !SkipFollows(gates, outcome, skips, skip)
  {
    forall other | Quiescent(gates, outcome, other, SkippedIds(skips))
      ensures other == states
    {
      QuiescentUnique(gates, outcome, other, states, SkippedIds(skips));
    }
  }

  lemma StuckIsQuiescent(gates: seq<Gate>, maxActive: int, outcome: Outcome, s: Sched, skipped: set<Id>)
    requires Consistent(gates, maxActive, outcome, s, skipped)
    requires s.running == [] && FirstStartable(gates, s.states).None?
    ensures Quiescent(gates, outcome, s.states, skipped)
  {
  }

  lemma SkipExtendsChain(gates: seq<Gate>, maxActive: int, outcome: Outcome, before: seq<Event>, skip: Event)
    requires UniqueIds(gates) && 1 <= maxActive
    requires Legal(gates, maxActive, outcome, before)
    requires skip.Skip? && Enabled(gates, maxActive, Replay(gates, outcome, before), skip)
    ensures SkipRelation(gates, outcome)(Skips(before), skip)
  {
    var s := Replay(gates, outcome, before);
    ReachableConsistent(gates, maxActive, outcome, before);
    StuckIsQuiescent(gates, maxActive, outcome, s, SkippedIds(Skips(before)));
    assert NextSkip(gates, s.states, skip);
  }

  lemma {:induction false} SkipsFormChain(gates: seq<Gate>, maxActive: int, outcome: Outcome, log: seq<Event>)
    requires UniqueIds(gates) && 1 <= maxActive
    requires Legal(gates, maxActive, outcome, log)
    ensures Chain(SkipRelation(gates, outcome), Skips(log))
  {
    if log != [] {
      var before, last := log[..|log| - 1], log[|log| - 1];
      SkipsFormChain(gates, maxActive, outcome, before);
      if last.Skip? {
        SkipExtendsChain(gates, maxActive, outcome, before, last);
        ChainAppend(SkipRelation(gates, outcome), Skips(before), last);
        assert Skips(log) == Skips(before) + [last];
      } else {
        assert Skips(log) == Skips(before);
      }
    }
  }

  /** What a result reports beyond its status is fixed by the skips. */
  ghost predicate Reported(s: Sched, skips: seq<Event>) {
    && (forall skip :: skip in skips && skip.Skip? ==>
          skip.id in s.results && s.results[skip.id].failedDeps == skip.failedDeps)
    && (forall id :: id in s.results && id !in SkippedIds(skips) ==> s.results[id].failedDeps == [])
  }

  lemma StepReported(gates: seq<Gate>, maxActive: int, outcome: Outcome, s: Sched, skips: seq<Event>, event: Event)
    requires Aligned(gates, maxActive, s) && Enabled(gates, maxActive, s, event)
    requires Reported(s, skips)
    ensures Reported(Apply(outcome, s, event), skips + (if event.Skip? then [event] else []))
  {
    var more := if event.Skip? then [event] else [];
    OneMoreSkip(skips, more);
    var after := Apply(outcome, s, event);
    forall skip | skip in skips + more && skip.Skip?
      ensures skip.id in after.results && after.results[skip.id].failedDeps == skip.failedDeps
    {
    }
  }

  lemma OneMoreSkip(skips: seq<Event>, more: seq<Event>)
    ensures SkippedIds(skips + more) == SkippedIds(skips) + SkippedIds(more)
  {
  }

  lemma {:induction false} ResultsReported(gates: seq<Gate>, maxActive: int, outcome: Outcome, log: seq<Event>)
    requires UniqueIds(gates) && 1 <= maxActive
    requires Legal(gates, maxActive, outcome, log)
    ensures Reported(Replay(gates, outcome, log), Skips(log))
  {
    if log != [] {
      var before, last := log[..|log| - 1], log[|log| - 1];
      ResultsReported(gates, maxActive, outcome, before);
      ReachableConsistent(gates, maxActive, outcome, before);
      StepReported(gates, maxActive, outcome, Replay(gates, outcome, before), Skips(before), last);
    }
  }

  lemma CompleteIsQuiescent(gates: seq<Gate>, maxActive: int, outcome: Outcome, log: seq<Event>)
    requires UniqueIds(gates) && 1 <= maxActive
    requires Legal(gates, maxActive, outcome, log)
    requires Complete(gates, Replay(gates, outcome, log))
    ensures Quiescent(gates, outcome, Replay(gates, outcome, log).states, SkippedIds(Skips(log)))
    ensures FirstBlocked(gates, Replay(gates, outcome, log).states).None?
  {
    ReachableConsistent(gates, maxActive, outcome, log);
    var s := Replay(gates, outcome, log);
    forall gate | gate in gates
      ensures HasSettled(s.states, gate.id)
    {}
  }

  lemma CompleteSkipsMaximal(gates: seq<Gate>, maxActive: int, outcome: Outcome, log: seq<Event>, skips: seq<Event>)
    requires Admissible(gates) && 1 <= maxActive
    requires Legal(gates, maxActive, outcome, log)
    requires Complete(gates, Replay(gates, outcome, log))
    requires Chain(SkipRelation(gates, outcome), skips)
    ensures |skips| <= |Skips(log)|
  {
    var own := Skips(log);
    SkipsFormChain(gates, maxActive, outcome, log);
    if |own| < |skips| {
      SkipChainsAgree(gates, outcome, own, skips, |own|);
      assert own == skips[..|own|];
      assert SkipRelation(gates, outcome)(skips[..|own|], skips[|own|]);
      CompleteIsQuiescent(gates, maxActive, outcome, log);
      NoSkipFollows(gates, outcome, Replay(gates, outcome, log).states, own, skips[|own|]);
    }
  }

  lemma ResultsAgree(a: Sched, b: Sched, skips: seq<Event>)
    requires a.states == b.states
    requires Reported(a, skips) && Reported(b, skips)
    requires forall id :: id in a.results <==> HasSettled(a.states, id)
    requires forall id :: id in b.results <==> HasSettled(b.states, id)
    requires forall id :: id in a.results && HasSettled(a.states, id) ==> a.results[id].status == a.states[id].status
    requires forall id :: id in b.results && HasSettled(b.states, id) ==> b.results[id].status == b.states[id].status
    ensures a.results == b.results
  {
    forall id | id in a.results
      ensures a.results[id] == b.results[id]
    {
      if id in SkippedIds(skips) {
        var skip :| skip in skips && skip.Skip? && skip.id == id;
      }
    }
  }

  lemma SkipsAgree(gates: seq<Gate>, outcome: Outcome, maxA: int, logA: seq<Event>, maxB: int, logB: seq<Event>)
    requires Admissible(gates) && 1 <= maxA && 1 <= maxB
    requires Legal(gates, maxA, outcome, logA) && Complete(gates, Replay(gates, outcome, logA))
    requires Legal(gates, maxB, outcome, logB) && Complete(gates, Replay(gates, outcome, logB))
    ensures Skips(logA) == Skips(logB)
  {
    SkipsFormChain(gates, maxA, outcome, logA);
    SkipsFormChain(gates, maxB, outcome, logB);
    CompleteSkipsMaximal(gates, maxA, outcome, logA, Skips(logB));
    CompleteSkipsMaximal(gates, maxB, outcome, logB, Skips(logA));
    SkipChainsAgree(gates, outcome, Skips(logA), Skips(logB), |Skips(logA)|);
    assert Skips(logA)[..|Skips(logA)|] == Skips(logA) && Skips(logB)[..|Skips(logA)|] == Skips(logB);
  }

  /** Two complete runs of one gate list report the same result for every gate and
      skip the same gates in the same order, whatever settles when and however
      many slots each had. */
  lemma ScheduleIndependence(gates: seq<Gate>, outcome: Outcome, maxA: int, logA: seq<Event>, maxB: int,
                             logB: seq<Event>)
    requires Admissible(gates) && 1 <= maxA && 1 <= maxB
    requires Legal(gates, maxA, outcome, logA) && Complete(gates, Replay(gates, outcome, logA))
    requires Legal(gates, maxB, outcome, logB) && Complete(gates, Replay(gates, outcome, logB))
    ensures Skips(logA) == Skips(logB)
    ensures Replay(gates, outcome, logA) == Replay(gates, outcome, logB)
  {
    var a, b := Replay(gates, outcome, logA), Replay(gates, outcome, logB);
    var skips := Skips(logA);
    SkipsAgree(gates, outcome, maxA, logA, maxB, logB);
    assert a.states == b.states by {
      CompleteIsQuiescent(gates, maxA, outcome, logA);
      CompleteIsQuiescent(gates, maxB, outcome, logB);
      QuiescentUnique(gates, outcome, a.states, b.states, SkippedIds(skips));
    }
    assert a.results == b.results by {
      ReachableConsistent(gates, maxA, outcome, logA);
      ReachableConsistent(gates, maxB, outcome, logB);
      ResultsReported(gates, maxA, outcome, logA);
      ResultsReported(gates, maxB, outcome, logB);
      ResultsAgree(a, b, skips);
    }
  }
}
