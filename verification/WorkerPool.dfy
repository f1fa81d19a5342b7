/**
 * The shared-counter worker pool of `runAll` (scripts/publint-all.ts:62-75, 204-222).
 *
 * Workers interleave at their only `await`: taking the counter's value and
 * increasing it is one step, and storing the result of a lint is another.  A
 * lint's result is an arbitrary function of the target; no target is linted twice.
 */
module WorkerPool {
  import opened Options

  datatype Worker = Ready | Linting(index: nat) | Returned

  datatype Pool<R> = Pool(next: nat, workers: seq<Worker>, results: map<nat, R>)

  datatype Event = Claim(worker: nat) | Finish(worker: nat)

  predicate Enabled<R>(s: Pool<R>, e: Event) {
    e.worker < |s.workers| && if e.Claim? then s.workers[e.worker].Ready? else s.workers[e.worker].Linting?
  }

  function Apply<R>(total: nat, lint: nat -> R, s: Pool<R>, e: Event): Pool<R>
    requires Enabled(s, e)
  {
    match e
    case Claim(w) =>
      s.(next := s.next + 1, workers := s.workers[w := if s.next < total then Linting(s.next) else Returned])
    case Finish(w) =>
      var index := s.workers[w].index;
      s.(workers := s.workers[w := Ready], results := s.results[index := lint(index)])
  }

  function AllReady(n: nat): (workers: seq<Worker>)
    ensures |workers| == n && forall w :: 0 <= w < n ==> workers[w] == Ready
  {
    if n == 0 then [] else [Ready] + AllReady(n - 1)
  }

  function Initial<R>(concurrency: nat): Pool<R> {
    Pool(0, AllReady(concurrency), map[])
  }

  ghost predicate Legal<R>(total: nat, concurrency: nat, lint: nat -> R, log: seq<Event>)
    decreases |log|, 0
  {
    log == [] ||
    (var front := log[..|log| - 1];
     Legal(total, concurrency, lint, front) && Enabled(Replay(total, concurrency, lint, front), log[|log| - 1]))
  }

  ghost function Replay<R>(total: nat, concurrency: nat, lint: nat -> R, log: seq<Event>): Pool<R>
    requires Legal(total, concurrency, lint, log)
    decreases |log|, 1
  {
    if log == [] then Initial(concurrency)
    else Apply(total, lint, Replay(total, concurrency, lint, log[..|log| - 1]), log[|log| - 1])
  }

  // ----- every reachable state -----

  predicate Claimed<R>(s: Pool<R>, index: nat) {
    index in s.results || exists w :: 0 <= w < |s.workers| && s.workers[w] == Linting(index)
  }

  ghost predicate Consistent<R>(total: nat, lint: nat -> R, s: Pool<R>) {
    && (forall i :: i in s.results ==> i < total && i < s.next && s.results[i] == lint(i))
    && (forall w :: 0 <= w < |s.workers| && s.workers[w].Linting? ==>
          var i := s.workers[w].index; i < total && i < s.next && i !in s.results)
    && (forall v, w :: 0 <= v < w < |s.workers| && s.workers[v].Linting? && s.workers[w].Linting? ==>
          s.workers[v].index != s.workers[w].index)
    && (forall i :: 0 <= i < total && i < s.next ==> Claimed(s, i))
    && (forall w :: 0 <= w < |s.workers| && s.workers[w].Returned? ==> total <= s.next)
  }

  lemma ClaimedKept<R>(total: nat, lint: nat -> R, s: Pool<R>, e: Event, i: nat)
    requires Enabled(s, e) && (Claimed(s, i) || (e.Claim? && i == s.next < total))
    ensures Claimed(Apply(total, lint, s, e), i)
  {
    var after := Apply(total, lint, s, e);
    if Claimed(s, i) && i !in s.results {
      var w :| 0 <= w < |s.workers| && s.workers[w] == Linting(i);
      assert w != e.worker ==> after.workers[w] == Linting(i);
    } else if !Claimed(s, i) {
      assert after.workers[e.worker] == Linting(i);
    }
  }

  lemma ConsistentStep<R>(total: nat, lint: nat -> R, s: Pool<R>, e: Event)
    requires Consistent(total, lint, s) && Enabled(s, e)
    ensures Consistent(total, lint, Apply(total, lint, s, e))
  {
    var after := Apply(total, lint, s, e);
    forall i | 0 <= i < total && i < after.next
      ensures Claimed(after, i)
    {
      ClaimedKept(total, lint, s, e, i);
    }
  }

  // In every interleaving: claimed indices are distinct, a claimed target has a
  // worker or a result, and a stored result is the one of its target.
  lemma {:induction false} ReachableConsistent<R>(total: nat, concurrency: nat, lint: nat -> R, log: seq<Event>)
    requires Legal(total, concurrency, lint, log)
    ensures Consistent(total, lint, Replay(total, concurrency, lint, log))
    ensures |Replay(total, concurrency, lint, log).workers| == concurrency
    decreases |log|
  {
    if log != [] {
      var front := log[..|log| - 1];
      ReachableConsistent(total, concurrency, lint, front);
      ConsistentStep(total, lint, Replay(total, concurrency, lint, front), log[|log| - 1]);
    }
  }

  // ----- each target is linted exactly once -----

  // The event starts its worker on the target.
  predicate HandsOut<R>(total: nat, lint: nat -> R, s: Pool<R>, e: Event, index: nat)
    requires Enabled(s, e)
  {
    Apply(total, lint, s, e).workers[e.worker] == Linting(index)
  }

  // How often a run hands a target to a worker.
  ghost function Lints<R>(total: nat, concurrency: nat, lint: nat -> R, log: seq<Event>, index: nat): nat
    requires Legal(total, concurrency, lint, log)
    decreases |log|
  {
    if log == [] then 0
    else
      var front, last := log[..|log| - 1], log[|log| - 1];
      Lints(total, concurrency, lint, front, index)
      + if HandsOut(total, lint, Replay(total, concurrency, lint, front), last, index) then 1 else 0
  }

  function Claims(log: seq<Event>): nat
    decreases |log|
  {
    if log == [] then 0
    else Claims(log[..|log| - 1]) + if log[|log| - 1].Claim? then 1 else 0
  }

  lemma {:induction false} CounterCountsClaims<R>(total: nat, concurrency: nat, lint: nat -> R, log: seq<Event>)
    requires Legal(total, concurrency, lint, log)
    ensures Replay(total, concurrency, lint, log).next == Claims(log)
    decreases |log|
  {
    if log != [] {
      CounterCountsClaims(total, concurrency, lint, log[..|log| - 1]);
    }
  }

  // Each target below the number of claims was handed out once, and nothing else was.
  lemma {:induction false} LintsOnce<R>(total: nat, concurrency: nat, lint: nat -> R, log: seq<Event>, index: nat)
    requires Legal(total, concurrency, lint, log)
    ensures Lints(total, concurrency, lint, log, index) == if index < total && index < Claims(log) then 1 else 0
    decreases |log|
  {
    if log != [] {
      var front := log[..|log| - 1];
      LintsOnce(total, concurrency, lint, front, index);
      CounterCountsClaims(total, concurrency, lint, front);
    }
  }

  // A stored result is never written again.
  lemma ResultsPersist<R>(total: nat, lint: nat -> R, s: Pool<R>, e: Event, i: nat)
    requires Consistent(total, lint, s) && Enabled(s, e) && i in s.results
    ensures e.Finish? ==> s.workers[e.worker].index != i
    ensures var after := Apply(total, lint, s, e); i in after.results && after.results[i] == s.results[i]
  {
  }

  // ----- runs end -----

  function Weight(workers: seq<Worker>): nat {
    if workers == [] then 0
    else (match workers[0] case Ready => 1 case Linting(_) => 2 case Returned => 0) + Weight(workers[1..])
  }

  lemma {:induction false} WeightUpdate(workers: seq<Worker>, w: nat, value: Worker)
    requires w < |workers|
    ensures Weight(workers[w := value]) == Weight(workers) - Weight([workers[w]]) + Weight([value])
  {
    assert [workers[w]][1..] == [] && [value][1..] == [];
    if w == 0 {
      assert workers[w := value][1..] == workers[1..];
    } else {
      assert workers[w := value][1..] == workers[1..][w - 1 := value];
      WeightUpdate(workers[1..], w - 1, value);
    }
  }

  // The steps a state still has to take.
  function Remaining<R>(total: nat, s: Pool<R>): nat {
    (if s.next < total then 2 * (total - s.next) else 0) + Weight(s.workers)
  }

  lemma StepTakesOne<R>(total: nat, lint: nat -> R, s: Pool<R>, e: Event)
    requires Enabled(s, e)
    ensures Remaining(total, Apply(total, lint, s, e)) == Remaining(total, s) - 1
  {
    var value := Apply(total, lint, s, e).workers[e.worker];
    WeightUpdate(s.workers, e.worker, value);
    assert [s.workers[e.worker]][1..] == [] && [value][1..] == [];
  }

  lemma {:induction false} ReadyWeight(n: nat)
    ensures Weight(AllReady(n)) == n
  {
    if n > 0 {
      assert AllReady(n)[1..] == AllReady(n - 1);
      ReadyWeight(n - 1);
    }
  }

  // Every run takes its steps out of the same budget, whatever the interleaving.
  lemma {:induction false} RunsAreBounded<R>(total: nat, concurrency: nat, lint: nat -> R, log: seq<Event>)
    requires Legal(total, concurrency, lint, log)
    ensures |log| + Remaining(total, Replay(total, concurrency, lint, log)) == 2 * total + concurrency
    decreases |log|
  {
    if log == [] {
      ReadyWeight(concurrency);
    } else {
      var front := log[..|log| - 1];
      RunsAreBounded(total, concurrency, lint, front);
      StepTakesOne(total, lint, Replay(total, concurrency, lint, front), log[|log| - 1]);
    }
  }

  predicate Complete<R>(s: Pool<R>) {
    forall w :: 0 <= w < |s.workers| ==> s.workers[w].Returned?
  }

  // The pool never hangs: some step is possible exactly until all workers returned.
  lemma NeverHangs<R>(s: Pool<R>)
    ensures !Complete(s) <==> exists e :: Enabled(s, e)
  {
    if !Complete(s) {
      var w :| 0 <= w < |s.workers| && !s.workers[w].Returned?;
      assert Enabled(s, if s.workers[w].Ready? then Claim(w) else Finish(w));
    }
  }

  // Main result: when all workers have returned, every target has been linted
  // once and has its result, if and only if there was a worker or nothing to do.
  lemma CompleteHasResults<R>(total: nat, concurrency: nat, lint: nat -> R, log: seq<Event>)
    requires Legal(total, concurrency, lint, log) && Complete(Replay(total, concurrency, lint, log))
    ensures (forall i :: 0 <= i < total ==> i in Replay(total, concurrency, lint, log).results) <==>
              total == 0 || concurrency > 0
    ensures concurrency > 0 ==> forall i :: 0 <= i < total ==>
              Replay(total, concurrency, lint, log).results[i] == lint(i)
              && Lints(total, concurrency, lint, log, i) == 1
  {
    var s := Replay(total, concurrency, lint, log);
    ReachableConsistent(total, concurrency, lint, log);
    CounterCountsClaims(total, concurrency, lint, log);
    if concurrency > 0 {
      assert s.workers[0].Returned?;
      forall i | 0 <= i < total
        ensures i in s.results && s.results[i] == lint(i) && Lints(total, concurrency, lint, log, i) == 1
      {
        assert Claimed(s, i);
        LintsOnce(total, concurrency, lint, log, i);
      }
    } else if total > 0 {
      NoWorkersNoResults(total, lint, log);
      assert 0 !in s.results;
    }
  }

  lemma {:induction false} NoWorkersNoResults<R>(total: nat, lint: nat -> R, log: seq<Event>)
    requires Legal(total, 0, lint, log)
    ensures Replay(total, 0, lint, log) == Initial<R>(0)
  {
    if log != [] {
      ReachableConsistent(total, 0, lint, log[..|log| - 1]);
      assert false;
    }
  }

  // ----- the run itself -----

  class RunningPool<R> {
    const total: nat
    const concurrency: nat
    const lint: nat -> R
    var next: nat
    var workers: seq<Worker>
    var results: map<nat, R>
    ghost var log: seq<Event>

    ghost function View(): Pool<R>
      reads this
    {
      Pool(next, workers, results)
    }

    ghost predicate Valid()
      reads this
    {
      Legal(total, concurrency, lint, log) && View() == Replay(total, concurrency, lint, log)
    }

    constructor (total: nat, concurrency: nat, lint: nat -> R)
      ensures Valid() && log == [] && this.total == total && this.concurrency == concurrency && this.lint == lint
    {
      this.total, this.concurrency, this.lint := total, concurrency, lint;
      next, workers, results := 0, AllReady(concurrency), map[];
      log := [];
    }

    // A worker takes the counter's value and increases it.
    method TakeNext(w: nat)
      requires Valid() && Enabled(View(), Claim(w))
      modifies this
      ensures Valid() && log == old(log) + [Claim(w)] && |workers| == old(|workers|)
    {
      var index := next;
      next := next + 1;
      workers := workers[w := if index < total then Linting(index) else Returned];
      log := log + [Claim(w)];
      assert log[..|log| - 1] == old(log);
    }

    method Store(w: nat)
      requires Valid() && Enabled(View(), Finish(w))
      modifies this
      ensures Valid() && log == old(log) + [Finish(w)] && |workers| == old(|workers|)
    {
      var index := workers[w].index;
      results := results[index := lint(index)];
      workers := workers[w := Ready];
      log := log + [Finish(w)];
      assert log[..|log| - 1] == old(log);
    }
  }

  // `Promise.all` over the workers, in any interleaving, then the results in input
  // order.  The missing-result error needs a pool without workers.
  method RunAll<R>(total: nat, concurrency: nat, lint: nat -> R) returns (r: Result<seq<R>, nat>)
    ensures r.Ok? <==> total == 0 || concurrency > 0
    ensures r.Ok? ==> |r.value| == total && forall i :: 0 <= i < total ==> r.value[i] == lint(i)
    ensures r.Err? ==> r.error < total
  {
    var pool := new RunningPool<R>(total, concurrency, lint);
    ReachableConsistent(total, concurrency, lint, pool.log);
    while exists w :: 0 <= w < |pool.workers| && !pool.workers[w].Returned?
      invariant pool.Valid() && |pool.workers| == concurrency
      decreases 2 * total + concurrency - |pool.log|
    {
      var w :| 0 <= w < |pool.workers| && !pool.workers[w].Returned?;
      if pool.workers[w].Ready? {
        pool.TakeNext(w);
      } else {
        pool.Store(w);
      }
      RunsAreBounded(total, concurrency, lint, pool.log);
    }
    CompleteHasResults(total, concurrency, lint, pool.log);
    assert pool.results == Replay(total, concurrency, lint, pool.log).results;
    r := Collect(total, pool.results);
  }

  method Collect<R>(total: nat, stored: map<nat, R>) returns (r: Result<seq<R>, nat>)
    ensures r.Ok? <==> forall i :: 0 <= i < total ==> i in stored
    ensures r.Ok? ==> |r.value| == total && forall i :: 0 <= i < total ==> r.value[i] == stored[i]
    ensures r.Err? ==> r.error < total && r.error !in stored
  {
    var results := [];
    for i := 0 to total
      invariant |results| == i && forall k :: 0 <= k < i ==> k in stored && results[k] == stored[k]
    {
      if i !in stored {
        return Err(i);
      }
      results := results + [stored[i]];
    }
    return Ok(results);
  }
}
