/** The publication protocol: any number of runs of one bundle, each one npm command
    at a time, interleaved with each other and with other publishers.

    A run that crashes is one that takes no further step; a rerun is a new run. */
module Publication {
  import opened Options
  import opened Registry

  /** The next command of one `publish()` run. */
  datatype Pc =
    | Check(i: nat)
    | Upload(i: nat)
    | ReadTag(i: nat)
    | WriteTag(i: nat)
    | ReadLatest
    | WriteLatest
    | Verify(i: nat)
    | VerifyTag(i: nat)
    | VerifyLatest
    | Done
    | Failed

  function Size(bundle: Bundle): nat {
    |bundle.packages|
  }

  predicate InRange(bundle: Bundle, pc: Pc) {
    match pc
    case Check(i) => i <= Size(bundle)
    case Verify(i) => i <= Size(bundle)
    case Upload(i) => i < Size(bundle)
    case ReadTag(i) => i < Size(bundle)
    case WriteTag(i) => i < Size(bundle)
    case VerifyTag(i) => i < Size(bundle)
    case _ => true
  }

  function Writing(write: Option<State>, s: State, next: Pc): (State, Pc) {
    match write
    case Some(after) => (after, next)
    case None => (s, Failed)
  }

  /** One command of one run. */
  function Step(bundle: Bundle, s: State, pc: Pc): (r: (State, Pc))
    requires InRange(bundle, pc)
    ensures InRange(bundle, r.1)
  {
    var version := bundle.version;
    match pc
    case Check(i) =>
      if i == Size(bundle) then (s, ReadLatest)
      else if (bundle.packages[i].name, version) !in s.published then (s, Upload(i))
      else if Conflicts(bundle, s, bundle.packages[i]) then (s, Failed)
      else (s, ReadTag(i))
    case Upload(i) =>
      var package := bundle.packages[i];
      Writing(NpmPublish(s, package.name, version, package.integrity, bundle.distTag), s, ReadTag(i))
    case ReadTag(i) =>
      if Points(s, bundle.packages[i].name, bundle.distTag, version) then (s, Check(i + 1)) else (s, WriteTag(i))
    case WriteTag(i) =>
      Writing(NpmDistTagAdd(s, bundle.packages[i].name, version, bundle.distTag), s, Check(i + 1))
    case ReadLatest =>
      if Points(s, RELEASE_ENTRY_PACKAGE, LATEST_DIST_TAG, version) then (s, Verify(0)) else (s, WriteLatest)
    case WriteLatest =>
      Writing(NpmDistTagAdd(s, RELEASE_ENTRY_PACKAGE, version, LATEST_DIST_TAG), s, Verify(0))
    case Verify(i) =>
      if i == Size(bundle) then (s, VerifyLatest)
      else if (bundle.packages[i].name, version) !in s.published then (s, Failed)
      else if Conflicts(bundle, s, bundle.packages[i]) then (s, Failed)
      else (s, VerifyTag(i))
    case VerifyTag(i) =>
      if Points(s, bundle.packages[i].name, bundle.distTag, version) then (s, Verify(i + 1)) else (s, Failed)
    case VerifyLatest =>
      if Points(s, RELEASE_ENTRY_PACKAGE, LATEST_DIST_TAG, version) then (s, Done) else (s, Failed)
    case Done => (s, Done)
    case Failed => (s, Failed)
  }

  // ---- Many runs on a shared registry ----

  datatype System = System(registry: State, runs: seq<Pc>)

  datatype Action =
    | Begin
    | Advance(run: nat)
    | Foreign(after: State)

  /** Other publishers never rewrite a published version, and never move the release
      dist-tag of a package away from this version. They may publish anything, this
      version of these packages included, and may move the entry package's `latest`,
      but not to this version. */
  ghost predicate ForeignChange(bundle: Bundle, before: State, after: State) {
    && Preserves(before, after)
    && (forall package :: package in bundle.packages ==>
          Points(before, package.name, bundle.distTag, bundle.version) ==>
            Points(after, package.name, bundle.distTag, bundle.version))
    && (LatestIsThis(bundle, after) ==> LatestIsThis(bundle, before))
  }

  /** Published integrities are never changed or withdrawn. */
  ghost predicate Preserves(before: State, after: State) {
    forall key :: key in before.published ==> key in after.published && after.published[key] == before.published[key]
  }

  ghost predicate Allowed(bundle: Bundle, system: System, action: Action) {
    match action
    case Begin => true
    case Advance(run) => run < |system.runs|
    case Foreign(after) => ForeignChange(bundle, system.registry, after)
  }

  function Perform(bundle: Bundle, system: System, action: Action): System {
    match action
    case Begin => system.(runs := system.runs + [Check(0)])
    case Advance(run) =>
      if run < |system.runs| && InRange(bundle, system.runs[run]) then
        var (registry, pc) := Step(bundle, system.registry, system.runs[run]);
        System(registry, system.runs[run := pc])
      else system
    case Foreign(after) => system.(registry := after)
  }

  function After(bundle: Bundle, start: State, actions: seq<Action>): System {
    if actions == [] then System(start, [])
    else Perform(bundle, After(bundle, start, actions[..|actions| - 1]), actions[|actions| - 1])
  }

  ghost predicate Behaviour(bundle: Bundle, start: State, actions: seq<Action>) {
    actions == [] || (
      var before := actions[..|actions| - 1];
      Behaviour(bundle, start, before) && Allowed(bundle, After(bundle, start, before), actions[|actions| - 1]))
  }

  // ---- What each run has already ensured ----

  ghost predicate PlacedUpTo(bundle: Bundle, s: State, i: nat) {
    forall j :: 0 <= j < i && j < Size(bundle) ==> Placed(bundle, s, bundle.packages[j])
  }

  ghost predicate Stored(bundle: Bundle, s: State, i: nat)
    requires i < Size(bundle)
  {
    var key := (bundle.packages[i].name, bundle.version);
    key in s.published && s.published[key] == bundle.packages[i].integrity
  }

  ghost predicate RunInvariant(bundle: Bundle, s: State, pc: Pc) {
    InRange(bundle, pc) &&
    match pc
    case Check(i) => PlacedUpTo(bundle, s, i)
    case Upload(i) => PlacedUpTo(bundle, s, i)
    case ReadTag(i) => PlacedUpTo(bundle, s, i) && Stored(bundle, s, i)
    case WriteTag(i) => PlacedUpTo(bundle, s, i) && Stored(bundle, s, i)
    case Failed => true
    case _ => AllPlaced(bundle, s)
  }

  /** The release dist-tag does not move the entry's `latest` early: it is another
      tag, or the entry package is published last if at all. */
  ghost predicate LatestMovesLast(bundle: Bundle) {
    bundle.distTag == LATEST_DIST_TAG ==>
      forall i :: 0 <= i < Size(bundle) - 1 ==> bundle.packages[i].name != RELEASE_ENTRY_PACKAGE
  }

  ghost predicate Safe(bundle: Bundle, s: State) {
    LatestIsThis(bundle, s) ==> AllPlaced(bundle, s)
  }

  ghost predicate Invariant(bundle: Bundle, system: System) {
    && (forall k :: 0 <= k < |system.runs| ==> RunInvariant(bundle, system.registry, system.runs[k]))
    && Safe(bundle, system.registry)
  }

  /** Nothing of the release that is in place is ever undone. */
  ghost predicate Keeps(bundle: Bundle, before: State, after: State) {
    && Preserves(before, after)
    && forall package :: package in bundle.packages && Points(before, package.name, bundle.distTag, bundle.version) ==>
         Points(after, package.name, bundle.distTag, bundle.version)
  }

  lemma StepKeeps(bundle: Bundle, s: State, pc: Pc)
    requires InRange(bundle, pc)
    ensures Keeps(bundle, s, Step(bundle, s, pc).0)
  {
  }

  lemma RunInvariantKept(bundle: Bundle, before: State, after: State, pc: Pc)
    requires RunInvariant(bundle, before, pc) && Keeps(bundle, before, after)
    ensures RunInvariant(bundle, after, pc)
  {
    forall package | package in bundle.packages && Placed(bundle, before, package)
      ensures Placed(bundle, after, package)
    {}
  }

  lemma UpToEnd(bundle: Bundle, s: State)
    requires PlacedUpTo(bundle, s, Size(bundle))
    ensures AllPlaced(bundle, s)
  {
    forall package | package in bundle.packages
      ensures Placed(bundle, s, package)
    {
      var j :| 0 <= j < Size(bundle) && bundle.packages[j] == package;
    }
  }

  lemma OwnStepInvariant(bundle: Bundle, s: State, pc: Pc)
    requires RunInvariant(bundle, s, pc)
    ensures var (after, next) := Step(bundle, s, pc); RunInvariant(bundle, after, next)
  {
    var (after, next) := Step(bundle, s, pc);
    StepKeeps(bundle, s, pc);
    if !next.Failed? {
      RunInvariantKept(bundle, s, after, pc);
      if pc == Check(Size(bundle)) {
        UpToEnd(bundle, s);
      }
    }
  }

  lemma OwnStepSafe(bundle: Bundle, s: State, pc: Pc)
    requires Loadable(bundle) && LatestMovesLast(bundle)
    requires RunInvariant(bundle, s, pc) && Safe(bundle, s)
    ensures Safe(bundle, Step(bundle, s, pc).0)
  {
    var (after, next) := Step(bundle, s, pc);
    StepKeeps(bundle, s, pc);
    OwnStepInvariant(bundle, s, pc);
    if LatestIsThis(bundle, after) {
      if LatestIsThis(bundle, s) {
        RunInvariantKept(bundle, s, after, Done);
      } else if pc.Upload? || pc.WriteTag? {
        assert pc.i == Size(bundle) - 1;
        assert Placed(bundle, after, bundle.packages[pc.i]);
        assert PlacedUpTo(bundle, after, Size(bundle));
        UpToEnd(bundle, after);
      }
    }
  }

  lemma PerformInvariant(bundle: Bundle, system: System, action: Action)
    requires Loadable(bundle) && LatestMovesLast(bundle)
    requires Invariant(bundle, system) && Allowed(bundle, system, action)
    ensures Invariant(bundle, Perform(bundle, system, action))
  {
    var after := Perform(bundle, system, action);
    if action.Advance? {
      StepKeeps(bundle, system.registry, system.runs[action.run]);
      OwnStepInvariant(bundle, system.registry, system.runs[action.run]);
      OwnStepSafe(bundle, system.registry, system.runs[action.run]);
    } else if action.Foreign? && LatestIsThis(bundle, after.registry) {
      RunInvariantKept(bundle, system.registry, after.registry, Done);
    }
    forall k | 0 <= k < |system.runs| && !(action.Advance? && action.run == k)
      ensures RunInvariant(bundle, after.registry, system.runs[k])
    {
      RunInvariantKept(bundle, system.registry, after.registry, system.runs[k]);
    }
  }

  /** Over all interleavings of any number of runs, crashes, and other publishers:
      if the entry's `latest` did not point at this version at the start and does
      now, every package is in the registry with its manifest integrity and tag. */
  lemma {:induction false} ReleaseSafety(bundle: Bundle, start: State, actions: seq<Action>)
    requires Loadable(bundle) && LatestMovesLast(bundle)
    requires !LatestIsThis(bundle, start) && Behaviour(bundle, start, actions)
    ensures Invariant(bundle, After(bundle, start, actions))
    ensures LatestIsThis(bundle, After(bundle, start, actions).registry) ==>
              AllPlaced(bundle, After(bundle, start, actions).registry)
  {
    if actions != [] {
      var before, last := actions[..|actions| - 1], actions[|actions| - 1];
      ReleaseSafety(bundle, start, before);
      PerformInvariant(bundle, After(bundle, start, before), last);
    }
  }

  lemma PerformPreserves(bundle: Bundle, system: System, action: Action)
    requires Allowed(bundle, system, action)
    ensures Preserves(system.registry, Perform(bundle, system, action).registry)
  {
    if action.Advance? && InRange(bundle, system.runs[action.run]) {
      StepKeeps(bundle, system.registry, system.runs[action.run]);
    }
  }

  /** No published version's integrity is ever changed. */
  lemma {:induction false} IntegrityNeverChanges(bundle: Bundle, start: State, actions: seq<Action>)
    requires Behaviour(bundle, start, actions)
    ensures Preserves(start, After(bundle, start, actions).registry)
  {
    if actions != [] {
      var before, last := actions[..|actions| - 1], actions[|actions| - 1];
      IntegrityNeverChanges(bundle, start, before);
      PerformPreserves(bundle, After(bundle, start, before), last);
    }
  }

  // ---- The guard is exact: a manifest whose dist-tag is `latest` breaks the order ----

  /** The actions by which one run, alone on an empty registry, places packages. */
  function PlaceAlone(n: nat): seq<Action> {
    if n == 0 then [Begin] else PlaceAlone(n - 1) + [Advance(0), Advance(0), Advance(0)]
  }

  ghost predicate OnlyFirst(bundle: Bundle, s: State, n: nat) {
    && PlacedUpTo(bundle, s, n)
    && forall j :: n <= j < Size(bundle) ==> (bundle.packages[j].name, bundle.version) !in s.published
  }

  lemma Perform1(bundle: Bundle, start: State, actions: seq<Action>, action: Action)
    requires Behaviour(bundle, start, actions) && Allowed(bundle, After(bundle, start, actions), action)
    ensures Behaviour(bundle, start, actions + [action])
    ensures After(bundle, start, actions + [action]) == Perform(bundle, After(bundle, start, actions), action)
  {
    assert (actions + [action])[..|actions|] == actions;
  }

  /** A lone run takes its next step. */
  lemma AdvanceAlone(bundle: Bundle, actions: seq<Action>, s: State, pc: Pc)
    requires Behaviour(bundle, State(map[], map[]), actions) && InRange(bundle, pc)
    requires After(bundle, State(map[], map[]), actions) == System(s, [pc])
    ensures Behaviour(bundle, State(map[], map[]), actions + [Advance(0)])
    ensures After(bundle, State(map[], map[]), actions + [Advance(0)]) ==
            System(Step(bundle, s, pc).0, [Step(bundle, s, pc).1])
  {
    Perform1(bundle, State(map[], map[]), actions, Advance(0));
    assert [pc][0 := Step(bundle, s, pc).1] == [Step(bundle, s, pc).1];
  }

  lemma PlaceNext(bundle: Bundle, s: State, n: nat) returns (after: State)
    requires Loadable(bundle) && n < Size(bundle) && OnlyFirst(bundle, s, n)
    ensures Step(bundle, s, Check(n)) == (s, Upload(n))
    ensures Step(bundle, s, Upload(n)) == (after, ReadTag(n))
    ensures Step(bundle, after, ReadTag(n)) == (after, Check(n + 1))
    ensures OnlyFirst(bundle, after, n + 1)
  {
    after := Step(bundle, s, Upload(n)).0;
    forall j | 0 <= j < n + 1
      ensures Placed(bundle, after, bundle.packages[j])
    {
      assert j < n ==> Placed(bundle, s, bundle.packages[j]);
    }
  }

  lemma AdvanceThrice(bundle: Bundle, actions: seq<Action>, s: State, after: State, n: nat)
    requires n < Size(bundle)
    requires Behaviour(bundle, State(map[], map[]), actions)
    requires After(bundle, State(map[], map[]), actions) == System(s, [Check(n)])
    requires Step(bundle, s, Check(n)) == (s, Upload(n))
    requires Step(bundle, s, Upload(n)) == (after, ReadTag(n))
    requires Step(bundle, after, ReadTag(n)) == (after, Check(n + 1))
    ensures Behaviour(bundle, State(map[], map[]), actions + [Advance(0), Advance(0), Advance(0)])
    ensures After(bundle, State(map[], map[]), actions + [Advance(0), Advance(0), Advance(0)])
            == System(after, [Check(n + 1)])
  {
    var once := actions + [Advance(0)];
    var twice := once + [Advance(0)];
    AdvanceAlone(bundle, actions, s, Check(n));
    AdvanceAlone(bundle, once, s, Upload(n));
    AdvanceAlone(bundle, twice, after, ReadTag(n));
    assert twice + [Advance(0)] == actions + [Advance(0), Advance(0), Advance(0)];
  }

  /** Alone on an empty registry, a run placed the first `n` packages. */
  ghost predicate PlacedAlone(bundle: Bundle, n: nat, s: State) {
    && Behaviour(bundle, State(map[], map[]), PlaceAlone(n))
    && After(bundle, State(map[], map[]), PlaceAlone(n)) == System(s, [Check(n)])
    && OnlyFirst(bundle, s, n)
  }

  lemma PlacedNone(bundle: Bundle)
    ensures PlacedAlone(bundle, 0, State(map[], map[]))
  {
    assert [Begin][..0] == [];
    var start: seq<Pc> := [];
    assert start + [Check(0)] == [Check(0)];
  }

  lemma PlacedOneMore(bundle: Bundle, n: nat, s: State) returns (after: State)
    requires Loadable(bundle) && 0 < n <= Size(bundle) && PlacedAlone(bundle, n - 1, s)
    ensures PlacedAlone(bundle, n, after)
  {
    after := PlaceNext(bundle, s, n - 1);
    AdvanceThrice(bundle, PlaceAlone(n - 1), s, after, n - 1);
  }

  lemma {:induction false} PlaceAloneReaches(bundle: Bundle, n: nat) returns (s: State)
    requires Loadable(bundle) && n <= Size(bundle)
    ensures PlacedAlone(bundle, n, s)
  {
    if n == 0 {
      PlacedNone(bundle);
      s := State(map[], map[]);
    } else {
      var before := PlaceAloneReaches(bundle, n - 1);
      s := PlacedOneMore(bundle, n, before);
    }
  }

  lemma UnsafeRun(bundle: Bundle) returns (actions: seq<Action>)
    requires Loadable(bundle) && !LatestMovesLast(bundle)
    ensures Behaviour(bundle, State(map[], map[]), actions)
    ensures !Safe(bundle, After(bundle, State(map[], map[]), actions).registry)
  {
    var i :| 0 <= i < Size(bundle) - 1 && bundle.packages[i].name == RELEASE_ENTRY_PACKAGE;
    var s := PlaceAloneReaches(bundle, i + 1);
    actions := PlaceAlone(i + 1);
    assert Placed(bundle, s, bundle.packages[i]);
    assert !Placed(bundle, s, bundle.packages[i + 1]);
    assert bundle.packages[i + 1] in bundle.packages;
  }

  /** A bundle that loads: published under `latest`, with the entry package first. */
  function EntryFirst(version: string, integrity: string): Bundle {
    Bundle(version, LATEST_DIST_TAG,
           [Package(RELEASE_ENTRY_PACKAGE, integrity), Package(RELEASE_ENTRY_PACKAGE + "-core", integrity)])
  }

  /** A run of it can leave `latest` at the new version while a package is missing. */
  lemma EntryFirstIsUnsafe(version: string, integrity: string) returns (actions: seq<Action>)
    ensures Loadable(EntryFirst(version, integrity))
    ensures Behaviour(EntryFirst(version, integrity), State(map[], map[]), actions)
    ensures var end := After(EntryFirst(version, integrity), State(map[], map[]), actions).registry;
            LatestIsThis(EntryFirst(version, integrity), end) && !AllPlaced(EntryFirst(version, integrity), end)
  {
    var bundle := EntryFirst(version, integrity);
    assert |RELEASE_ENTRY_PACKAGE + "-core"| > |RELEASE_ENTRY_PACKAGE|;
    assert bundle.packages[0].name == RELEASE_ENTRY_PACKAGE && Size(bundle) == 2;
    actions := UnsafeRun(bundle);
  }

  /** Release safety holds of a bundle exactly when its dist-tag moves `latest` last. */
  lemma SafetyIff(bundle: Bundle)
    requires Loadable(bundle)
    ensures LatestMovesLast(bundle) <==>
            forall start, actions ::
              !LatestIsThis(bundle, start) && Behaviour(bundle, start, actions) ==>
                Safe(bundle, After(bundle, start, actions).registry)
  {
    if LatestMovesLast(bundle) {
      forall start, actions | !LatestIsThis(bundle, start) && Behaviour(bundle, start, actions)
        ensures Safe(bundle, After(bundle, start, actions).registry)
      {
        ReleaseSafety(bundle, start, actions);
      }
    } else {
      var actions := UnsafeRun(bundle);
      var empty := State(map[], map[]);
      assert !LatestIsThis(bundle, empty);
      assert !Safe(bundle, After(bundle, empty, actions).registry);
    }
  }
}
