/** Publication converges: whatever interrupted runs have left behind, one complete
    run ends in one registry state, verifies, and leaves nothing for another to do. */
module Convergence {
  import opened Options
  import opened Registry
  import opened Publication

  // ---- The state a complete run aims for ----

  function IntegrityOf(packages: seq<Package>, name: Name): (found: Option<Integrity>)
    ensures found.Some? ==> Package(name, found.value) in packages
    ensures found.None? ==> forall p :: p in packages ==> p.name != name
  {
    if packages == [] then None
    else if packages[0].name == name then Some(packages[0].integrity)
    else IntegrityOf(packages[1..], name)
  }

  function BundleKeys(bundle: Bundle): set<(Name, Version)> {
    set p | p in bundle.packages :: (p.name, bundle.version)
  }

  function BundleTags(bundle: Bundle): set<(Name, Tag)> {
    (set p | p in bundle.packages :: (p.name, bundle.distTag)) + {(RELEASE_ENTRY_PACKAGE, LATEST_DIST_TAG)}
  }

  function FinalIntegrity(bundle: Bundle, s: State, key: (Name, Version)): Integrity
    requires key in s.published || key in BundleKeys(bundle)
  {
    if key in BundleKeys(bundle) then
      (assert exists p :: p in bundle.packages && key == (p.name, bundle.version);
       IntegrityOf(bundle.packages, key.0).value)
    else s.published[key]
  }

  /** Every package published with its manifest integrity and tagged, `latest` on the
      entry package, and everything else as it was. */
  function Completed(bundle: Bundle, s: State): State {
    State(
      map key | key in s.published.Keys + BundleKeys(bundle) :: FinalIntegrity(bundle, s, key),
      FinalTags(bundle, s.tags))
  }

  /** The entry package's version exists or will: it is in the bundle, already
      published, or already `latest`. */
  ghost predicate EntryAvailable(bundle: Bundle, s: State) {
    || LatestIsThis(bundle, s)
    || (RELEASE_ENTRY_PACKAGE, bundle.version) in s.published
    || exists p :: p in bundle.packages && p.name == RELEASE_ENTRY_PACKAGE
  }

  lemma IntegrityOfPackage(bundle: Bundle, p: Package)
    requires Loadable(bundle) && p in bundle.packages
    ensures IntegrityOf(bundle.packages, p.name) == Some(p.integrity)
  {
    var found := IntegrityOf(bundle.packages, p.name);
    var i :| 0 <= i < |bundle.packages| && bundle.packages[i] == p;
    var j :| 0 <= j < |bundle.packages| && bundle.packages[j] == Package(p.name, found.value);
  }

  lemma CompletedPlaces(bundle: Bundle, s: State)
    requires Loadable(bundle)
    ensures AllPlaced(bundle, Completed(bundle, s)) && LatestIsThis(bundle, Completed(bundle, s))
  {
    forall p | p in bundle.packages
      ensures Placed(bundle, Completed(bundle, s), p)
    {
      IntegrityOfPackage(bundle, p);
      assert (p.name, bundle.version) in BundleKeys(bundle);
      assert (p.name, bundle.distTag) in BundleTags(bundle);
    }
  }

  /** A registry with everything in place is already the completed one. */
  lemma PlacedIsCompleted(bundle: Bundle, s: State)
    requires Loadable(bundle) && AllPlaced(bundle, s) && LatestIsThis(bundle, s)
    ensures Completed(bundle, s) == s
  {
    forall key | key in BundleKeys(bundle)
      ensures key in s.published && IntegrityOf(bundle.packages, key.0) == Some(s.published[key])
    {
      var p :| p in bundle.packages && key == (p.name, bundle.version);
      IntegrityOfPackage(bundle, p);
      assert Placed(bundle, s, p);
    }
    forall key | key in BundleTags(bundle)
      ensures key in s.tags && s.tags[key] == bundle.version
    {
      if key != (RELEASE_ENTRY_PACKAGE, LATEST_DIST_TAG) {
        var p :| p in bundle.packages && key == (p.name, bundle.distTag);
        assert Placed(bundle, s, p);
      }
    }
    assert Completed(bundle, s).published == s.published;
    assert Completed(bundle, s).tags == s.tags;
  }

  lemma PublishingConverges(bundle: Bundle, s: State, p: Package)
    requires Loadable(bundle) && p in bundle.packages
    ensures Completed(bundle, s.(published := s.published[(p.name, bundle.version) := p.integrity]))
            == Completed(bundle, s)
  {
    var key := (p.name, bundle.version);
    var after := s.(published := s.published[key := p.integrity]);
    assert key in BundleKeys(bundle);
    DomainConverges(s.published.Keys, BundleKeys(bundle), key);
    assert after.published.Keys == s.published.Keys + {key};
    SamePublished(bundle, s, after);
  }

  lemma SamePublished(bundle: Bundle, s: State, after: State)
    requires after.published.Keys + BundleKeys(bundle) == s.published.Keys + BundleKeys(bundle)
    requires forall k :: k in s.published && k !in BundleKeys(bundle) ==> after.published[k] == s.published[k]
    requires after.tags == s.tags
    ensures Completed(bundle, after) == Completed(bundle, s)
  {
  }

  lemma DomainConverges<K>(published: set<K>, final: set<K>, key: K)
    requires key in final
    ensures published + {key} + final == published + final
  {
  }

  lemma TaggingConverges(bundle: Bundle, s: State, key: (Name, Tag))
    requires key in BundleTags(bundle)
    ensures Completed(bundle, s.(tags := s.tags[key := bundle.version])) == Completed(bundle, s)
  {
    TagsConverge(bundle, s.tags, key);
  }

  function FinalTags(bundle: Bundle, tags: map<(Name, Tag), Version>): map<(Name, Tag), Version> {
    map key | key in tags.Keys + BundleTags(bundle) ::
      if key in BundleTags(bundle) then bundle.version else tags[key]
  }

  lemma TagsConverge(bundle: Bundle, tags: map<(Name, Tag), Version>, key: (Name, Tag))
    requires key in BundleTags(bundle)
    ensures FinalTags(bundle, tags[key := bundle.version]) == FinalTags(bundle, tags)
  {
    assert tags[key := bundle.version].Keys + BundleTags(bundle) == tags.Keys + BundleTags(bundle);
  }

  /** No command of a run changes where the registry is headed. */
  lemma StepConverges(bundle: Bundle, s: State, pc: Pc)
    requires Loadable(bundle) && InRange(bundle, pc)
    ensures Completed(bundle, Step(bundle, s, pc).0) == Completed(bundle, s)
  {
    match pc
    case Upload(i) =>
      var p := bundle.packages[i];
      assert (p.name, bundle.distTag) in BundleTags(bundle);
      PublishingConverges(bundle, s, p);
      TaggingConverges(bundle, s.(published := s.published[(p.name, bundle.version) := p.integrity]),
                       (p.name, bundle.distTag));
    case WriteTag(i) =>
      assert bundle.packages[i] in bundle.packages;
      assert (bundle.packages[i].name, bundle.distTag) in BundleTags(bundle);
      TaggingConverges(bundle, s, (bundle.packages[i].name, bundle.distTag));
    case WriteLatest => TaggingConverges(bundle, s, (RELEASE_ENTRY_PACKAGE, LATEST_DIST_TAG));
    case _ =>
  }

  // ---- One run on its own ----

  function Rank(bundle: Bundle, pc: Pc): nat
    requires InRange(bundle, pc)
  {
    var n := Size(bundle);
    match pc
    case Check(i) => 4 * (n - i) + 2 * n + 10
    case Upload(i) => 4 * (n - i) + 2 * n + 9
    case ReadTag(i) => 4 * (n - i) + 2 * n + 8
    case WriteTag(i) => 4 * (n - i) + 2 * n + 7
    case ReadLatest => 2 * n + 9
    case WriteLatest => 2 * n + 8
    case Verify(i) => 2 * (n - i) + 2
    case VerifyTag(i) => 2 * (n - i) + 1
    case VerifyLatest => 1
    case Done => 0
    case Failed => 0
  }

  predicate Ended(pc: Pc) {
    pc.Done? || pc.Failed?
  }

  /** The run's commands one after the other, with nothing in between. */
  function RunAlone(bundle: Bundle, s: State, pc: Pc): (State, Pc)
    requires InRange(bundle, pc)
    decreases Rank(bundle, pc)
  {
    if Ended(pc) then (s, pc)
    else
      var (after, next) := Step(bundle, s, pc);
      RunAlone(bundle, after, next)
  }

  /** What additionally holds while no one else writes. */
  ghost predicate AloneInvariant(bundle: Bundle, s: State, pc: Pc) {
    && RunInvariant(bundle, s, pc)
    && (pc.Upload? ==> (bundle.packages[pc.i].name, bundle.version) !in s.published)
    && (pc.WriteLatest? ==> !LatestIsThis(bundle, s))
    && (pc.Verify? || pc.VerifyTag? || pc.VerifyLatest? || pc.Done? ==> LatestIsThis(bundle, s))
  }

  lemma AloneStep(bundle: Bundle, s: State, pc: Pc)
    requires AloneInvariant(bundle, s, pc)
    ensures var (after, next) := Step(bundle, s, pc); AloneInvariant(bundle, after, next)
  {
    OwnStepInvariant(bundle, s, pc);
  }

  /** What the outcome of a run on its own hangs on. */
  ghost predicate Completable(bundle: Bundle, s: State) {
    NoConflict(bundle, s) && EntryAvailable(bundle, s)
  }

  lemma CompletableKept(bundle: Bundle, s: State, pc: Pc)
    requires Loadable(bundle) && AloneInvariant(bundle, s, pc) && !Ended(pc)
    ensures Completable(bundle, s) ==>
              Completable(bundle, Step(bundle, s, pc).0) && !Step(bundle, s, pc).1.Failed?
    ensures !Completable(bundle, s) ==> !Completable(bundle, Step(bundle, s, pc).0)
  {
    var (after, next) := Step(bundle, s, pc);
    StepKeeps(bundle, s, pc);
    forall p | p in bundle.packages
      ensures Conflicts(bundle, after, p) <==> Conflicts(bundle, s, p)
    {
      if pc.Upload? {
        var i :| 0 <= i < Size(bundle) && bundle.packages[i] == p;
      }
    }
    assert NoConflict(bundle, after) <==> NoConflict(bundle, s);
    EntryAvailabilityKept(bundle, s, pc);
    if Completable(bundle, s) {
      NoFailure(bundle, s, pc);
    }
  }

  lemma EntryAvailabilityKept(bundle: Bundle, s: State, pc: Pc)
    requires InRange(bundle, pc)
    ensures EntryAvailable(bundle, Step(bundle, s, pc).0) <==> EntryAvailable(bundle, s)
  {
    var after := Step(bundle, s, pc).0;
    StepKeeps(bundle, s, pc);
    if pc.Upload? || pc.WriteTag? {
      assert bundle.packages[pc.i] in bundle.packages;
    }
  }

  lemma NoFailure(bundle: Bundle, s: State, pc: Pc)
    requires AloneInvariant(bundle, s, pc) && Completable(bundle, s) && !Ended(pc)
    ensures !Step(bundle, s, pc).1.Failed?
  {
    match pc
    case Check(i) => assert i < Size(bundle) ==> bundle.packages[i] in bundle.packages;
    case WriteLatest =>
      if p :| p in bundle.packages && p.name == RELEASE_ENTRY_PACKAGE {
        assert Placed(bundle, s, p);
      }
      assert !Step(bundle, s, pc).1.Failed?;
    case Verify(i) => assert i < Size(bundle) ==> Placed(bundle, s, bundle.packages[i]);
    case VerifyTag(i) => assert Placed(bundle, s, bundle.packages[i]);
    case _ =>
  }

  ghost predicate AloneSound(bundle: Bundle, s: State, pc: Pc) {
    AloneInvariant(bundle, s, pc) && (pc.Failed? ==> !Completable(bundle, s))
  }

  lemma AloneAdvances(bundle: Bundle, s: State, pc: Pc)
    requires Loadable(bundle) && AloneSound(bundle, s, pc) && !Ended(pc)
    ensures var (after, next) := Step(bundle, s, pc);
            && AloneSound(bundle, after, next)
            && (Completable(bundle, after) <==> Completable(bundle, s))
            && Completed(bundle, after) == Completed(bundle, s)
  {
    AloneStep(bundle, s, pc);
    CompletableKept(bundle, s, pc);
    StepConverges(bundle, s, pc);
  }

  lemma AloneDone(bundle: Bundle, s: State)
    requires Loadable(bundle) && AloneSound(bundle, s, Done)
    ensures Completable(bundle, s) && Completed(bundle, s) == s
  {
    PlacedIsCompleted(bundle, s);
    forall p | p in bundle.packages
      ensures !Conflicts(bundle, s, p)
    {
      assert Placed(bundle, s, p);
    }
  }

  /** A run on its own either fails, or ends with the registry completed and
      verified; which of the two is decided by the registry it started from. */
  lemma {:induction false} AloneEnds(bundle: Bundle, s: State, pc: Pc)
    requires Loadable(bundle) && AloneSound(bundle, s, pc)
    ensures var end := RunAlone(bundle, s, pc);
            && (end.1 == Done <==> Completable(bundle, s))
            && Ended(end.1)
            && (end.1 == Done ==> end.0 == Completed(bundle, s))
    decreases Rank(bundle, pc)
  {
    if pc.Done? {
      AloneDone(bundle, s);
    } else if !pc.Failed? {
      var (after, next) := Step(bundle, s, pc);
      AloneAdvances(bundle, s, pc);
      RanksLower(bundle, s, pc);
      AloneEnds(bundle, after, next);
    }
  }

  lemma RanksLower(bundle: Bundle, s: State, pc: Pc)
    requires InRange(bundle, pc) && !Ended(pc)
    ensures Rank(bundle, Step(bundle, s, pc).1) < Rank(bundle, pc)
  {
  }

  /** One complete run from any registry: it succeeds exactly when no package
      conflicts and the entry is available, and then leaves the completed registry. */
  lemma CompleteRun(bundle: Bundle, s: State)
    requires Loadable(bundle)
    ensures var (end, last) := RunAlone(bundle, s, Check(0));
            && (last == Done <==> Completable(bundle, s))
            && (last == Done ==> end == Completed(bundle, s))
  {
    AloneEnds(bundle, s, Check(0));
  }

  // ---- Reruns after interruptions ----

  ghost predicate NoForeign(actions: seq<Action>) {
    forall action :: action in actions ==> !action.Foreign?
  }

  lemma ActionConverges(bundle: Bundle, system: System, action: Action)
    requires Loadable(bundle) && !action.Foreign?
    ensures Completed(bundle, Perform(bundle, system, action).registry) == Completed(bundle, system.registry)
  {
    if action.Advance? && action.run < |system.runs| && InRange(bundle, system.runs[action.run]) {
      StepConverges(bundle, system.registry, system.runs[action.run]);
    }
  }

  /** Interrupted runs, however interleaved, leave the registry headed where it was. */
  lemma {:induction false} InterruptionsConverge(bundle: Bundle, start: State, actions: seq<Action>)
    requires Loadable(bundle) && Behaviour(bundle, start, actions) && NoForeign(actions)
    ensures Completed(bundle, After(bundle, start, actions).registry) == Completed(bundle, start)
  {
    if actions != [] {
      var before, last := actions[..|actions| - 1], actions[|actions| - 1];
      assert forall action :: action in before ==> action in actions;
      InterruptionsConverge(bundle, start, before);
      ActionConverges(bundle, After(bundle, start, before), last);
    }
  }

  /** From any state left by interrupted runs without a conflict, one complete run
      reaches the one final state, and a further run finds nothing to change. */
  lemma RerunsReachOneState(bundle: Bundle, start: State, actions: seq<Action>)
    requires Loadable(bundle) && Behaviour(bundle, start, actions) && NoForeign(actions)
    requires Completable(bundle, After(bundle, start, actions).registry)
    ensures RunAlone(bundle, After(bundle, start, actions).registry, Check(0)) == (Completed(bundle, start), Done)
    ensures RunAlone(bundle, Completed(bundle, start), Check(0)) == (Completed(bundle, start), Done)
  {
    InterruptionsConverge(bundle, start, actions);
    CompleteRun(bundle, After(bundle, start, actions).registry);
    var final := Completed(bundle, start);
    CompletedPlaces(bundle, start);
    PlacedIsCompleted(bundle, final);
    forall p | p in bundle.packages
      ensures !Conflicts(bundle, final, p)
    {
      assert Placed(bundle, final, p);
    }
    CompleteRun(bundle, final);
  }

  // ---- The completed registry, entry by entry ----

  /** A version that the bundle publishes. */
  ghost predicate OfBundle(bundle: Bundle, key: (Name, Version)) {
    exists p :: p in bundle.packages && key == (p.name, bundle.version)
  }

  /** A dist-tag that publishing the bundle moves. */
  ghost predicate MovedTag(bundle: Bundle, key: (Name, Tag)) {
    key == ("@deepseek-ai/dsh", "latest") || exists p :: p in bundle.packages && key == (p.name, bundle.distTag)
  }

  /** Every package of the bundle is published with its integrity, its release dist-tag
      and the entry package's `latest` are at this version, and nothing else changed. */
  lemma CompletedSpelled(bundle: Bundle, s: State)
    requires Loadable(bundle)
    ensures var after := Completed(bundle, s);
            && (forall p :: p in bundle.packages ==>
                  (p.name, bundle.version) in after.published
                  && after.published[(p.name, bundle.version)] == p.integrity)
            && (forall key :: MovedTag(bundle, key) ==> key in after.tags && after.tags[key] == bundle.version)
    ensures var after := Completed(bundle, s);
            && (forall key :: !OfBundle(bundle, key) ==>
                  (key in after.published <==> key in s.published)
                  && (key in s.published ==> after.published[key] == s.published[key]))
            && (forall key :: !MovedTag(bundle, key) ==>
                  (key in after.tags <==> key in s.tags) && (key in s.tags ==> after.tags[key] == s.tags[key]))
  {
    CompletedPlaces(bundle, s);
    forall p | p in bundle.packages
      ensures Placed(bundle, Completed(bundle, s), p)
    {
    }
    forall key
      ensures key in BundleKeys(bundle) <==> OfBundle(bundle, key)
      ensures MovedTag(bundle, key) <==> key in BundleTags(bundle)
    {
    }
  }

  /** A run alone succeeds exactly when no package exists with another integrity, and the
      version of the entry package exists, is of the bundle, or is `latest` already. */
  lemma CompletableSpelled(bundle: Bundle, s: State)
    ensures Completable(bundle, s) <==>
              && (forall p :: p in bundle.packages && (p.name, bundle.version) in s.published ==>
                    s.published[(p.name, bundle.version)] == p.integrity)
              && (|| (exists p :: p in bundle.packages && p.name == "@deepseek-ai/dsh")
                  || ("@deepseek-ai/dsh", bundle.version) in s.published
                  || (("@deepseek-ai/dsh", "latest") in s.tags
                      && s.tags[("@deepseek-ai/dsh", "latest")] == bundle.version))
  {
  }
}
