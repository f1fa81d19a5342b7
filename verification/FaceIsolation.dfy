/** What the traversal's report says about each aggregate on its own. The rule is
    judged by the face of the config that holds a reference, while the documentation
    promises the leaf of the aggregate from which the traversal began. */
module FaceIsolation {
  import opened Options
  import opened Graphs
  import opened ProjectFaces
  import opened FaceTraversal

  function Aggregate(repo: Repo, face: Face): Path {
    repo.root + [Leaf(face)]
  }

  /** A reference of a config reachable from the aggregate enters a split project. */
  ghost predicate Enters(repo: Repo, face: Face, config: Path, target: Path, splitRoot: Path) {
    && config in repo.configs && Reachable(AllEdges(repo), [Aggregate(repo, face)], config)
    && target in repo.configs[config].references && ContainingSplitRoot(repo, target) == Some(splitRoot)
  }

  /** Every reference reachable from an aggregate that enters a split project names
      the leaf of that aggregate. */
  ghost predicate Isolated(repo: Repo) {
    forall face, c, t, splitRoot :: Enters(repo, face, c, t, splitRoot) ==> t == splitRoot + [Leaf(face)]
  }

  /** Every config reachable from an aggregate with a reference into a split project
      has that aggregate's face. */
  ghost predicate KeepsFace(repo: Repo) {
    forall face, c, t, splitRoot :: Enters(repo, face, c, t, splitRoot) ==> FaceOf(repo, c) == Some(face)
  }

  lemma FromAnAggregate(repo: Repo, face: Face, config: Path)
    requires Reachable(AllEdges(repo), [Aggregate(repo, face)], config)
    ensures Reachable(AllEdges(repo), Aggregates(repo), config)
  {
    var walk :| Walk(AllEdges(repo), walk) && walk != [] && walk[0] in [Aggregate(repo, face)]
                && walk[|walk| - 1] == config;
    assert walk[0] in Aggregates(repo);
  }

  lemma EntersByFace(repo: Repo, face: Face, config: Path, target: Path, splitRoot: Path)
    requires AllReachableObey(repo) && Enters(repo, face, config, target, splitRoot)
    ensures FaceOf(repo, config).Some? && target == splitRoot + [Leaf(FaceOf(repo, config).value)]
  {
    FromAnAggregate(repo, face, config);
    assert Obeys(repo, config, target);
  }

  lemma LeavesDiffer(splitRoot: Path, a: Face, b: Face)
    ensures splitRoot + [Leaf(a)] == splitRoot + [Leaf(b)] <==> a == b
  {
    assert (splitRoot + [Leaf(a)])[|splitRoot|] == Leaf(a);
    assert (splitRoot + [Leaf(b)])[|splitRoot|] == Leaf(b);
    assert HOST_LEAF[9] != CLIENT_LEAF[9];
  }

  /** With an empty report, each aggregate is isolated exactly when every config it
      reaches that refers into a split project has its face. */
  lemma IsolatedIff(repo: Repo, order: seq<Path>)
    requires ReportsReachable(repo, order, [])
    ensures Isolated(repo) <==> KeepsFace(repo)
  {
    EmptyIffAllObey(repo, order, []);
    forall face, c, t, splitRoot | Enters(repo, face, c, t, splitRoot)
      ensures t == splitRoot + [Leaf(face)] <==> FaceOf(repo, c) == Some(face)
    {
      EntersByFace(repo, face, c, t, splitRoot);
      LeavesDiffer(splitRoot, face, FaceOf(repo, c).value);
    }
  }

  // ---- A report that misses a mixed aggregate ----

  const SHARED: Path := ["r", "shared", "tsconfig.json"]
  const SPLIT: Path := ["r", "split"]

  /** The host aggregate refers to a config that extends the client base and refers
      to a client leaf. */
  function MixedRepo(): Repo {
    Repo(["r"],
         map[["r", HOST_LEAF] := Config([SHARED], None),
             SHARED := Config([SPLIT + [CLIENT_LEAF]], Some(["r", CLIENT_BASE])),
             ["r", CLIENT_BASE] := Config([], None),
             SPLIT + [HOST_LEAF] := Config([], None),
             SPLIT + [CLIENT_LEAF] := Config([], None)],
         [SPLIT])
  }

  lemma MixedFaces()
    ensures SHARED in MixedRepo().configs && FaceOf(MixedRepo(), SHARED) == Some(Client)
    ensures ContainingSplitRoot(MixedRepo(), SHARED) == None
    ensures ContainingSplitRoot(MixedRepo(), SPLIT + [CLIENT_LEAF]) == Some(SPLIT)
  {
    var repo := MixedRepo();
    assert SHARED[2] != HOST_LEAF && SHARED[2] != CLIENT_LEAF && |SHARED| == 3;
    assert NamedFace(repo.root, SHARED) == None;
    assert Parent(repo, SHARED) == Some(["r", CLIENT_BASE]);
    assert SplitRoots(repo, []) == [];
    assert SplitRoots(repo, [SPLIT]) == [SPLIT];
    assert SHARED[1] != SPLIT[1];
  }

  lemma MixedObeys(config: Path, target: Path)
    requires config in MixedRepo().configs && target in MixedRepo().configs[config].references
    ensures Obeys(MixedRepo(), config, target)
  {
    MixedFaces();
    if config == SHARED {
      assert target == SPLIT + [CLIENT_LEAF];
    } else {
      assert target == SHARED;
    }
  }

  lemma ReferredIsReached(repo: Repo, face: Face, config: Path)
    requires Aggregate(repo, face) in repo.configs && config in repo.configs[Aggregate(repo, face)].references
    ensures Reachable(AllEdges(repo), [Aggregate(repo, face)], config)
  {
    StartReachable(AllEdges(repo), [Aggregate(repo, face)], Aggregate(repo, face));
    StepReachable(AllEdges(repo), [Aggregate(repo, face)], Aggregate(repo, face), config);
  }

  lemma MixedIsReached()
    ensures Enters(MixedRepo(), Host, SHARED, SPLIT + [CLIENT_LEAF], SPLIT)
  {
    MixedFaces();
    assert Aggregate(MixedRepo(), Host) == ["r", HOST_LEAF];
    ReferredIsReached(MixedRepo(), Host, SHARED);
  }

  /** Nothing is reported, although a config reached from the host aggregate refers
      to a client leaf. */
  lemma MixedIsUnreported()
    ensures AllReachableObey(MixedRepo()) && !Isolated(MixedRepo())
  {
    forall c, t | c in MixedRepo().configs && t in MixedRepo().configs[c].references
      ensures Obeys(MixedRepo(), c, t)
    {
      MixedObeys(c, t);
    }
    MixedIsReached();
    LeavesDiffer(SPLIT, Client, Host);
  }
}
