/** The rule of the compiler-face check in terms of the files alone: which names a
    config, its `extends` chain, and a split project go by, and what a report says. */
module FaceRules {
  import opened Options
  import opened Graphs
  import opened ProjectFaces
  import opened FaceTraversal

  // ---- Faces ----

  /** The path settles the face: a leaf by its name, a base by its place. */
  ghost predicate Settles(root: Path, path: Path, face: Face) {
    match face
    case Host =>
      (path != [] && path[|path| - 1] == "tsconfig.host.json") || path == root + ["tsconfig.base.json"]
    case Client =>
      (path != [] && path[|path| - 1] == "tsconfig.client.json") || path == root + ["tsconfig.base.client.json"]
  }

  ghost predicate SettlesNothing(root: Path, path: Path) {
    forall face :: !Settles(root, path, face)
  }

  ghost predicate ParentIs(repo: Repo, path: Path, parent: Path) {
    path in repo.configs && parent in repo.configs && repo.configs[path].parent == Some(parent)
  }

  /** Each config of the chain extends the next, which exists. */
  ghost predicate Extends(repo: Repo, chain: seq<Path>) {
    forall k, l :: 0 <= k < l < |chain| && l == k + 1 ==> ParentIs(repo, chain[k], chain[l])
  }

  /** The chain ends with the first config that settles a face. */
  ghost predicate Inherits(repo: Repo, path: Path, chain: seq<Path>, face: Face) {
    && chain != [] && chain[0] == path && Extends(repo, chain)
    && Settles(repo.root, chain[|chain| - 1], face)
    && forall k :: 0 <= k < |chain| - 1 ==> SettlesNothing(repo.root, chain[k])
  }

  ghost predicate HasFace(repo: Repo, path: Path, face: Face) {
    exists chain :: Inherits(repo, path, chain, face)
  }

  lemma BasesDiffer(root: Path)
    ensures root + [HOST_BASE] != root + [CLIENT_BASE]
    ensures (root + [HOST_BASE])[|root|] == HOST_BASE && (root + [CLIENT_BASE])[|root|] == CLIENT_BASE
  {
    assert |HOST_BASE| != |CLIENT_BASE|;
    assert (root + [HOST_BASE])[|root|] != (root + [CLIENT_BASE])[|root|];
  }

  lemma NamedFaceSettles(root: Path, path: Path, face: Face)
    ensures NamedFace(root, path) == Some(face) <==> Settles(root, path, face)
  {
    BasesDiffer(root);
    assert HOST_LEAF[9] == 'h' && CLIENT_LEAF[9] == 'c' && HOST_BASE[9] == 'b' && CLIENT_BASE[9] == 'b';
  }

  lemma UnnamedSettlesNothing(root: Path, path: Path)
    ensures NamedFace(root, path).None? <==> SettlesNothing(root, path)
  {
    NamedFaceSettles(root, path, Host);
    NamedFaceSettles(root, path, Client);
  }

  ghost predicate Ascends(repo: Repo, path: Path, chain: seq<Path>) {
    forall k :: 0 <= k < |chain| ==> Ancestor(repo, path, k) == Some(chain[k])
  }

  lemma ExtendsPrepend(repo: Repo, path: Path, rest: seq<Path>)
    requires Extends(repo, rest) && rest != [] && ParentIs(repo, path, rest[0])
    ensures Extends(repo, [path] + rest)
  {
    var chain := [path] + rest;
    forall k, l | 0 <= k < l < |chain| && l == k + 1
      ensures ParentIs(repo, chain[k], chain[l])
    {
      if k > 0 {
        assert chain[k] == rest[k - 1] && chain[l] == rest[l - 1];
      }
    }
  }

  lemma ExtendsTail(repo: Repo, chain: seq<Path>)
    requires Extends(repo, chain) && |chain| > 1
    ensures Extends(repo, chain[1..])
    ensures ParentIs(repo, chain[0], chain[1])
  {
    var rest := chain[1..];
    forall k, l | 0 <= k < l < |rest| && l == k + 1
      ensures ParentIs(repo, rest[k], rest[l])
    {
      assert rest[k] == chain[k + 1] && rest[l] == chain[l + 1];
    }
  }

  lemma {:induction false} AncestorsExtend(repo: Repo, path: Path, n: nat) returns (chain: seq<Path>)
    requires Ancestor(repo, path, n).Some?
    ensures |chain| == n + 1 && chain[0] == path && Extends(repo, chain) && Ascends(repo, path, chain)
    decreases n
  {
    chain := [path];
    if n > 0 {
      var parent := Parent(repo, path).value;
      var rest := AncestorsExtend(repo, parent, n - 1);
      chain := [path] + rest;
      ExtendsPrepend(repo, path, rest);
      forall k | 0 <= k < |chain|
        ensures Ancestor(repo, path, k) == Some(chain[k])
      {
        if k > 0 {
          assert Ancestor(repo, parent, k - 1) == Some(rest[k - 1]);
        }
      }
    }
  }

  lemma {:induction false} ExtendsAscends(repo: Repo, path: Path, chain: seq<Path>)
    requires chain != [] && chain[0] == path && Extends(repo, chain)
    ensures Ascends(repo, path, chain)
    decreases |chain|
  {
    if |chain| > 1 {
      ExtendsTail(repo, chain);
      assert chain[1..][0] == chain[1];
      assert Parent(repo, path) == Some(chain[1]);
      ExtendsAscends(repo, chain[1], chain[1..]);
      forall k | 0 <= k < |chain|
        ensures Ancestor(repo, path, k) == Some(chain[k])
      {
        if k > 0 {
          assert Ancestor(repo, chain[1], k - 1) == Some(chain[1..][k - 1]);
        }
      }
    }
  }

  /** The face of a config, cyclic chains included, is settled by the first config up
      its `extends` chain that is a leaf or a base; it has none where no such config is. */
  lemma FaceIsInherited(repo: Repo, path: Path, face: Face)
    requires path in repo.configs
    ensures FaceOf(repo, path) == Some(face) <==> HasFace(repo, path, face)
  {
    if n :| NearestNamed(repo, path, n, face) {
      NearestIsInherited(repo, path, n, face);
    }
    if chain :| Inherits(repo, path, chain, face) {
      InheritedIsNearest(repo, path, chain, face);
    }
    FaceIsNearestNamed(repo, path, face);
  }

  lemma NearestIsInherited(repo: Repo, path: Path, n: nat, face: Face)
    requires NearestNamed(repo, path, n, face)
    ensures HasFace(repo, path, face)
  {
    var chain := AncestorsExtend(repo, path, n);
    NamedFaceSettles(repo.root, chain[n], face);
    forall k | 0 <= k < n
      ensures SettlesNothing(repo.root, chain[k])
    {
      assert Ancestor(repo, path, k) == Some(chain[k]);
      UnnamedSettlesNothing(repo.root, chain[k]);
    }
    assert Inherits(repo, path, chain, face);
  }

  lemma InheritedIsNearest(repo: Repo, path: Path, chain: seq<Path>, face: Face)
    requires Inherits(repo, path, chain, face)
    ensures NearestNamed(repo, path, |chain| - 1, face)
  {
    ExtendsAscends(repo, path, chain);
    var n := |chain| - 1;
    assert Ancestor(repo, path, n) == Some(chain[n]);
    NamedFaceSettles(repo.root, chain[n], face);
    forall k | 0 <= k < n && Ancestor(repo, path, k).Some?
      ensures NamedFace(repo.root, Ancestor(repo, path, k).value).None?
    {
      assert Ancestor(repo, path, k) == Some(chain[k]);
      UnnamedSettlesNothing(repo.root, chain[k]);
    }
  }

  // ---- Split projects ----

  /** The target lies in a package directory with both leaves. */
  ghost predicate InSplit(repo: Repo, dir: Path, target: Path) {
    && dir in repo.packageDirs && dir <= target
    && dir + ["tsconfig.host.json"] in repo.configs && dir + ["tsconfig.client.json"] in repo.configs
  }

  ghost predicate Innermost(repo: Repo, dir: Path, target: Path) {
    InSplit(repo, dir, target) && forall other :: InSplit(repo, other, target) ==> other <= dir
  }

  lemma ContainingIff(repo: Repo, dir: Path, target: Path)
    ensures ContainingSplitRoot(repo, target) == Some(dir) <==> Innermost(repo, dir, target)
  {
    ContainingIsInnermost(repo, target);
    forall d
      ensures InSplit(repo, d, target) <==> d in repo.packageDirs && IsSplit(repo, d) && d <= target
    {
    }
    if Innermost(repo, dir, target) {
      var found := ContainingSplitRoot(repo, target).value;
      assert InSplit(repo, found, target);
      assert found <= dir && dir <= found;
      SamePrefix(found, dir);
    }
  }

  lemma SamePrefix(a: Path, b: Path)
    requires a <= b && b <= a
    ensures a == b
  {
  }

  // ---- The rule ----

  /** Into a split project a config refers only to the leaf of its own face. */
  ghost predicate Allowed(repo: Repo, config: Path, target: Path) {
    forall dir :: Innermost(repo, dir, target) ==>
      || (HasFace(repo, config, Host) && target == dir + ["tsconfig.host.json"])
      || (HasFace(repo, config, Client) && target == dir + ["tsconfig.client.json"])
  }

  lemma ObeysIff(repo: Repo, config: Path, target: Path)
    requires config in repo.configs
    ensures Obeys(repo, config, target) <==> Allowed(repo, config, target)
  {
    FaceIsInherited(repo, config, Host);
    FaceIsInherited(repo, config, Client);
    forall dir
      ensures ContainingSplitRoot(repo, target) == Some(dir) <==> Innermost(repo, dir, target)
    {
      ContainingIff(repo, dir, target);
    }
  }

  /** A reported edge breaks the rule, and is described by the project it enters and the
      face of its config. */
  lemma VerdictIff(repo: Repo, config: Path, target: Path, v: Violation)
    requires config in repo.configs
    ensures Judge(repo, config, target) == Some(v) <==>
              && !Allowed(repo, config, target)
              && v.config == config && v.target == target && Innermost(repo, v.splitRoot, target)
              && forall face :: v.face == Some(face) <==> HasFace(repo, config, face)
  {
    ObeysIff(repo, config, target);
    ContainingIff(repo, v.splitRoot, target);
    FaceIsInherited(repo, config, Host);
    FaceIsInherited(repo, config, Client);
    if Judge(repo, config, target) == Some(v) {
      forall face
        ensures v.face == Some(face) <==> HasFace(repo, config, face)
      {
        FaceIsInherited(repo, config, face);
      }
    }
    if forall face :: v.face == Some(face) <==> HasFace(repo, config, face) {
      assert v.face == Some(Host) <==> HasFace(repo, config, Host);
      assert v.face == Some(Client) <==> HasFace(repo, config, Client);
      assert v.face == FaceOf(repo, config);
    }
  }

  ghost predicate Refers(repo: Repo, config: Path, target: Path) {
    config in repo.configs && target in repo.configs[config].references
  }

  /** The config is an aggregate of the root, or referred to from one, config by config. */
  ghost predicate FromAggregate(repo: Repo, walk: seq<Path>, config: Path) {
    && walk != [] && walk[|walk| - 1] == config
    && (walk[0] == repo.root + ["tsconfig.host.json"] || walk[0] == repo.root + ["tsconfig.client.json"])
    && forall k, l :: 0 <= k < l < |walk| && l == k + 1 ==>
         Refers(repo, walk[k], walk[l])
  }

  lemma ReachedIff(repo: Repo, config: Path)
    ensures Reachable(AllEdges(repo), Aggregates(repo), config) <==> exists walk :: FromAggregate(repo, walk, config)
  {
    forall walk
      ensures FromAggregate(repo, walk, config) <==>
                Walk(AllEdges(repo), walk) && walk != [] && walk[0] in Aggregates(repo) && walk[|walk| - 1] == config
    {
    }
  }

  ghost predicate LedTo(repo: Repo, config: Path) {
    exists walk :: FromAggregate(repo, walk, config)
  }

  lemma LedToIff(repo: Repo, config: Path)
    ensures LedTo(repo, config) <==> Reachable(AllEdges(repo), Aggregates(repo), config)
  {
    ReachedIff(repo, config);
  }

  ghost predicate AllAllowed(repo: Repo) {
    forall config, target :: LedTo(repo, config) && Refers(repo, config, target) ==> Allowed(repo, config, target)
  }

  lemma AllAllowedIff(repo: Repo)
    ensures AllAllowed(repo) <==> AllReachableObey(repo)
  {
    forall config, target | Refers(repo, config, target)
      ensures LedTo(repo, config) <==> Reachable(AllEdges(repo), Aggregates(repo), config)
      ensures Allowed(repo, config, target) <==> Obeys(repo, config, target)
    {
      LedToIff(repo, config);
      ObeysIff(repo, config, target);
    }
  }

  /** The report is empty exactly when every reference of every config that the two
      aggregates lead to keeps the rule. */
  lemma EmptyReportIff(repo: Repo, order: seq<Path>, violations: seq<Violation>)
    requires ReportsReachable(repo, order, violations)
    ensures violations == [] <==> AllAllowed(repo)
  {
    EmptyIffAllObey(repo, order, violations);
    AllAllowedIff(repo);
  }

  /** Every edge of the walk keeps the rule. */
  ghost predicate KeepsRule(repo: Repo, walk: seq<Path>) {
    forall k, l :: 0 <= k < l < |walk| && l == k + 1 ==> Allowed(repo, walk[k], walk[l])
  }

  lemma FollowedIff(repo: Repo, config: Path)
    requires config in repo.configs
    ensures Followed(repo, config) <==> exists walk :: FromAggregate(repo, walk, config) && KeepsRule(repo, walk)
  {
    forall walk
      ensures FromAggregate(repo, walk, config) && KeepsRule(repo, walk) <==>
                && Walk(PermittedEdges(repo), walk) && walk != [] && walk[0] in Aggregates(repo)
                && walk[|walk| - 1] == config
    {
      forall k, l | 0 <= k < l < |walk| && l == k + 1
        ensures walk[l] in Next(PermittedEdges(repo), walk[k]) <==>
                  Refers(repo, walk[k], walk[l]) && Allowed(repo, walk[k], walk[l])
      {
        PermittedIff(repo, walk[k], walk[l]);
      }
    }
  }

  lemma PermittedIff(repo: Repo, config: Path, target: Path)
    ensures target in Next(PermittedEdges(repo), config) <==>
              Refers(repo, config, target) && Allowed(repo, config, target)
  {
    if config in repo.configs {
      PermittedMembers(repo, config, repo.configs[config].references, target);
      ObeysIff(repo, config, target);
    }
  }

  /** A reference that breaks the rule, of a config that the aggregates lead to by
      references that keep it, with the project it enters and the face of its config. */
  ghost predicate Deserves(repo: Repo, v: Violation) {
    && (exists walk :: FromAggregate(repo, walk, v.config) && KeepsRule(repo, walk))
    && Refers(repo, v.config, v.target) && !Allowed(repo, v.config, v.target)
    && Innermost(repo, v.splitRoot, v.target)
    && forall face :: v.face == Some(face) <==> HasFace(repo, v.config, face)
  }

  lemma EarnsIff(repo: Repo, v: Violation)
    ensures Earns(repo, v.config, v.target, v) <==> Deserves(repo, v)
  {
    if v.config in repo.configs {
      FollowedIff(repo, v.config);
      VerdictIff(repo, v.config, v.target, v);
    }
  }

  /** The report holds exactly the violations that deserve it. */
  lemma ReportedIff(repo: Repo, order: seq<Path>, violations: seq<Violation>, v: Violation)
    requires ReportsReachable(repo, order, violations)
    ensures v in violations <==> Deserves(repo, v)
  {
    ReportIsEarned(repo, order, violations, v);
    EarnsIff(repo, v);
    if c, t :| Earns(repo, c, t, v) {
      VerdictIff(repo, c, t, v);
    }
  }

  // ---- An input ----

  const LIBRARY: Path := ["r", "lib", "tsconfig.json"]
  const SPLIT: Path := ["r", "split"]

  /** The host aggregate refers to a library that extends the host base and refers to a
      host leaf. */
  function HostRepo(): Repo {
    Repo(["r"],
         map[["r", "tsconfig.host.json"] := Config([LIBRARY], None),
             LIBRARY := Config([SPLIT + ["tsconfig.host.json"]], Some(["r", "tsconfig.base.json"])),
             ["r", "tsconfig.base.json"] := Config([], None),
             SPLIT + ["tsconfig.host.json"] := Config([], None),
             SPLIT + ["tsconfig.client.json"] := Config([], None)],
         [SPLIT])
  }

  lemma LibraryIsHost()
    ensures HasFace(HostRepo(), LIBRARY, Host)
  {
    var chain := [LIBRARY, ["r", "tsconfig.base.json"]];
    assert |LIBRARY| == 3 && LIBRARY[2] == "tsconfig.json";
    assert Inherits(HostRepo(), LIBRARY, chain, Host);
  }

  lemma OnlySplit(dir: Path, target: Path)
    requires Innermost(HostRepo(), dir, target)
    ensures dir == SPLIT && SPLIT <= target
  {
  }

  /** A library that extends the host base may refer to a host leaf: nothing is reported. */
  lemma HostBaseObeys(order: seq<Path>, violations: seq<Violation>)
    requires ReportsReachable(HostRepo(), order, violations)
    ensures violations == []
  {
    var repo := HostRepo();
    forall config, target | LedTo(repo, config) && Refers(repo, config, target)
      ensures Allowed(repo, config, target)
    {
      forall dir | Innermost(repo, dir, target)
        ensures HasFace(repo, config, Host) && target == dir + ["tsconfig.host.json"]
      {
        OnlySplit(dir, target);
        LibraryIsHost();
        assert LIBRARY[1] != SPLIT[1];
        assert config == LIBRARY;
      }
    }
    EmptyReportIff(repo, order, violations);
  }
}
