/** Compiler faces of project configs: `projectFace`, `containingSplitRoot`, and the
    references they judge.

    Paths are absolute and normalized, as sequences of segments. What the JSON files
    say is data: each config lists its resolved reference targets and its resolved
    local `extends` parent. */
module ProjectFaces {
  import opened Options

  type Path = seq<string>

  datatype Face = Host | Client

  datatype Config = Config(references: seq<Path>, parent: Option<Path>)

  /** `packageDirs` are the directories of the workspace manifests. */
  datatype Repo = Repo(root: Path, configs: map<Path, Config>, packageDirs: seq<Path>)

  const HOST_LEAF := "tsconfig.host.json"
  const CLIENT_LEAF := "tsconfig.client.json"
  const HOST_BASE := "tsconfig.base.json"
  const CLIENT_BASE := "tsconfig.base.client.json"

  function Leaf(face: Face): string {
    match face
    case Host => HOST_LEAF
    case Client => CLIENT_LEAF
  }

  // ---- The face of a config ----

  /** The face a config's own path gives it. */
  function NamedFace(root: Path, path: Path): Option<Face> {
    if path != [] && path[|path| - 1] == HOST_LEAF then Some(Host)
    else if path != [] && path[|path| - 1] == CLIENT_LEAF then Some(Client)
    else if path == root + [HOST_BASE] then Some(Host)
    else if path == root + [CLIENT_BASE] then Some(Client)
    else None
  }

  /** The existing config a config extends. */
  function Parent(repo: Repo, path: Path): Option<Path> {
    if path in repo.configs && repo.configs[path].parent.Some? && repo.configs[path].parent.value in repo.configs
    then repo.configs[path].parent
    else None
  }

  function ProjectFace(repo: Repo, path: Path, seen: set<Path>): Option<Face>
    requires path in repo.configs
    decreases repo.configs.Keys - seen
  {
    if NamedFace(repo.root, path).Some? then NamedFace(repo.root, path)
    else if path in seen then None
    else
      match Parent(repo, path)
      case None => None
      case Some(parent) => ProjectFace(repo, parent, seen + {path})
  }

  /** The config `n` steps up the `extends` chain, which may be cyclic. */
  function Ancestor(repo: Repo, path: Path, n: nat): Option<Path>
    decreases n
  {
    if n == 0 then Some(path)
    else
      match Parent(repo, path)
      case None => None
      case Some(parent) => Ancestor(repo, parent, n - 1)
  }

  /** The nearest config up the chain with a face of its own, `n` steps away. */
  ghost predicate NearestNamed(repo: Repo, path: Path, n: nat, face: Face) {
    && Ancestor(repo, path, n).Some?
    && NamedFace(repo.root, Ancestor(repo, path, n).value) == Some(face)
    && forall m :: 0 <= m < n && Ancestor(repo, path, m).Some? ==>
         NamedFace(repo.root, Ancestor(repo, path, m).value).None?
  }

  /** The nodes seen so far have no face and lead, by parents, to each other or to `path`. */
  ghost predicate SeenChain(repo: Repo, path: Path, seen: set<Path>) {
    forall s :: s in seen ==>
      && NamedFace(repo.root, s).None?
      && (Parent(repo, s).Some? ==> Parent(repo, s).value in seen || Parent(repo, s).value == path)
  }

  lemma {:induction false} SeenCycleUnnamed(repo: Repo, path: Path, seen: set<Path>, n: nat)
    requires path in seen && SeenChain(repo, path, seen)
    ensures Ancestor(repo, path, n).Some? ==> NamedFace(repo.root, Ancestor(repo, path, n).value).None?
  {
    UnnamedClosed(repo, path, path, seen, n);
  }

  lemma {:induction false} UnnamedClosed(repo: Repo, path: Path, at: Path, seen: set<Path>, n: nat)
    requires path in seen && SeenChain(repo, path, seen) && at in seen
    ensures Ancestor(repo, at, n).Some? ==> NamedFace(repo.root, Ancestor(repo, at, n).value).None?
    decreases n
  {
    if n > 0 && Parent(repo, at).Some? {
      UnnamedClosed(repo, path, Parent(repo, at).value, seen, n - 1);
    }
  }

  lemma {:induction false} FaceFound(repo: Repo, path: Path, seen: set<Path>) returns (n: nat)
    requires path in repo.configs && ProjectFace(repo, path, seen).Some?
    ensures NearestNamed(repo, path, n, ProjectFace(repo, path, seen).value)
    decreases repo.configs.Keys - seen
  {
    n := 0;
    if NamedFace(repo.root, path).None? {
      var parent := Parent(repo, path).value;
      var rest := FaceFound(repo, parent, seen + {path});
      n := rest + 1;
      forall m | 0 <= m < n && Ancestor(repo, path, m).Some?
        ensures NamedFace(repo.root, Ancestor(repo, path, m).value).None?
      {
        if m > 0 {
          assert Ancestor(repo, path, m) == Ancestor(repo, parent, m - 1);
        }
      }
    }
  }

  lemma {:induction false} FaceAbsent(repo: Repo, path: Path, seen: set<Path>, n: nat)
    requires path in repo.configs && ProjectFace(repo, path, seen).None?
    requires SeenChain(repo, path, seen)
    ensures Ancestor(repo, path, n).Some? ==> NamedFace(repo.root, Ancestor(repo, path, n).value).None?
    decreases repo.configs.Keys - seen
  {
    if path in seen {
      SeenCycleUnnamed(repo, path, seen, n);
    } else if n > 0 && Parent(repo, path).Some? {
      FaceAbsent(repo, Parent(repo, path).value, seen + {path}, n - 1);
    }
  }

  function FaceOf(repo: Repo, path: Path): Option<Face>
    requires path in repo.configs
  {
    ProjectFace(repo, path, {})
  }

  /** On any `extends` chain, cyclic or not, the face is that of the nearest config
      whose path names one, and there is none when no config on the chain does. */
  lemma FaceIsNearestNamed(repo: Repo, path: Path, face: Face)
    requires path in repo.configs
    ensures FaceOf(repo, path) == Some(face) <==> exists n :: NearestNamed(repo, path, n, face)
  {
    if FaceOf(repo, path).Some? {
      var n := FaceFound(repo, path, {});
      forall m | NearestNamed(repo, path, m, face)
        ensures m == n
      {
      }
    } else {
      forall n
        ensures !NearestNamed(repo, path, n, face)
      {
        FaceAbsent(repo, path, {}, n);
      }
    }
  }

  // ---- Split projects ----

  /** Length of the path as a string. */
  function Length(path: Path): nat {
    if path == [] then 0 else |path[0]| + 1 + Length(path[1..])
  }

  predicate IsSplit(repo: Repo, dir: Path) {
    dir + [HOST_LEAF] in repo.configs && dir + [CLIENT_LEAF] in repo.configs
  }

  function InsertByLength(dir: Path, sorted: seq<Path>): (r: seq<Path>)
    ensures forall d :: d in r <==> d == dir || d in sorted
  {
    if sorted == [] || Length(sorted[0]) <= Length(dir) then [dir] + sorted
    else
      assert sorted == [sorted[0]] + sorted[1..];
      [sorted[0]] + InsertByLength(dir, sorted[1..])
  }

  /** The split project directories, longest path first. */
  function SplitRoots(repo: Repo, dirs: seq<Path>): (r: seq<Path>)
    ensures forall d :: d in r <==> d in dirs && IsSplit(repo, d)
  {
    if dirs == [] then []
    else
      var rest := SplitRoots(repo, dirs[1..]);
      assert dirs == [dirs[0]] + dirs[1..];
      if IsSplit(repo, dirs[0]) then InsertByLength(dirs[0], rest) else rest
  }

  /** `relative(root, target)` stays inside the root exactly for its descendants. */
  function FirstContaining(roots: seq<Path>, target: Path): (found: Option<Path>)
    ensures found.Some? ==> found.value in roots && found.value <= target
    ensures found.None? ==> forall r :: r in roots ==> !(r <= target)
  {
    if roots == [] then None
    else if roots[0] <= target then Some(roots[0])
    else
      assert roots == [roots[0]] + roots[1..];
      FirstContaining(roots[1..], target)
  }

  function ContainingSplitRoot(repo: Repo, target: Path): Option<Path> {
    FirstContaining(SplitRoots(repo, repo.packageDirs), target)
  }

  ghost predicate LongestFirst(roots: seq<Path>) {
    forall i, j :: 0 <= i < j < |roots| ==> Length(roots[j]) <= Length(roots[i])
  }

  lemma {:induction false} InsertKeepsLongestFirst(dir: Path, sorted: seq<Path>)
    requires LongestFirst(sorted)
    ensures LongestFirst(InsertByLength(dir, sorted))
  {
    if sorted != [] && Length(sorted[0]) > Length(dir) {
      InsertKeepsLongestFirst(dir, sorted[1..]);
      var rest := InsertByLength(dir, sorted[1..]);
      forall j | 0 <= j < |rest|
        ensures Length(rest[j]) <= Length(sorted[0])
      {
        assert rest[j] == dir || rest[j] in sorted[1..];
      }
    }
  }

  lemma {:induction false} RootsLongestFirst(repo: Repo, dirs: seq<Path>)
    ensures LongestFirst(SplitRoots(repo, dirs))
  {
    if dirs != [] {
      RootsLongestFirst(repo, dirs[1..]);
      InsertKeepsLongestFirst(dirs[0], SplitRoots(repo, dirs[1..]));
    }
  }

  lemma {:induction false} LongerPrefixIsLonger(a: Path, b: Path)
    requires a <= b
    ensures Length(a) <= Length(b) && (Length(a) == Length(b) ==> a == b)
  {
    if a != [] {
      LongerPrefixIsLonger(a[1..], b[1..]);
    }
  }

  lemma {:induction false} FirstContainingLongest(roots: seq<Path>, target: Path, other: Path)
    requires LongestFirst(roots) && other in roots && other <= target
    ensures other <= FirstContaining(roots, target).value
  {
    if roots[0] <= target {
      var i :| 0 <= i < |roots| && roots[i] == other;
      if |other| <= |roots[0]| {
        assert other == target[..|other|] == roots[0][..|other|];
      } else {
        assert roots[0] <= other;
        LongerPrefixIsLonger(roots[0], other);
      }
    } else {
      FirstContainingLongest(roots[1..], target, other);
    }
  }

  /** The containing split root is the innermost split project around the target. */
  lemma ContainingIsInnermost(repo: Repo, target: Path)
    ensures var found := ContainingSplitRoot(repo, target);
            && (found.Some? <==> exists dir :: dir in repo.packageDirs && IsSplit(repo, dir) && dir <= target)
            && (found.Some? ==>
                  && found.value in repo.packageDirs && IsSplit(repo, found.value) && found.value <= target
                  && forall dir :: dir in repo.packageDirs && IsSplit(repo, dir) && dir <= target ==>
                       dir <= found.value)
  {
    var roots := SplitRoots(repo, repo.packageDirs);
    RootsLongestFirst(repo, repo.packageDirs);
    forall dir | dir in repo.packageDirs && IsSplit(repo, dir) && dir <= target
      ensures ContainingSplitRoot(repo, target).Some? && dir <= ContainingSplitRoot(repo, target).value
    {
      assert dir in roots;
      FirstContainingLongest(roots, target, dir);
    }
  }
}
