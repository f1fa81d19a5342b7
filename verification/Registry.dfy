/** The npm registry and a release bundle, as `publish-npm-baseline` sees them. */
module Registry {
  import opened Options

  type Name = string
  type Version = string
  type Tag = string
  type Integrity = string

  const RELEASE_ENTRY_PACKAGE: Name := "@deepseek-ai/dsh"
  const LATEST_DIST_TAG: Tag := "latest"

  datatype Package = Package(name: string, integrity: string)

  datatype Bundle = Bundle(version: string, distTag: string, packages: seq<Package>)

  /** What `ReleaseBundle.load` insists on: some packages, no name twice. */
  ghost predicate Loadable(bundle: Bundle) {
    && bundle.packages != []
    && forall i, j :: 0 <= i < j < |bundle.packages| ==> bundle.packages[i].name != bundle.packages[j].name
  }

  /** `load` itself: the duplicate scan over a growing set of names. */
  method CheckManifest(packages: seq<Package>) returns (ok: bool)
    ensures forall version, tag :: ok <==> Loadable(Bundle(version, tag, packages))
  {
    if |packages| == 0 {
      return false;
    }
    var names: set<Name> := {};
    for i := 0 to |packages|
      invariant names == set p | p in packages[..i] :: p.name
      invariant forall a, b :: 0 <= a < b < i ==> packages[a].name != packages[b].name
    {
      if packages[i].name in names {
        var a :| 0 <= a < i && packages[..i][a].name == packages[i].name;
        assert packages[a].name == packages[i].name;
        return false;
      }
      names := names + {packages[i].name};
    }
    return true;
  }

  datatype State = State(published: map<(Name, Version), Integrity>, tags: map<(Name, Tag), Version>)

  predicate Points(s: State, name: Name, tag: Tag, version: Version) {
    (name, tag) in s.tags && s.tags[(name, tag)] == version
  }

  /** `npm publish --tag=t`: refused for a version that exists; sets only tag `t`. */
  function NpmPublish(s: State, name: Name, version: Version, integrity: Integrity, tag: Tag): Option<State> {
    if (name, version) in s.published then None
    else Some(State(s.published[(name, version) := integrity], s.tags[(name, tag) := version]))
  }

  /** `npm dist-tag add`: refused for a version that does not exist. */
  function NpmDistTagAdd(s: State, name: Name, version: Version, tag: Tag): Option<State> {
    if (name, version) !in s.published then None
    else Some(s.(tags := s.tags[(name, tag) := version]))
  }

  ghost predicate Placed(bundle: Bundle, s: State, package: Package) {
    && (package.name, bundle.version) in s.published
    && s.published[(package.name, bundle.version)] == package.integrity
    && Points(s, package.name, bundle.distTag, bundle.version)
  }

  ghost predicate AllPlaced(bundle: Bundle, s: State) {
    forall package :: package in bundle.packages ==> Placed(bundle, s, package)
  }

  predicate Conflicts(bundle: Bundle, s: State, package: Package) {
    (package.name, bundle.version) in s.published && s.published[(package.name, bundle.version)] != package.integrity
  }

  ghost predicate NoConflict(bundle: Bundle, s: State) {
    forall package :: package in bundle.packages ==> !Conflicts(bundle, s, package)
  }

  ghost predicate LatestIsThis(bundle: Bundle, s: State) {
    Points(s, RELEASE_ENTRY_PACKAGE, LATEST_DIST_TAG, bundle.version)
  }
}
