/** `topoSort` itself, and what its order means for the dependency graph. */
module TopoSort {
  import opened Options
  import opened PackageGraph

  function Put(unique: seq<Package>, package: Package): seq<Package> {
    if unique == [] then [package]
    else if unique[0].short == package.short then [package] + unique[1..]
    else [unique[0]] + Put(unique[1..], package)
  }

  /** `new Map(packages.map(pkg => [pkg.short, pkg]))`: a repeated name keeps its
      first position and its last package. */
  function ByShort(packages: seq<Package>): seq<Package> {
    if packages == [] then [] else Put(ByShort(packages[..|packages| - 1]), packages[|packages| - 1])
  }

  lemma {:induction false} PutUnique(unique: seq<Package>, package: Package)
    requires UniqueShorts(unique)
    ensures UniqueShorts(Put(unique, package))
    ensures Names(Put(unique, package)) == Names(unique) + {package.short}
  {
    if unique != [] && unique[0].short != package.short {
      PutUnique(unique[1..], package);
      assert Put(unique, package)[1..] == Put(unique[1..], package);
    }
  }

  lemma {:induction false} ByShortUnique(packages: seq<Package>)
    ensures UniqueShorts(ByShort(packages))
  {
    if packages != [] {
      ByShortUnique(packages[..|packages| - 1]);
      PutUnique(ByShort(packages[..|packages| - 1]), packages[|packages| - 1]);
    }
  }

  lemma {:induction false} PutFresh(unique: seq<Package>, package: Package)
    requires package.short !in Names(unique)
    ensures Put(unique, package) == unique + [package]
  {
    if unique != [] {
      PutFresh(unique[1..], package);
    }
  }

  lemma {:induction false} PrefixUnique(packages: seq<Package>, k: nat)
    requires UniqueShorts(packages) && k <= |packages|
    ensures UniqueShorts(packages[..k]) && Names(packages[..k]) !! Names(packages[k..])
  {
    if k > 0 {
      PrefixUnique(packages[1..], k - 1);
      assert packages[..k][1..] == packages[1..][..k - 1];
      assert packages[1..][k - 1..] == packages[k..];
      NamesConcat(packages[1..][..k - 1], packages[k..]);
      assert packages[1..][..k - 1] + packages[k..] == packages[1..];
    }
  }

  lemma {:induction false} NamesConcat(a: seq<Package>, b: seq<Package>)
    ensures Names(a + b) == Names(a) + Names(b)
  {
    if a == [] {
      assert a + b == b;
    } else {
      NamesConcat(a[1..], b);
      assert (a + b)[1..] == a[1..] + b;
    }
  }

  lemma {:induction false} UniqueStays(packages: seq<Package>)
    requires UniqueShorts(packages)
    ensures ByShort(packages) == packages
  {
    if packages != [] {
      var k := |packages| - 1;
      PrefixUnique(packages, k);
      assert packages[k..] == [packages[k]];
      UniqueStays(packages[..k]);
      PutFresh(packages[..k], packages[k]);
    }
  }

  /** The packages sorted are the ones given exactly when no name is given twice. */
  lemma ByShortKeepsUnique(packages: seq<Package>)
    ensures ByShort(packages) == packages <==> UniqueShorts(packages)
  {
    ByShortUnique(packages);
    if UniqueShorts(packages) {
      UniqueStays(packages);
    }
  }

  // ---- Layers: a package is in layer `k` when its dependencies are in the layers before ----

  predicate DepsIn(package: Package, placed: set<string>) {
    forall dep :: dep in package.deps ==> dep in placed
  }

  /** Packages placed after `k` rounds. */
  function Placed(packages: seq<Package>, k: nat): set<string> {
    if k == 0 then {} else set p | p in packages && DepsIn(p, Placed(packages, k - 1)) :: p.short
  }

  ghost predicate WellFounded(packages: seq<Package>, short: string) {
    exists k :: short in Placed(packages, k)
  }

  /** The layer a package belongs to: its dependency depth. */
  ghost predicate HasDepth(packages: seq<Package>, short: string, depth: nat) {
    short in Placed(packages, depth + 1) && short !in Placed(packages, depth)
  }

  lemma {:induction false} PlacedGrows(packages: seq<Package>, k: nat, m: nat)
    requires k <= m
    ensures Placed(packages, k) <= Placed(packages, m)
  {
    if k > 0 {
      PlacedGrows(packages, k - 1, m - 1);
    }
  }

  lemma {:induction false} DepthExists(packages: seq<Package>, short: string, k: nat) returns (depth: nat)
    requires short in Placed(packages, k)
    ensures HasDepth(packages, short, depth) && depth < k
  {
    if short in Placed(packages, k - 1) {
      depth := DepthExists(packages, short, k - 1);
    } else {
      depth := k - 1;
    }
  }

  lemma DepthUnique(packages: seq<Package>, short: string, a: nat, b: nat)
    requires HasDepth(packages, short, a) && HasDepth(packages, short, b)
    ensures a == b
  {
    if a < b {
      PlacedGrows(packages, a + 1, b);
    } else if b < a {
      PlacedGrows(packages, b + 1, a);
    }
  }

  lemma {:induction false} PlacedFixpoint(packages: seq<Package>, k: nat, m: nat)
    requires Placed(packages, k + 1) == Placed(packages, k) && k <= m
    ensures Placed(packages, m) == Placed(packages, k)
  {
    if k < m {
      PlacedFixpoint(packages, k, m - 1);
      assert Placed(packages, m) == Placed(packages, k + 1);
    }
  }

  /** The specified order: by depth, then by display order. */
  ghost predicate LayerOrder(packages: seq<Package>, groupOrder: seq<string>, less: (string, string) -> bool,
                             a: Package, b: Package)
  {
    exists depthA, depthB ::
      && HasDepth(packages, a.short, depthA) && HasDepth(packages, b.short, depthB)
      && (depthA < depthB || (depthA == depthB && ComesBefore(groupOrder, less, a, b)))
  }

  ghost predicate InLayerOrder(packages: seq<Package>, groupOrder: seq<string>, less: (string, string) -> bool,
                               out: seq<Package>)
  {
    forall i, j :: 0 <= i < j < |out| ==> LayerOrder(packages, groupOrder, less, out[i], out[j])
  }

  // ---- The loop ----

  function Unplaced(packages: seq<Package>, placed: set<string>): seq<Package> {
    if packages == [] then []
    else if packages[0].short in placed then Unplaced(packages[1..], placed)
    else [packages[0]] + Unplaced(packages[1..], placed)
  }

  function Ready(remaining: seq<Package>, placed: set<string>): seq<Package> {
    if remaining == [] then []
    else if DepsIn(remaining[0], placed) then [remaining[0]] + Ready(remaining[1..], placed)
    else Ready(remaining[1..], placed)
  }

  lemma {:induction false} UnplacedMembers(packages: seq<Package>, placed: set<string>, p: Package)
    ensures p in Unplaced(packages, placed) <==> p in packages && p.short !in placed
  {
    if packages != [] {
      UnplacedMembers(packages[1..], placed, p);
    }
  }

  lemma {:induction false} UnplacedUnique(packages: seq<Package>, placed: set<string>)
    ensures Names(Unplaced(packages, placed)) == Names(packages) - placed
    ensures UniqueShorts(packages) ==> UniqueShorts(Unplaced(packages, placed))
  {
    if packages != [] {
      UnplacedUnique(packages[1..], placed);
      if packages[0].short !in placed {
        assert Unplaced(packages, placed)[1..] == Unplaced(packages[1..], placed);
      }
    }
  }

  lemma {:induction false} ReadyMembers(remaining: seq<Package>, placed: set<string>, p: Package)
    ensures p in Ready(remaining, placed) <==> p in remaining && DepsIn(p, placed)
  {
    if remaining != [] {
      ReadyMembers(remaining[1..], placed, p);
    }
  }

  lemma {:induction false} ReadyUnique(remaining: seq<Package>, placed: set<string>)
    ensures Names(Ready(remaining, placed)) <= Names(remaining)
    ensures UniqueShorts(remaining) ==> UniqueShorts(Ready(remaining, placed))
  {
    if remaining != [] {
      ReadyUnique(remaining[1..], placed);
      if DepsIn(remaining[0], placed) {
        assert Ready(remaining, placed)[1..] == Ready(remaining[1..], placed);
      }
    }
  }

  lemma {:induction false} UnplacedTwice(packages: seq<Package>, a: set<string>, b: set<string>)
    ensures Unplaced(Unplaced(packages, a), b) == Unplaced(packages, a + b)
  {
    if packages != [] {
      UnplacedTwice(packages[1..], a, b);
    }
  }

  lemma {:induction false} UnplacedDisjoint(packages: seq<Package>, placed: set<string>)
    requires placed !! Names(packages)
    ensures Unplaced(packages, placed) == packages
  {
    if packages != [] {
      UnplacedDisjoint(packages[1..], placed);
    }
  }

  /** Removing the one package of a name takes exactly it away. */
  lemma {:induction false} UnplacedOne(packages: seq<Package>, package: Package)
    requires UniqueShorts(packages) && package in packages
    ensures multiset(Unplaced(packages, {package.short})) + multiset{package} == multiset(packages)
    ensures |Unplaced(packages, {package.short})| + 1 == |packages|
  {
    assert packages == [packages[0]] + packages[1..];
    if packages[0] == package {
      UnplacedDisjoint(packages[1..], {package.short});
    } else {
      UnplacedOne(packages[1..], package);
      PackageHasName(packages[1..], package);
    }
  }

  // ---- Where the loop stands after `k` rounds ----

  /** Everything placed so far is the first `k` layers in the specified order. */
  ghost predicate LayersOut(packages: seq<Package>, groupOrder: seq<string>, less: (string, string) -> bool,
                            out: seq<Package>, k: nat)
  {
    && InLayerOrder(packages, groupOrder, less, out)
    && forall p :: p in out ==> p in packages && p.short in Placed(packages, k)
  }

  /** The ready packages are the next layer. */
  lemma ReadyIsNextLayer(packages: seq<Package>, placed: set<string>, k: nat)
    requires placed == Placed(packages, k)
    ensures var ready := Ready(Unplaced(packages, placed), placed);
            && (forall p :: p in ready ==> p in packages && HasDepth(packages, p.short, k))
            && Placed(packages, k + 1) == placed + Names(ready)
  {
    var ready := Ready(Unplaced(packages, placed), placed);
    PlacedGrows(packages, k, k + 1);
    forall p
      ensures p in ready <==> p in packages && p.short !in placed && DepsIn(p, placed)
    {
      ReadyMembers(Unplaced(packages, placed), placed, p);
      UnplacedMembers(packages, placed, p);
    }
    forall short | short in Placed(packages, k + 1) && short !in placed
      ensures short in Names(ready)
    {
      var p :| p in packages && DepsIn(p, placed) && p.short == short;
      PackageHasName(ready, p);
    }
    forall short | short in Names(ready)
      ensures short in Placed(packages, k + 1)
    {
      var p := NameHasPackage(ready, short);
    }
  }

  lemma LayersAppend(packages: seq<Package>, groupOrder: seq<string>, less: (string, string) -> bool,
                     out: seq<Package>, layer: seq<Package>, k: nat)
    requires LayersOut(packages, groupOrder, less, out, k)
    requires Ascending(groupOrder, less, layer)
    requires forall p :: p in layer ==> p in packages && HasDepth(packages, p.short, k)
    ensures LayersOut(packages, groupOrder, less, out + layer, k + 1)
  {
    var longer := out + layer;
    PlacedGrows(packages, k, k + 1);
    forall i, j | 0 <= i < j < |longer|
      ensures LayerOrder(packages, groupOrder, less, longer[i], longer[j])
    {
      if j < |out| {
        assert LayerOrder(packages, groupOrder, less, out[i], out[j]);
      } else if i < |out| {
        assert out[i] in out && layer[j - |out|] in layer;
        var depth := DepthExists(packages, out[i].short, k);
      } else {
        assert layer[i - |out|] in layer && layer[j - |out|] in layer;
        assert ComesBefore(groupOrder, less, layer[i - |out|], layer[j - |out|]);
      }
    }
  }

  lemma StuckRemainder(packages: seq<Package>, k: nat)
    requires Placed(packages, k + 1) == Placed(packages, k)
    ensures forall short :: WellFounded(packages, short) <==> short in Placed(packages, k)
  {
    forall short | WellFounded(packages, short)
      ensures short in Placed(packages, k)
    {
      var m :| short in Placed(packages, m);
      PlacedGrows(packages, m, k + m);
      PlacedFixpoint(packages, k, k + m);
    }
  }

  /** Deleting a layer's names takes exactly the layer away. */
  lemma {:induction false} LayerRemoved(remaining: seq<Package>, layer: seq<Package>)
    requires UniqueShorts(remaining) && UniqueShorts(layer) && forall p :: p in layer ==> p in remaining
    ensures multiset(Unplaced(remaining, Names(layer))) + multiset(layer) == multiset(remaining)
    ensures |Unplaced(remaining, Names(layer))| + |layer| == |remaining|
    decreases |layer|
  {
    if layer == [] {
      UnplacedDisjoint(remaining, {});
    } else {
      var first, rest := layer[0], layer[1..];
      assert layer == [first] + rest;
      UnplacedOne(remaining, first);
      UnplacedTwice(remaining, {first.short}, Names(rest));
      UnplacedUnique(remaining, {first.short});
      forall p | p in rest
        ensures p in Unplaced(remaining, {first.short})
      {
        PackageHasName(rest, p);
        UnplacedMembers(remaining, {first.short}, p);
      }
      LayerRemoved(Unplaced(remaining, {first.short}), rest);
    }
  }

  /** Place a sorted layer: append it, record its names, delete it from the rest. */
  method PlaceLayer(ready: seq<Package>, remaining0: seq<Package>, placed0: set<string>, out0: seq<Package>)
    returns (remaining: seq<Package>, placed: set<string>, out: seq<Package>)
    ensures out == out0 + ready
    ensures placed == placed0 + Names(ready)
    ensures remaining == Unplaced(remaining0, Names(ready))
  {
    remaining, placed, out := remaining0, placed0, out0;
    UnplacedDisjoint(remaining0, {});
    for i := 0 to |ready|
      invariant out == out0 + ready[..i]
      invariant placed == placed0 + Names(ready[..i])
      invariant remaining == Unplaced(remaining0, Names(ready[..i]))
    {
      NamesConcat(ready[..i], [ready[i]]);
      UnplacedTwice(remaining0, Names(ready[..i]), {ready[i].short});
      assert ready[..i + 1] == ready[..i] + [ready[i]];
      assert Names(ready[..i + 1]) == Names(ready[..i]) + {ready[i].short};
      out := out + [ready[i]];
      placed := placed + {ready[i].short};
      remaining := Unplaced(remaining, {ready[i].short});
    }
    assert ready[..|ready|] == ready;
  }

  /** Where the loop stands after `k` rounds. */
  ghost predicate Round(packages: seq<Package>, groupOrder: seq<string>, less: (string, string) -> bool,
                        remaining: seq<Package>, placed: set<string>, out: seq<Package>, k: nat)
  {
    && placed == Placed(packages, k)
    && remaining == Unplaced(packages, placed)
    && LayersOut(packages, groupOrder, less, out, k)
    && multiset(out) + multiset(remaining) == multiset(packages)
  }

  lemma NextLayer(packages: seq<Package>, groupOrder: seq<string>, less: (string, string) -> bool,
                  placed: set<string>, k: nat, ready: seq<Package>)
    requires StrictTotal(less) && UniqueShorts(packages) && placed == Placed(packages, k)
    requires ready == Sort(groupOrder, less, Ready(Unplaced(packages, placed), placed))
    ensures Ascending(groupOrder, less, ready) && UniqueShorts(ready)
    ensures forall p :: p in ready ==>
              p in packages && HasDepth(packages, p.short, k) && p in Unplaced(packages, placed)
    ensures Placed(packages, k + 1) == placed + Names(ready)
  {
    var remaining := Unplaced(packages, placed);
    var layer := Ready(remaining, placed);
    ReadyIsNextLayer(packages, placed, k);
    UnplacedUnique(packages, placed);
    ReadyUnique(remaining, placed);
    SortAscends(groupOrder, less, layer);
    SameElements(ready, layer);
    forall p | p in layer
      ensures p in remaining
    {
      ReadyMembers(remaining, placed, p);
    }
  }

  lemma NextRound(packages: seq<Package>, groupOrder: seq<string>, less: (string, string) -> bool,
                  remaining: seq<Package>, placed: set<string>, out: seq<Package>, k: nat, ready: seq<Package>)
    requires UniqueShorts(packages)
    requires Round(packages, groupOrder, less, remaining, placed, out, k)
    requires Ascending(groupOrder, less, ready) && UniqueShorts(ready)
    requires forall p :: p in ready ==> p in packages && HasDepth(packages, p.short, k) && p in remaining
    requires Placed(packages, k + 1) == placed + Names(ready)
    ensures Round(packages, groupOrder, less, Unplaced(remaining, Names(ready)), placed + Names(ready),
                  out + ready, k + 1)
    ensures |Unplaced(remaining, Names(ready))| + |ready| == |remaining|
  {
    LayersAppend(packages, groupOrder, less, out, ready, k);
    UnplacedTwice(packages, placed, Names(ready));
    UnplacedUnique(packages, placed);
    LayerRemoved(remaining, ready);
  }

  /** The packages come out layer by layer; the packages that are not well-founded,
      if any, are the error. */
  method TopoSort(input: seq<Package>, groupOrder: seq<string>, less: (string, string) -> bool)
    returns (r: Result<seq<Package>, seq<string>>)
    requires StrictTotal(less)
    ensures r.Ok? <==> AllWellFounded(ByShort(input))
    ensures r.Ok? ==> Specified(ByShort(input), groupOrder, less, r.value)
    ensures r.Err? ==> forall short :: short in r.error <==>
              exists p :: p in ByShort(input) && p.short == short && !WellFounded(ByShort(input), short)
    ensures UniqueShorts(input) ==>
              (r.Ok? <==> AllWellFounded(input)) && (r.Ok? ==> Specified(input, groupOrder, less, r.value))
  {
    var packages := ByShort(input);
    ByShortUnique(input);
    ByShortKeepsUnique(input);
    var remaining := packages;
    var placed: set<string> := {};
    var out: seq<Package> := [];
    ghost var k := 0;
    UnplacedDisjoint(packages, {});
    while |remaining| > 0
      invariant Round(packages, groupOrder, less, remaining, placed, out, k)
      decreases |remaining|
    {
      var ready := Sort(groupOrder, less, Ready(remaining, placed));
      NextLayer(packages, groupOrder, less, placed, k, ready);
      if |ready| == 0 {
        Stuck(packages, placed, k);
        return Err(ShortsOf(remaining));
      }
      NextRound(packages, groupOrder, less, remaining, placed, out, k, ready);
      remaining, placed, out := PlaceLayer(ready, remaining, placed, out);
      k := k + 1;
    }
    AllPlacedWellFounded(packages, out, k);
    return Ok(out);
  }

  ghost predicate AllWellFounded(packages: seq<Package>) {
    forall p :: p in packages ==> WellFounded(packages, p.short)
  }

  /** Exactly the packages, by depth and then display order. */
  ghost predicate Specified(packages: seq<Package>, groupOrder: seq<string>, less: (string, string) -> bool,
                            out: seq<Package>)
  {
    multiset(out) == multiset(packages) && InLayerOrder(packages, groupOrder, less, out)
  }

  lemma Stuck(packages: seq<Package>, placed: set<string>, k: nat)
    requires UniqueShorts(packages) && placed == Placed(packages, k) && Placed(packages, k + 1) == placed
    requires Unplaced(packages, placed) != []
    ensures !AllWellFounded(packages)
    ensures forall short :: short in ShortsOf(Unplaced(packages, placed)) <==>
              exists p :: p in packages && p.short == short && !WellFounded(packages, short)
  {
    StuckRemainder(packages, k);
    RemainderNames(packages, placed);
  }

  lemma RemainderNames(packages: seq<Package>, placed: set<string>)
    requires UniqueShorts(packages) && Unplaced(packages, placed) != []
    ensures forall short :: short in ShortsOf(Unplaced(packages, placed)) <==>
              exists p :: p in packages && p.short == short && short !in placed
    ensures exists p :: p in packages && p.short !in placed
  {
    forall p
      ensures p in Unplaced(packages, placed) <==> p in packages && p.short !in placed
    {
      UnplacedMembers(packages, placed, p);
    }
    assert Unplaced(packages, placed)[0] in Unplaced(packages, placed);
  }

  lemma AllPlacedWellFounded(packages: seq<Package>, out: seq<Package>, k: nat)
    requires multiset(out) == multiset(packages)
    requires forall p :: p in out ==> p.short in Placed(packages, k)
    ensures AllWellFounded(packages)
  {
    forall p | p in packages
      ensures WellFounded(packages, p.short)
    {
      assert p in multiset(out);
    }
  }

  function ShortsOf(packages: seq<Package>): (r: seq<string>)
    ensures forall short :: short in r <==> exists p :: p in packages && p.short == short
  {
    if packages == [] then [] else
      assert packages == [packages[0]] + packages[1..];
      [packages[0].short] + ShortsOf(packages[1..])
  }

  lemma SameElements(a: seq<Package>, b: seq<Package>)
    requires multiset(a) == multiset(b)
    ensures forall p :: p in a <==> p in b
    ensures |a| == |b|
  {
    assert |multiset(a)| == |multiset(b)|;
    forall p
      ensures p in a <==> p in b
    {
      assert p in multiset(a) <==> p in multiset(b);
    }
  }
}
