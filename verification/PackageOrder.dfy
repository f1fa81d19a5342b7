/** What the layered order of `topoSort` means for the dependency graph. */
module PackageOrder {
  import opened Graphs
  import opened SortedLists
  import opened PackageGraph
  import opened TopoSort

  function DepsOf(packages: seq<Package>, short: string): seq<string> {
    if packages == [] then []
    else if packages[0].short == short then packages[0].deps
    else DepsOf(packages[1..], short)
  }

  function DependencyGraph(packages: seq<Package>): Graph<string> {
    map short | short in Names(packages) :: DepsOf(packages, short)
  }

  ghost predicate KnownDeps(packages: seq<Package>) {
    forall p, dep :: p in packages && dep in p.deps ==> dep in Names(packages)
  }

  lemma {:induction false} DepsOfPackage(packages: seq<Package>, p: Package)
    requires UniqueShorts(packages) && p in packages
    ensures p.short in Names(packages) && DepsOf(packages, p.short) == p.deps
  {
    PackageHasName(packages, p);
    if packages[0] != p {
      PackageHasName(packages[1..], p);
      DepsOfPackage(packages[1..], p);
    }
  }

  lemma PlacedStep(packages: seq<Package>, short: string, k: nat)
    requires UniqueShorts(packages) && k > 0
    ensures short in Placed(packages, k) <==>
            short in Names(packages) && forall dep :: dep in Next(DependencyGraph(packages), short) ==>
              dep in Placed(packages, k - 1)
  {
    var earlier := Placed(packages, k - 1);
    if short in Placed(packages, k) {
      var p :| p in packages && DepsIn(p, earlier) && p.short == short;
      DepsOfPackage(packages, p);
    } else if short in Names(packages) {
      var p := NameHasPackage(packages, short);
      DepsOfPackage(packages, p);
      var dep :| dep in p.deps && dep !in earlier;
      assert dep in Next(DependencyGraph(packages), short);
    }
  }

  // ---- Depth is the length of the longest dependency chain ----

  lemma {:induction false} ChainsAreShort(packages: seq<Package>, walk: seq<string>, k: nat)
    requires UniqueShorts(packages) && Walk(DependencyGraph(packages), walk)
    requires walk != [] && walk[0] in Placed(packages, k)
    ensures |walk| <= k
    decreases k
  {
    if |walk| > 1 {
      PlacedStep(packages, walk[0], k);
      assert walk[1] in Next(DependencyGraph(packages), walk[0]);
      ChainsAreShort(packages, walk[1..], k - 1);
    }
  }

  lemma DeepestDependency(packages: seq<Package>, short: string, depth: nat) returns (dep: string)
    requires UniqueShorts(packages) && HasDepth(packages, short, depth) && depth > 0
    ensures dep in Next(DependencyGraph(packages), short) && HasDepth(packages, dep, depth - 1)
  {
    PlacedStep(packages, short, depth + 1);
    PlacedStep(packages, short, depth);
    dep :| dep in Next(DependencyGraph(packages), short) && dep !in Placed(packages, depth - 1);
  }

  lemma {:induction false} LongChain(packages: seq<Package>, short: string, depth: nat) returns (walk: seq<string>)
    requires UniqueShorts(packages) && HasDepth(packages, short, depth)
    ensures Walk(DependencyGraph(packages), walk) && |walk| == depth + 1 && walk[0] == short
    decreases depth
  {
    if depth == 0 {
      walk := [short];
    } else {
      var dep := DeepestDependency(packages, short, depth);
      var rest := LongChain(packages, dep, depth - 1);
      WalkPrepend(DependencyGraph(packages), short, rest);
      walk := [short] + rest;
    }
  }

  /** A package's depth is the number of edges on its longest dependency chain. */
  lemma DepthIsLongestChain(packages: seq<Package>, short: string, depth: nat)
    requires UniqueShorts(packages) && HasDepth(packages, short, depth)
    ensures exists walk :: Walk(DependencyGraph(packages), walk) && |walk| == depth + 1 && walk[0] == short
    ensures forall walk :: Walk(DependencyGraph(packages), walk) && walk != [] && walk[0] == short ==>
              |walk| <= depth + 1
  {
    var longest := LongChain(packages, short, depth);
    forall walk | Walk(DependencyGraph(packages), walk) && walk != [] && walk[0] == short
      ensures |walk| <= depth + 1
    {
      ChainsAreShort(packages, walk, depth + 1);
    }
  }

  lemma DependencyIsShallower(packages: seq<Package>, p: Package, dep: string) returns (depth: nat, depDepth: nat)
    requires UniqueShorts(packages) && p in packages && WellFounded(packages, p.short) && dep in p.deps
    ensures HasDepth(packages, p.short, depth) && HasDepth(packages, dep, depDepth) && depDepth < depth
    ensures dep in Names(packages)
  {
    var k: nat :| p.short in Placed(packages, k);
    depth := DepthExists(packages, p.short, k);
    DepsOfPackage(packages, p);
    PlacedStep(packages, p.short, depth + 1);
    assert dep in Next(DependencyGraph(packages), p.short);
    assert dep in Placed(packages, depth);
    PlacedStep(packages, dep, depth);
    depDepth := DepthExists(packages, dep, depth);
  }

  // ---- When every package is well-founded ----

  lemma {:induction false} NoClosedWalkFrom(packages: seq<Package>, walk: seq<string>, k: nat)
    requires UniqueShorts(packages) && ClosedWalk(DependencyGraph(packages), walk)
    ensures walk[0] !in Placed(packages, k)
    decreases k
  {
    if k > 0 && walk[0] in Placed(packages, k) {
      PlacedStep(packages, walk[0], k);
      assert walk[1] in Next(DependencyGraph(packages), walk[0]);
      var turned := walk[1..] + [walk[1]];
      assert ClosedWalk(DependencyGraph(packages), turned);
      NoClosedWalkFrom(packages, turned, k - 1);
    }
  }

  lemma {:induction false} CommonRound(packages: seq<Package>, shorts: seq<string>) returns (k: nat)
    requires forall short :: short in shorts ==> WellFounded(packages, short)
    ensures forall short :: short in shorts ==> short in Placed(packages, k)
  {
    k := 0;
    if shorts != [] {
      var rest := CommonRound(packages, shorts[1..]);
      assert WellFounded(packages, shorts[0]);
      var first: nat :| shorts[0] in Placed(packages, first);
      k := first + rest;
      PlacedGrows(packages, first, k);
      PlacedGrows(packages, rest, k);
    }
  }

  /** `topoSort` succeeds exactly on acyclic graphs whose dependencies are all in the set. */
  lemma WellFoundedIff(packages: seq<Package>)
    requires UniqueShorts(packages)
    ensures AllWellFounded(packages) <==> Acyclic(DependencyGraph(packages)) && KnownDeps(packages)
  {
    if AllWellFounded(packages) {
      forall p, dep | p in packages && dep in p.deps
        ensures dep in Names(packages)
      {
        var _, _ := DependencyIsShallower(packages, p, dep);
      }
      forall walk | ClosedWalk(DependencyGraph(packages), walk)
        ensures false
      {
        assert walk[1] in Next(DependencyGraph(packages), walk[0]);
        var p := NameHasPackage(packages, walk[0]);
        var k: nat :| p.short in Placed(packages, k);
        NoClosedWalkFrom(packages, walk, k);
      }
    } else if Acyclic(DependencyGraph(packages)) && KnownDeps(packages) {
      NotStuck(packages);
    }
  }

  lemma NotStuck(packages: seq<Package>)
    requires UniqueShorts(packages) && Acyclic(DependencyGraph(packages)) && KnownDeps(packages)
    ensures AllWellFounded(packages)
  {
    var bad := set short | short in Names(packages) && !WellFounded(packages, short);
    if bad != {} {
      var short := MinimalNode(DependencyGraph(packages), bad);
      var p := NameHasPackage(packages, short);
      DepsOfPackage(packages, p);
      forall dep | dep in p.deps
        ensures WellFounded(packages, dep)
      {
        assert dep in Next(DependencyGraph(packages), short);
      }
      var k := CommonRound(packages, p.deps);
      PlacedStep(packages, short, k + 1);
    }
    forall p | p in packages
      ensures WellFounded(packages, p.short)
    {
      PackageHasName(packages, p);
      assert p.short !in bad;
    }
  }

  // ---- Each package after its dependencies ----

  lemma DependenciesFirst(packages: seq<Package>, groupOrder: seq<string>, less: (string, string) -> bool,
                          out: seq<Package>, i: nat, dep: string)
    requires UniqueShorts(packages) && AllWellFounded(packages) && Specified(packages, groupOrder, less, out)
    requires i < |out| && dep in out[i].deps
    ensures exists j :: 0 <= j < i && out[j].short == dep
  {
    SameElements(out, packages);
    assert out[i] in out;
    var depth, depDepth := DependencyIsShallower(packages, out[i], dep);
    var q := NameHasPackage(packages, dep);
    assert q in out;
    var j :| 0 <= j < |out| && out[j] == q;
    if i <= j {
      OrderedDepths(packages, groupOrder, less, out, i, j, depth, depDepth);
    }
  }

  lemma OrderedDepths(packages: seq<Package>, groupOrder: seq<string>, less: (string, string) -> bool,
                      out: seq<Package>,
                      i: nat, j: nat, depthI: nat, depthJ: nat)
    requires InLayerOrder(packages, groupOrder, less, out) && i <= j < |out|
    requires HasDepth(packages, out[i].short, depthI) && HasDepth(packages, out[j].short, depthJ)
    ensures depthI <= depthJ
  {
    if i == j {
      DepthUnique(packages, out[i].short, depthI, depthJ);
    } else {
      assert LayerOrder(packages, groupOrder, less, out[i], out[j]);
      var a, b :| HasDepth(packages, out[i].short, a) && HasDepth(packages, out[j].short, b) && a <= b;
      DepthUnique(packages, out[i].short, depthI, a);
      DepthUnique(packages, out[j].short, depthJ, b);
    }
  }

  // ---- The order does not depend on the input order ----

  lemma {:induction false} PlacedOfSet(p: seq<Package>, q: seq<Package>, k: nat)
    requires forall x :: x in p <==> x in q
    ensures Placed(p, k) == Placed(q, k)
  {
    if k > 0 {
      PlacedOfSet(p, q, k - 1);
    }
  }

  lemma LayerOrderAsymmetric(packages: seq<Package>, groupOrder: seq<string>, less: (string, string) -> bool,
                             a: Package, b: Package)
    requires StrictTotal(less) && LayerOrder(packages, groupOrder, less, a, b)
    ensures !LayerOrder(packages, groupOrder, less, b, a)
  {
    var depthA, depthB :|
      && HasDepth(packages, a.short, depthA) && HasDepth(packages, b.short, depthB)
      && (depthA < depthB || (depthA == depthB && ComesBefore(groupOrder, less, a, b)));
    ComesBeforeTotal(groupOrder, less, a, b, a);
    forall x, y | HasDepth(packages, b.short, x) && HasDepth(packages, a.short, y)
      ensures x == depthB && y == depthA
    {
      DepthUnique(packages, b.short, x, depthB);
      DepthUnique(packages, a.short, y, depthA);
    }
  }

  /** The specified order of a set of packages is unique. */
  lemma OrderIndependentOfInput(p: seq<Package>, q: seq<Package>, groupOrder: seq<string>,
                                less: (string, string) -> bool,
                                outP: seq<Package>, outQ: seq<Package>)
    requires StrictTotal(less) && multiset(p) == multiset(q)
    requires Specified(p, groupOrder, less, outP) && Specified(q, groupOrder, less, outQ)
    ensures outP == outQ
  {
    SameElements(p, q);
    var before := (a, b) => LayerOrder(p, groupOrder, less, a, b);
    forall a, b | before(a, b)
      ensures !before(b, a)
    {
      LayerOrderAsymmetric(p, groupOrder, less, a, b);
    }
    forall i, j | 0 <= i < j < |outQ|
      ensures before(outQ[i], outQ[j])
    {
      assert LayerOrder(q, groupOrder, less, outQ[i], outQ[j]);
      LayerOrderOfSet(p, q, groupOrder, less, outQ[i], outQ[j]);
    }
    forall i, j | 0 <= i < j < |outP|
      ensures before(outP[i], outP[j])
    {
      assert LayerOrder(p, groupOrder, less, outP[i], outP[j]);
    }
    SortedListsEqual(before, outP, outQ);
  }

  lemma LayerOrderOfSet(p: seq<Package>, q: seq<Package>, groupOrder: seq<string>, less: (string, string) -> bool,
                        a: Package, b: Package)
    requires (forall x :: x in p <==> x in q) && LayerOrder(q, groupOrder, less, a, b)
    ensures LayerOrder(p, groupOrder, less, a, b)
  {
    var depthA, depthB :|
      && HasDepth(q, a.short, depthA) && HasDepth(q, b.short, depthB)
      && (depthA < depthB || (depthA == depthB && ComesBefore(groupOrder, less, a, b)));
    DepthOfSet(p, q, a.short, depthA);
    DepthOfSet(p, q, b.short, depthB);
  }

  lemma DepthOfSet(p: seq<Package>, q: seq<Package>, short: string, depth: nat)
    requires (forall x :: x in p <==> x in q) && HasDepth(q, short, depth)
    ensures HasDepth(p, short, depth)
  {
    PlacedOfSet(p, q, depth);
    PlacedOfSet(p, q, depth + 1);
  }

  // ---- The order within a layer, by groups and names ----

  /** The first `k` groups are others. */
  ghost predicate NotAmong(groups: seq<string>, group: string, k: int) {
    forall j :: 0 <= j < k && j < |groups| ==> groups[j] != group
  }

  /** Group `a` occurs in the list before any `b`. */
  ghost predicate ListedFirst(groupOrder: seq<string>, a: string, b: string) {
    exists k :: 0 <= k < |groupOrder| && groupOrder[k] == a && NotAmong(groupOrder, b, k + 1)
  }

  /** By the group that the list names first; then, of groups it does not name, by the
      group; and within a group by the short name. */
  ghost predicate ShownFirst(groupOrder: seq<string>, less: (string, string) -> bool, a: Package, b: Package) {
    || ListedFirst(groupOrder, a.group, b.group)
    || (a.group !in groupOrder && b.group !in groupOrder && less(a.group, b.group))
    || (a.group == b.group && less(a.short, b.short))
  }

  lemma {:induction false} IndexIsFirst(groups: seq<string>, group: string)
    ensures IndexOf(groups, group) == -1 <==> group !in groups
    ensures var k := IndexOf(groups, group);
            k != -1 ==> 0 <= k < |groups| && groups[k] == group && NotAmong(groups, group, k)
  {
    if groups != [] && groups[0] != group {
      var rest := groups[1..];
      IndexIsFirst(rest, group);
      forall j | 1 <= j < |groups|
        ensures groups[j] == rest[j - 1]
      {
      }
    }
  }

  lemma ListedFirstIff(groupOrder: seq<string>, a: string, b: string)
    ensures ListedFirst(groupOrder, a, b) <==>
              var i, j := IndexOf(groupOrder, a), IndexOf(groupOrder, b); i != -1 && (j == -1 || i < j)
  {
    IndexIsFirst(groupOrder, a);
    IndexIsFirst(groupOrder, b);
  }

  /** No list of groups is longer than an array can be. */
  lemma ComesBeforeIff(groupOrder: seq<string>, less: (string, string) -> bool, a: Package, b: Package)
    requires StrictTotal(less) && |groupOrder| < 0x1_0000_0000
    ensures ComesBefore(groupOrder, less, a, b) <==> ShownFirst(groupOrder, less, a, b)
  {
    IndexIsFirst(groupOrder, a.group);
    IndexIsFirst(groupOrder, b.group);
    ListedFirstIff(groupOrder, a.group, b.group);
  }

  /** Of two packages in the output, the one of smaller depth stands first, and of two of
      equal depth the one shown first. */
  lemma OrderIff(packages: seq<Package>, groupOrder: seq<string>, less: (string, string) -> bool, out: seq<Package>,
                 i: nat, j: nat, depthI: nat, depthJ: nat)
    requires StrictTotal(less) && |groupOrder| < 0x1_0000_0000 && Specified(packages, groupOrder, less, out)
    requires i < |out| && j < |out| && i != j
    requires HasDepth(packages, out[i].short, depthI) && HasDepth(packages, out[j].short, depthJ)
    ensures i < j <==> depthI < depthJ || (depthI == depthJ && ShownFirst(groupOrder, less, out[i], out[j]))
  {
    ComesBeforeIff(groupOrder, less, out[i], out[j]);
    LayerOrderAt(packages, groupOrder, less, out[i], out[j], depthI, depthJ);
    LayerOrderAt(packages, groupOrder, less, out[j], out[i], depthJ, depthI);
    if j < i {
      LayerOrderAsymmetric(packages, groupOrder, less, out[j], out[i]);
    }
  }

  lemma LayerOrderAt(packages: seq<Package>, groupOrder: seq<string>, less: (string, string) -> bool,
                     a: Package, b: Package, depthA: nat, depthB: nat)
    requires HasDepth(packages, a.short, depthA) && HasDepth(packages, b.short, depthB)
    ensures LayerOrder(packages, groupOrder, less, a, b) <==>
              depthA < depthB || (depthA == depthB && ComesBefore(groupOrder, less, a, b))
  {
    forall x | HasDepth(packages, a.short, x)
      ensures x == depthA
    {
      DepthUnique(packages, a.short, x, depthA);
    }
    forall x | HasDepth(packages, b.short, x)
      ensures x == depthB
    {
      DepthUnique(packages, b.short, x, depthB);
    }
  }
}
