/** `topoSort`: packages in dependency layers, each layer in display order. */
module PackageGraph {
  /** `deps` are the short names of in-repo peer dependencies. */
  datatype Package = Package(short: string, group: string, deps: seq<string>)

  const MAX_SAFE_INTEGER := 9007199254740991

  // ---- Display order within a layer ----

  /** What is assumed of locale collation: a strict total order on strings. */
  ghost predicate StrictTotal(less: (string, string) -> bool) {
    && (forall a :: !less(a, a))
    && (forall a, b :: a != b ==> less(a, b) || less(b, a))
    && (forall a, b, c :: less(a, b) && less(b, c) ==> less(a, c))
  }

  function IndexOf(groups: seq<string>, group: string): int {
    if groups == [] then -1
    else if groups[0] == group then 0
    else
      var rest := IndexOf(groups[1..], group);
      if rest == -1 then -1 else rest + 1
  }

  function GroupRank(groupOrder: seq<string>, group: string): int {
    var index := IndexOf(groupOrder, group);
    if index == -1 then MAX_SAFE_INTEGER else index
  }

  /** `comparePackages` is negative: by group rank, then group, then short name. */
  predicate ComesBefore(groupOrder: seq<string>, less: (string, string) -> bool, a: Package, b: Package) {
    var rankA, rankB := GroupRank(groupOrder, a.group), GroupRank(groupOrder, b.group);
    rankA < rankB || (rankA == rankB && (less(a.group, b.group) || (a.group == b.group && less(a.short, b.short))))
  }

  lemma ComesBeforeTotal(groupOrder: seq<string>, less: (string, string) -> bool, a: Package, b: Package, c: Package)
    requires StrictTotal(less)
    ensures !ComesBefore(groupOrder, less, a, a)
    ensures a.short != b.short ==> ComesBefore(groupOrder, less, a, b) || ComesBefore(groupOrder, less, b, a)
    ensures ComesBefore(groupOrder, less, a, b) && ComesBefore(groupOrder, less, b, c) ==>
              ComesBefore(groupOrder, less, a, c)
  {
  }

  function Names(packages: seq<Package>): set<string> {
    if packages == [] then {} else {packages[0].short} + Names(packages[1..])
  }

  /** No two packages share a short name. */
  predicate UniqueShorts(packages: seq<Package>) {
    packages == [] || (packages[0].short !in Names(packages[1..]) && UniqueShorts(packages[1..]))
  }

  lemma {:induction false} PackageHasName(packages: seq<Package>, p: Package)
    requires p in packages
    ensures p.short in Names(packages)
  {
    if packages[0] != p {
      PackageHasName(packages[1..], p);
    }
  }

  lemma {:induction false} NameHasPackage(packages: seq<Package>, short: string) returns (p: Package)
    requires short in Names(packages)
    ensures p in packages && p.short == short
  {
    if packages[0].short == short {
      p := packages[0];
    } else {
      p := NameHasPackage(packages[1..], short);
    }
  }

  // ---- Sorting a layer ----

  function Insert(groupOrder: seq<string>, less: (string, string) -> bool, package: Package,
                  sorted: seq<Package>): (r: seq<Package>)
    ensures multiset(r) == multiset(sorted) + multiset{package}
  {
    if sorted == [] || ComesBefore(groupOrder, less, package, sorted[0]) then [package] + sorted
    else
      assert sorted == [sorted[0]] + sorted[1..];
      [sorted[0]] + Insert(groupOrder, less, package, sorted[1..])
  }

  function Sort(groupOrder: seq<string>, less: (string, string) -> bool, packages: seq<Package>): (r: seq<Package>)
    ensures multiset(r) == multiset(packages)
  {
    if packages == [] then []
    else
      assert packages == [packages[0]] + packages[1..];
      Insert(groupOrder, less, packages[0], Sort(groupOrder, less, packages[1..]))
  }

  ghost predicate Ascending(groupOrder: seq<string>, less: (string, string) -> bool, packages: seq<Package>) {
    forall i, j :: 0 <= i < j < |packages| ==> ComesBefore(groupOrder, less, packages[i], packages[j])
  }

  lemma {:induction false} InsertAscends(groupOrder: seq<string>, less: (string, string) -> bool, package: Package,
                                         sorted: seq<Package>)
    requires StrictTotal(less) && Ascending(groupOrder, less, sorted)
    requires forall p :: p in sorted ==> p.short != package.short
    ensures Ascending(groupOrder, less, Insert(groupOrder, less, package, sorted))
  {
    var r := Insert(groupOrder, less, package, sorted);
    if sorted == [] {
    } else if ComesBefore(groupOrder, less, package, sorted[0]) {
      forall j | 0 <= j < |sorted|
        ensures ComesBefore(groupOrder, less, package, sorted[j])
      {
        ComesBeforeTotal(groupOrder, less, package, sorted[0], sorted[j]);
      }
    } else {
      InsertAscends(groupOrder, less, package, sorted[1..]);
      var rest := Insert(groupOrder, less, package, sorted[1..]);
      ComesBeforeTotal(groupOrder, less, sorted[0], package, package);
      forall j | 0 <= j < |rest|
        ensures ComesBefore(groupOrder, less, sorted[0], rest[j])
      {
        assert rest[j] in multiset(rest);
      }
    }
  }

  lemma {:induction false} InsertNames(groupOrder: seq<string>, less: (string, string) -> bool, package: Package,
                                       sorted: seq<Package>)
    ensures Names(Insert(groupOrder, less, package, sorted)) == Names(sorted) + {package.short}
  {
    InsertUnfolds(groupOrder, less, package, sorted);
    if sorted != [] && !ComesBefore(groupOrder, less, package, sorted[0]) {
      InsertNames(groupOrder, less, package, sorted[1..]);
    }
  }

  lemma InsertUnfolds(groupOrder: seq<string>, less: (string, string) -> bool, package: Package, sorted: seq<Package>)
    ensures var r := Insert(groupOrder, less, package, sorted);
            if sorted != [] && !ComesBefore(groupOrder, less, package, sorted[0])
            then r[0] == sorted[0] && r[1..] == Insert(groupOrder, less, package, sorted[1..])
            else r[0] == package && r[1..] == sorted
  {
  }

  lemma {:induction false} InsertUnique(groupOrder: seq<string>, less: (string, string) -> bool, package: Package,
                                        sorted: seq<Package>)
    requires UniqueShorts(sorted) && package.short !in Names(sorted)
    ensures UniqueShorts(Insert(groupOrder, less, package, sorted))
  {
    InsertUnfolds(groupOrder, less, package, sorted);
    if sorted != [] && !ComesBefore(groupOrder, less, package, sorted[0]) {
      InsertUnique(groupOrder, less, package, sorted[1..]);
      InsertNames(groupOrder, less, package, sorted[1..]);
    }
  }

  /** Sorting keeps the packages and puts them in ascending display order. */
  lemma {:induction false} SortAscends(groupOrder: seq<string>, less: (string, string) -> bool, packages: seq<Package>)
    requires StrictTotal(less) && UniqueShorts(packages)
    ensures Ascending(groupOrder, less, Sort(groupOrder, less, packages))
    ensures UniqueShorts(Sort(groupOrder, less, packages))
    ensures Names(Sort(groupOrder, less, packages)) == Names(packages)
  {
    if packages != [] {
      SortAscends(groupOrder, less, packages[1..]);
      var rest := Sort(groupOrder, less, packages[1..]);
      InsertNames(groupOrder, less, packages[0], rest);
      InsertUnique(groupOrder, less, packages[0], rest);
      forall p | p in rest
        ensures p.short != packages[0].short
      {
        PackageHasName(rest, p);
      }
      InsertAscends(groupOrder, less, packages[0], rest);
    }
  }
}
