/**
 * Folding composed schemas together and checking every key path against the
 * declared type (scripts/gen-config-catalog.ts:728-764).
 */
module SchemaCheck {
  import opened Graphs
  import opened SchemaPaths
  import opened TypeGraph
  import opened TypeWalk
  import opened TypeUnfolding
  import opened SchemaOmissions
  import L = LookupPath
  import W = SchemaWalk

  // A package's own key paths and the packages whose schemas it composes.
  datatype Entry = Entry(keys: seq<string>, composes: seq<string>)

  type Entries = map<string, Entry>

  function Composes(entries: Entries): Graph<string> {
    map p | p in entries :: entries[p].composes
  }

  // Packages whose keys belong to a start's schema: those it composes, and so on.
  ghost predicate PartOf(entries: Entries, start: string, p: string) {
    p in entries && Reachable(Composes(entries), [start], p)
  }

  predicate HoldsKey(entries: Entries, packages: set<string>, key: string) {
    exists p :: p in packages && p in entries && key in entries[p].keys
  }

  predicate HoldsUnknown(entries: Entries, packages: set<string>, name: string) {
    name !in entries && exists p :: p in packages && p in entries && name in entries[p].composes
  }

  lemma HoldsKeySplit(entries: Entries, a: set<string>, b: set<string>, key: string)
    ensures HoldsKey(entries, a + b, key) <==> HoldsKey(entries, a, key) || HoldsKey(entries, b, key)
    ensures HoldsUnknown(entries, a + b, key) <==> HoldsUnknown(entries, a, key) || HoldsUnknown(entries, b, key)
  {
  }

  lemma {:induction false} ReachesThrough(entries: Entries, start: string, middle: string, p: string)
    requires start in entries && middle in entries[start].composes
    requires Reachable(Composes(entries), [middle], p)
    ensures Reachable(Composes(entries), [start], p)
  {
    var walk :| Walk(Composes(entries), walk) && walk != [] && walk[0] in [middle] && walk[|walk| - 1] == p;
    var longer := [start] + walk;
    assert Walk(Composes(entries), longer) && longer[0] in [start] && longer[|longer| - 1] == p;
  }

  // ----- the fold -----

  // What a fold that took `added` into the seen packages returned and reported.
  ghost predicate FoldResult(entries: Entries, start: string, added: set<string>, seen: set<string>, keys: seq<string>,
                         unknownBefore: seq<string>, unknown: seq<string>)
  {
    && (forall v {:trigger v in added} :: v in added ==> v in entries && Reachable(Composes(entries), [start], v))
    && (forall v, c :: v in added && v in entries && c in entries[v].composes && c in entries ==> c in seen)
    && (forall k :: k in keys <==> HoldsKey(entries, added, k))
    && (forall c :: c in unknown <==> c in unknownBefore || HoldsUnknown(entries, added, c))
  }

  // The same while the start's own compositions are being folded: only those done so far count.
  ghost predicate Partial(entries: Entries, start: string, done: seq<string>, others: set<string>, seen: set<string>,
                          keys: seq<string>,
                          unknownBefore: seq<string>, unknown: seq<string>)
    requires start in entries
  {
    && (forall v {:trigger v in others} :: v in others ==> v in entries && Reachable(Composes(entries), [start], v))
    && (forall v, c :: v in others && v in entries && c in entries[v].composes && c in entries ==> c in seen)
    && (forall c :: c in done && c in entries ==> c in seen)
    && (forall k :: k in keys <==> k in entries[start].keys || HoldsKey(entries, others, k))
    && (forall c :: c in unknown <==>
          c in unknownBefore || (c in done && c !in entries) || HoldsUnknown(entries, others, c))
  }

  lemma StartPartial(entries: Entries, start: string, seen: set<string>, unknown: seq<string>)
    requires start in entries
    ensures Partial(entries, start, [], {}, seen, entries[start].keys, unknown, unknown)
  {
  }

  lemma PartialUnknown(entries: Entries, start: string, done: seq<string>, others: set<string>, seen: set<string>,
                       keys: seq<string>,
                       unknownBefore: seq<string>, unknown: seq<string>, c: string)
    requires start in entries && c !in entries
    requires Partial(entries, start, done, others, seen, keys, unknownBefore, unknown)
    ensures Partial(entries, start, done + [c], others, seen, keys, unknownBefore, unknown + [c])
  {
  }

  lemma PartialKnown(entries: Entries, start: string, done: seq<string>, others: set<string>, seen: set<string>,
                     keys: seq<string>,
                     unknownBefore: seq<string>, unknown: seq<string>, c: string,
                     added: set<string>, seenAfter: set<string>, more: seq<string>, unknownAfter: seq<string>)
    requires start in entries && c in entries && c in entries[start].composes && c in seenAfter && seen <= seenAfter
    requires Partial(entries, start, done, others, seen, keys, unknownBefore, unknown)
    requires FoldResult(entries, c, added, seenAfter, more, unknown, unknownAfter)
    ensures Partial(entries, start, done + [c], others + added, seenAfter, keys + more, unknownBefore, unknownAfter)
  {
    forall v | v in added
      ensures Reachable(Composes(entries), [start], v)
    {
      ReachesThrough(entries, start, c, v);
    }
    forall k
      ensures HoldsKey(entries, others + added, k) <==> HoldsKey(entries, others, k) || HoldsKey(entries, added, k)
    {
      HoldsKeySplit(entries, others, added, k);
    }
    forall n
      ensures n in unknownAfter <==>
              n in unknownBefore || (n in done + [c] && n !in entries) || HoldsUnknown(entries, others + added, n)
    {
      HoldsKeySplit(entries, others, added, n);
      assert n in unknownAfter <==> n in unknown || HoldsUnknown(entries, added, n);
      assert n in done + [c] <==> n in done || n == c;
    }
  }

  lemma PartialDone(entries: Entries, start: string, others: set<string>, seen: set<string>, keys: seq<string>,
                    unknownBefore: seq<string>, unknown: seq<string>)
    requires start in entries
             && Partial(entries, start, entries[start].composes, others, seen, keys, unknownBefore, unknown)
    ensures FoldResult(entries, start, {start} + others, seen, keys, unknownBefore, unknown)
  {
    StartReachable(Composes(entries), [start], start);
    forall k
      ensures HoldsKey(entries, {start} + others, k) <==> k in entries[start].keys || HoldsKey(entries, others, k)
      ensures HoldsUnknown(entries, {start} + others, k) <==>
                (k !in entries && k in entries[start].composes) || HoldsUnknown(entries, others, k)
    {
      HoldsKeySplit(entries, {start}, others, k);
      assert k in entries[start].keys ==> HoldsKey(entries, {start}, k);
    }
  }

  lemma Smaller<T>(a: set<T>, b: set<T>)
    requires a < b
    ensures |a| < |b|
  {
    assert b == a + (b - a);
    assert |b| == |a| + |b - a|;
  }

  class Fold {
    const entries: Entries
    var seen: set<string>
    var unknown: seq<string>

    constructor (entries: Entries)
      ensures this.entries == entries && seen == {} && unknown == []
    {
      this.entries := entries;
      seen, unknown := {}, [];
    }

    // The keys of a package and of everything it composes that was not folded before.
    method FoldComposed(e: string) returns (keys: seq<string>)
      requires e in entries && seen <= entries.Keys
      modifies this
      ensures old(seen) <= seen <= entries.Keys && e in seen
      ensures FoldResult(entries, e, seen - old(seen), seen, keys, old(unknown), unknown)
      decreases |entries.Keys - seen|, 1
    {
      if e in seen {
        assert seen - old(seen) == {};
        return [];
      }
      ghost var before := seen;
      seen := seen + {e};
      Smaller(entries.Keys - seen, entries.Keys - before);
      ghost var others;
      keys, others := FoldParts(e);
      assert seen - before == {e} + others;
    }

    // The loop over the packages one entry composes.
    method FoldParts(e: string) returns (keys: seq<string>, ghost others: set<string>)
      requires e in entries && e in seen && seen <= entries.Keys
      modifies this
      ensures old(seen) <= seen <= entries.Keys && others == seen - old(seen)
      ensures FoldResult(entries, e, {e} + others, seen, keys, old(unknown), unknown)
      decreases |entries.Keys - seen|, 2
    {
      keys, others := entries[e].keys, {};
      var composes := entries[e].composes;
      StartPartial(entries, e, seen, unknown);
      for i := 0 to |composes|
        invariant old(seen) <= seen <= entries.Keys && others == seen - old(seen)
        invariant Partial(entries, e, composes[..i], others, seen, keys, old(unknown), unknown)
      {
        var composed := composes[i];
        assert composes[..i + 1] == composes[..i] + [composed];
        if composed !in entries {
          PartialUnknown(entries, e, composes[..i], others, seen, keys, old(unknown), unknown, composed);
          unknown := unknown + [composed];
        } else {
          SmallerStill(entries.Keys, old(seen), seen);
          ghost var seenBefore, unknownBefore := seen, unknown;
          var more := FoldComposed(composed);
          PartialKnown(entries, e, composes[..i], others, seenBefore, keys, old(unknown), unknownBefore, composed,
                       seen - seenBefore, seen, more, unknown);
          keys := keys + more;
          AddedSets(old(seen), seenBefore, seen);
          others := others + (seen - seenBefore);
        }
      }
      assert composes[..|composes|] == composes;
      PartialDone(entries, e, others, seen, keys, old(unknown), unknown);
    }
  }

  lemma AddedSets<T>(a: set<T>, b: set<T>, c: set<T>)
    requires a <= b <= c
    ensures (b - a) + (c - b) == c - a
  {
  }

  lemma SmallerStill<T>(universe: set<T>, a: set<T>, b: set<T>)
    requires a <= b
    ensures |universe - b| <= |universe - a|
  {
    if universe - b != universe - a {
      assert universe - b <= universe - a;
      Smaller(universe - b, universe - a);
    }
  }

  // ----- the whole check -----

  // The packages a fold from an unseen start visits are exactly those its schema is put together from.
  lemma FoldVisitsParts(entries: Entries, start: string, seen: set<string>, keys: seq<string>, unknown: seq<string>)
    requires start in entries && start in seen && FoldResult(entries, start, seen, seen, keys, [], unknown)
    ensures forall p :: p in seen <==> PartOf(entries, start, p)
  {
    forall p | PartOf(entries, start, p)
      ensures p in seen
    {
      assert Frontier(Composes(entries), [start], seen, []);
      ClosedContainsReachable(Composes(entries), [start], seen, p);
    }
  }

  // A key the check reports: some composed package declares it, and the declared
  // type has no such member.
  ghost predicate Reported(env: Environment, decl: DeclId, key: string) {
    Ends(env, decl, Parse(key)) && L.LookupPath(env, decl, Parse(key)).answer == Missing
  }

  // `lookup` is the path lookup into the package's configuration type.
  ghost predicate Looks(env: Environment, decl: DeclId, lookup: seq<Step> -> Answer, key: string) {
    Ends(env, decl, Parse(key)) && lookup(Parse(key)) == L.LookupPath(env, decl, Parse(key)).answer
  }

  method CheckSchema(entries: Entries, start: string, env: Environment, decl: DeclId, lookup: seq<Step> -> Answer)
    returns (missing: seq<string>, unknown: seq<string>)
    requires start in entries
    requires forall p, k :: PartOf(entries, start, p) && k in entries[p].keys ==> Looks(env, decl, lookup, k)
    ensures forall k :: k in missing <==>
              (exists p :: PartOf(entries, start, p) && k in entries[p].keys) && Reported(env, decl, k)
    ensures forall c :: c in unknown <==>
              c !in entries && exists p :: PartOf(entries, start, p) && c in entries[p].composes
  {
    var fold := new Fold(entries);
    var keys := fold.FoldComposed(start);
    ghost var seen := fold.seen;
    assert seen - {} == seen;
    unknown := fold.unknown;
    FoldVisitsParts(entries, start, seen, keys, unknown);
    forall k
      ensures k in keys <==> exists p :: PartOf(entries, start, p) && k in entries[p].keys
    {
      assert k in keys <==> HoldsKey(entries, seen, k);
    }
    forall c
      ensures c in unknown <==> c !in entries && exists p :: PartOf(entries, start, p) && c in entries[p].composes
    {
      assert c in unknown <==> HoldsUnknown(entries, seen, c);
    }
    missing := CheckKeys(keys, env, decl, lookup);
  }

  method CheckKeys(keys: seq<string>, env: Environment, decl: DeclId, lookup: seq<Step> -> Answer)
    returns (missing: seq<string>)
    requires forall k :: k in keys ==> Looks(env, decl, lookup, k)
    ensures forall k :: k in missing <==> k in keys && Reported(env, decl, k)
  {
    missing := [];
    for i := 0 to |keys|
      invariant forall k :: k in missing <==> k in keys[..i] && Reported(env, decl, k)
    {
      assert keys[..i + 1] == keys[..i] + [keys[i]];
      assert Looks(env, decl, lookup, keys[i]);
      var steps := ParsePath(keys[i]);
      if lookup(steps) == Missing {
        missing := missing + [keys[i]];
      }
    }
    assert keys[..|keys|] == keys;
  }

  // A reported key's path is in no reading of the declared type exactly where the
  // lookup came to no list with other members than properties.
  lemma ReportedIsAbsent(env: Environment, decl: DeclId, key: string)
    requires Reported(env, decl, key)
    ensures Print(Parse(key)) == key
    ensures (forall reading: View :: reading.Reading? ==> !Present(env, reading, decl, Parse(key))) <==>
              !L.Overlooked(env, decl, Parse(key))
  {
    L.LookupMeansReadings(env, decl, Parse(key));
    PrintsParsed(key);
  }

  // From the schema to the type: with plain keys, a reported key is the print of
  // one path of the schema, and that path is in no reading of the type under the
  // same condition.
  lemma ReportedPathIsAbsent(schema: W.Expr, env: Environment, decl: DeclId, key: string)
    requires key in W.SchemaKeys(schema) && (forall other :: W.EmitsKey(schema, other) ==> Plain(other))
    requires Reported(env, decl, key)
    ensures exists path :: W.Prints(schema, path, key) && W.HasKey(schema, path) &&
              ((forall reading: View :: reading.Reading? ==> !Present(env, reading, decl, path)) <==>
                 !L.Overlooked(env, decl, path))
  {
    ReportedIsAbsent(env, decl, key);
    W.KeysAreThePaths(schema, key);
    var path :| W.Prints(schema, path, key);
    RoundTripIff(path);
    EmittedIsNamed(schema, path);
  }

  // A key checked against `{ [key: string]: T }` is reported, although the type has
  // a reading with it.
  lemma IndexSignatureReported(key: string)
    requires PlainKey(key)
    ensures var env: Environment := map[0 := Alias(Literal([], true))];
            && Reported(env, 0, key)
            && exists reading: View :: reading.Reading? && Present(env, reading, 0, Parse(key))
  {
    var env: Environment := map[0 := Alias(Literal([], true))];
    var path := [Member(key)];
    RoundTripIff(path);
    assert path[1..] == [] && Suffix([]) == "" && key + "" == key;
    L.IndexSignatureMissing(key);
    L.LookupMeansReadings(env, 0, path);
  }
}
