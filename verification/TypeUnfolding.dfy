/** The walk taken apart: the unguarded unfolding of the declarations down to a
    depth, and the guard set run over it. The unfolding needs no ranking, so it says
    what the walk does on every declaration, and what the guard cuts. */
module TypeUnfolding {
  import opened Options
  import opened Potentials
  import opened SchemaPaths
  import opened TypeGraph
  import opened TypeWalk

  datatype Tree =
    | Answered(answer: Answer)
    /** A list of members without the name, and whether it has other members. */
    | Absent(others: bool)
    /** A named declaration and the length of the path it is met with. */
    | Met(key: Key, below: Tree)
    | AnyOf(parts: seq<Tree>)
    | EachOf(branches: seq<Tree>)
    /** The unfolding goes on below its depth. */
    | Deeper

  function UnfoldDecl(env: Environment, decl: DeclId, steps: seq<Step>, depth: nat): Tree
    decreases depth, 0
  {
    if decl !in env then Answered(Unknown)
    else if steps == [] then Answered(Found)
    else Met((decl, |steps|), if depth == 0 then Deeper else UnfoldInto(env, env[decl], steps, depth - 1))
  }

  function UnfoldInto(env: Environment, declaration: Declaration, steps: seq<Step>, depth: nat): Tree
    requires steps != []
    decreases depth, 2
  {
    match declaration
    case Alias(ty) => UnfoldTy(env, ty, steps, depth)
    case Interface(members, others, bases) =>
      if steps[0].Element? then Answered(Unknown) else
      match FirstProperty(members, steps[0].name)
      case Some(property) => UnfoldProperty(env, property, steps, depth)
      case None => AnyOf([Absent(others)] + UnfoldBases(env, bases, steps, depth))
  }

  function UnfoldBases(env: Environment, bases: seq<DeclId>, steps: seq<Step>, depth: nat): seq<Tree>
    decreases depth, 1, bases
  {
    if bases == [] then []
    else [UnfoldDecl(env, bases[0], steps, depth)] + UnfoldBases(env, bases[1..], steps, depth)
  }

  function UnfoldProperty(env: Environment, property: Property, steps: seq<Step>, depth: nat): Tree
    requires steps != []
    decreases depth, 1, property
  {
    if |steps| == 1 then Answered(Found)
    else if property.ty.None? then Answered(Unknown)
    else UnfoldTy(env, property.ty.value, steps[1..], depth)
  }

  function UnfoldTy(env: Environment, ty: Ty, steps: seq<Step>, depth: nat): Tree
    decreases depth, 1, ty
  {
    if steps == [] then Answered(Found) else
    match ty
    case Literal(members, others) =>
      if steps[0].Element? then Answered(Unknown) else (
        match FirstProperty(members, steps[0].name)
        case Some(property) => UnfoldProperty(env, property, steps, depth)
        case None => Absent(others))
    case Wrapped(inner) => UnfoldTy(env, inner, steps, depth)
    case Intersection(parts) => AnyOf(UnfoldAll(env, parts, steps, depth))
    case Union(branches) => EachOf(UnfoldAll(env, branches, steps, depth))
    case ArrayOf(element) =>
      if steps[0].Element? then UnfoldTy(env, element, steps[1..], depth) else Answered(Unknown)
    case Indexed(owner, key) => UnfoldTy(env, owner, [Member(key)] + steps, depth)
    case Reference(decl) => UnfoldDecl(env, decl, steps, depth)
    case OutOfReach => Answered(Unknown)
  }

  function UnfoldAll(env: Environment, types: seq<Ty>, steps: seq<Step>, depth: nat): seq<Tree>
    decreases depth, 1, types
  {
    if types == [] then []
    else [UnfoldTy(env, types[0], steps, depth)] + UnfoldAll(env, types[1..], steps, depth)
  }

  // ---- The guard over an unfolding ----

  /** What the guarded walk makes of an unfolding; nothing where it would go on
      below the depth. */
  function Guarded(tree: Tree, seen: set<Key>): Option<Walked> {
    match tree
    case Answered(answer) => Some(Walked(answer, seen, false))
    case Absent(_) => Some(Walked(Missing, seen, false))
    case Met(key, below) => if key in seen then Some(Walked(Unknown, seen, true)) else Guarded(below, seen + {key})
    case AnyOf(parts) =>
      var all := GuardedAll(parts, seen);
      if all.None? then None else Some(Walked(Combine(all.value.answers), all.value.seen, all.value.cut))
    case EachOf(branches) =>
      var all := GuardedAll(branches, seen);
      if all.None? then None else Some(Walked(Agree(all.value.answers), all.value.seen, all.value.cut))
    case Deeper => None
  }

  function GuardedAll(trees: seq<Tree>, seen: set<Key>): Option<WalkedAll> {
    if trees == [] then Some(WalkedAll([], seen, false))
    else
      var first := Guarded(trees[0], seen);
      if first.None? then None else
      var rest := GuardedAll(trees[1..], first.value.seen);
      if rest.None? then None
      else Some(WalkedAll([first.value.answer] + rest.value.answers, rest.value.seen,
                          first.value.cut || rest.value.cut))
  }

  /** The walk ends: some depth is deep enough for it. */
  ghost predicate Ends(env: Environment, decl: DeclId, steps: seq<Step>) {
    exists depth :: Guarded(UnfoldDecl(env, decl, steps, depth), {}).Some?
  }

  // ---- The walk is the guard over a deep enough unfolding ----

  /** How many keys the guard can still take. */
  ghost function Room(env: Environment, bound: nat, seen: set<Key>): nat {
    |Keys(env, bound) - seen|
  }

  lemma RoomShrinks(env: Environment, bound: nat, seen: set<Key>, more: set<Key>)
    requires seen <= more
    ensures Room(env, bound, more) <= Room(env, bound, seen)
  {
    var keys := Keys(env, bound);
    assert keys - seen == (keys - more) + (keys * more - seen);
  }

  lemma RoomTaken(env: Environment, bound: nat, seen: set<Key>, key: Key)
    requires key in Keys(env, bound) && key !in seen
    ensures Room(env, bound, seen + {key}) == Room(env, bound, seen) - 1
  {
    var keys := Keys(env, bound);
    assert keys - seen == (keys - (seen + {key})) + {key};
  }

  lemma {:induction false} WalkDeclUnfolds(env: Environment, phi: map<DeclId, nat>, bound: nat,
                                           decl: DeclId, steps: seq<Step>, seen: set<Key>, depth: nat)
    requires Ranked(env, phi) && decl in env
    requires |steps| + phi[decl] <= bound && seen <= Keys(env, bound) && Room(env, bound, seen) <= depth
    ensures Guarded(UnfoldDecl(env, decl, steps, depth), seen) == Some(WalkDecl(env, phi, bound, decl, steps, seen))
    decreases depth, 0
  {
    var key := (decl, |steps|);
    if steps != [] && key !in seen {
      RoomTaken(env, bound, seen, key);
      if env[decl].Alias? {
        AliasWithin(env, phi, decl, |steps|, bound);
        WalkTyUnfolds(env, phi, bound, env[decl].ty, steps, seen + {key}, depth - 1);
      } else {
        WalkInterfaceUnfolds(env, phi, bound, decl, steps, seen, depth - 1);
      }
    }
  }

  lemma {:induction false} WalkInterfaceUnfolds(env: Environment, phi: map<DeclId, nat>, bound: nat,
                                                decl: DeclId, steps: seq<Step>, seen: set<Key>, depth: nat)
    requires Ranked(env, phi) && decl in env && env[decl].Interface?
    requires |steps| + phi[decl] <= bound && seen <= Keys(env, bound)
    requires steps != [] && (decl, |steps|) !in seen && Room(env, bound, seen + {(decl, |steps|)}) <= depth
    ensures Guarded(UnfoldInto(env, env[decl], steps, depth), seen + {(decl, |steps|)})
            == Some(WalkDecl(env, phi, bound, decl, steps, seen))
    decreases depth, 2
  {
    var seen' := seen + {(decl, |steps|)};
    var Interface(members, others, bases) := env[decl];
    if steps[0].Member? {
      match FirstProperty(members, steps[0].name)
      case Some(property) =>
        MembersWithin(env, phi, decl, |steps|, bound);
        WalkPropertyUnfolds(env, phi, bound, members, property, steps, seen', depth);
      case None =>
        BasesWithin(env, phi, decl);
        WalkBasesUnfolds(env, phi, bound, bases, steps, seen', depth);
        AbsentFirst(others, UnfoldBases(env, bases, steps, depth), seen');
    }
  }

  /** A member list without the name changes nothing beside the bases. */
  lemma AbsentFirst(others: bool, bases: seq<Tree>, seen: set<Key>)
    requires GuardedAll(bases, seen).Some?
    ensures var all := GuardedAll(bases, seen).value;
            GuardedAll([Absent(others)] + bases, seen) == Some(WalkedAll([Missing] + all.answers, all.seen, all.cut))
            && Combine([Missing] + all.answers) == Combine(all.answers)
  {
    assert ([Absent(others)] + bases)[1..] == bases;
  }

  lemma {:induction false} WalkBasesUnfolds(env: Environment, phi: map<DeclId, nat>, bound: nat,
                                            bases: seq<DeclId>, steps: seq<Step>, seen: set<Key>, depth: nat)
    requires Ranked(env, phi) && steps != []
    requires forall base :: base in bases && base in env ==> |steps| + phi[base] <= bound
    requires seen <= Keys(env, bound) && Room(env, bound, seen) <= depth
    ensures GuardedAll(UnfoldBases(env, bases, steps, depth), seen)
            == Some(WalkBases(env, phi, bound, bases, steps, seen))
    decreases depth, 1, bases
  {
    if bases != [] {
      var more := seen;
      if bases[0] in env {
        WalkDeclUnfolds(env, phi, bound, bases[0], steps, seen, depth);
        more := WalkDecl(env, phi, bound, bases[0], steps, seen).seen;
        RoomShrinks(env, bound, seen, more);
      }
      WalkBasesUnfolds(env, phi, bound, bases[1..], steps, more, depth);
    }
  }

  lemma {:induction false} WalkPropertyUnfolds(env: Environment, phi: map<DeclId, nat>, bound: nat,
                                               members: seq<Property>,
                                               property: Property, steps: seq<Step>, seen: set<Key>, depth: nat)
    requires Ranked(env, phi) && steps != [] && property in members
    requires Within(PropertyReferences(members, |steps| - 1), phi, bound)
    requires seen <= Keys(env, bound) && Room(env, bound, seen) <= depth
    ensures Guarded(UnfoldProperty(env, property, steps, depth), seen)
            == Some(WalkProperty(env, phi, bound, members, property, steps, seen))
    decreases depth, 1, property
  {
    if |steps| > 1 && property.ty.Some? {
      var rest := steps[1..];
      assert |rest| == |steps| - 1;
      PropertyWithin(members, property, |rest|, phi, bound);
      WalkTyUnfolds(env, phi, bound, property.ty.value, rest, seen, depth);
    }
  }

  lemma {:induction false} WalkTyUnfolds(env: Environment, phi: map<DeclId, nat>, bound: nat,
                                         ty: Ty, steps: seq<Step>, seen: set<Key>, depth: nat)
    requires Ranked(env, phi)
    requires Within(References(ty, |steps|), phi, bound)
    requires seen <= Keys(env, bound) && Room(env, bound, seen) <= depth
    ensures Guarded(UnfoldTy(env, ty, steps, depth), seen) == Some(WalkTy(env, phi, bound, ty, steps, seen))
    decreases depth, 1, ty
  {
    if steps != [] {
      match ty
      case Literal(members, _) =>
        if steps[0].Member? {
          match FirstProperty(members, steps[0].name)
          case Some(property) => WalkPropertyUnfolds(env, phi, bound, members, property, steps, seen, depth);
          case None =>
        }
      case Wrapped(inner) => WalkTyUnfolds(env, phi, bound, inner, steps, seen, depth);
      case Intersection(parts) => WalkAllUnfolds(env, phi, bound, parts, steps, seen, depth);
      case Union(branches) => WalkAllUnfolds(env, phi, bound, branches, steps, seen, depth);
      case ArrayOf(element) =>
        if steps[0].Element? {
          WalkTyUnfolds(env, phi, bound, element, steps[1..], seen, depth);
        }
      case Indexed(owner, key) => WalkTyUnfolds(env, phi, bound, owner, [Member(key)] + steps, seen, depth);
      case Reference(decl) =>
        assert Edge(decl, |steps|) in References(ty, |steps|);
        if decl in env {
          WalkDeclUnfolds(env, phi, bound, decl, steps, seen, depth);
        }
      case OutOfReach =>
    }
  }

  lemma {:induction false} WalkAllUnfolds(env: Environment, phi: map<DeclId, nat>, bound: nat,
                                          types: seq<Ty>, steps: seq<Step>, seen: set<Key>, depth: nat)
    requires Ranked(env, phi)
    requires Within(AllReferences(types, |steps|), phi, bound)
    requires seen <= Keys(env, bound) && Room(env, bound, seen) <= depth
    ensures GuardedAll(UnfoldAll(env, types, steps, depth), seen) == Some(WalkAll(env, phi, bound, types, steps, seen))
    decreases depth, 1, types
  {
    if types != [] {
      var first := WalkTy(env, phi, bound, types[0], steps, seen);
      WalkTyUnfolds(env, phi, bound, types[0], steps, seen, depth);
      RoomShrinks(env, bound, seen, first.seen);
      WalkAllUnfolds(env, phi, bound, types[1..], steps, first.seen, depth);
    }
  }

  /** The ranking and the bound only show that the walk ends: what it returns does
      not depend on them. */
  lemma RankingIrrelevant(env: Environment, phi: map<DeclId, nat>, bound: nat, phi': map<DeclId, nat>, bound': nat,
                          decl: DeclId, steps: seq<Step>, seen: set<Key>)
    requires Ranked(env, phi) && Ranked(env, phi') && decl in env
    requires |steps| + phi[decl] <= bound && seen <= Keys(env, bound)
    requires |steps| + phi'[decl] <= bound' && seen <= Keys(env, bound')
    ensures WalkDecl(env, phi, bound, decl, steps, seen) == WalkDecl(env, phi', bound', decl, steps, seen)
  {
    var depth := Room(env, bound, seen) + Room(env, bound', seen);
    WalkDeclUnfolds(env, phi, bound, decl, steps, seen, depth);
    WalkDeclUnfolds(env, phi', bound', decl, steps, seen, depth);
  }

  // ---- The guard cuts exactly where a key is met twice ----

  function KeysMet(tree: Tree): seq<Key> {
    match tree
    case Answered(_) => []
    case Absent(_) => []
    case Met(key, below) => [key] + KeysMet(below)
    case AnyOf(parts) => AllKeysMet(parts)
    case EachOf(branches) => AllKeysMet(branches)
    case Deeper => []
  }

  function AllKeysMet(trees: seq<Tree>): seq<Key> {
    if trees == [] then [] else KeysMet(trees[0]) + AllKeysMet(trees[1..])
  }

  /** How often a list holds a key. */
  function Times(keys: seq<Key>, key: Key): nat {
    if keys == [] then 0 else (if keys[0] == key then 1 else 0) + Times(keys[1..], key)
  }

  /** No key of the list is guarded or stands in it twice. */
  ghost predicate Fresh(keys: seq<Key>, seen: set<Key>) {
    forall key {:trigger Times(keys, key)} :: Times(keys, key) <= if key in seen then 0 else 1
  }

  function Listed(keys: seq<Key>): set<Key> {
    set key | key in keys
  }

  lemma {:induction false} TimesJoin(a: seq<Key>, b: seq<Key>, key: Key)
    ensures Times(a + b, key) == Times(a, key) + Times(b, key)
  {
    if a == [] {
      assert a + b == b;
    } else {
      assert (a + b)[1..] == a[1..] + b;
      TimesJoin(a[1..], b, key);
    }
  }

  lemma TimesFirst(first: Tree, rest: seq<Tree>, key: Key)
    ensures Times(AllKeysMet([first] + rest), key) == Times(KeysMet(first), key) + Times(AllKeysMet(rest), key)
  {
    assert ([first] + rest)[1..] == rest;
    TimesJoin(KeysMet(first), AllKeysMet(rest), key);
  }

  lemma {:induction false} ListedTimes(keys: seq<Key>, key: Key)
    ensures key in keys <==> Times(keys, key) > 0
  {
    if keys != [] {
      assert keys == [keys[0]] + keys[1..];
      ListedTimes(keys[1..], key);
    }
  }

  lemma FreshJoin(a: seq<Key>, b: seq<Key>, seen: set<Key>)
    ensures Fresh(a + b, seen) <==> Fresh(a, seen) && Fresh(b, seen + Listed(a))
    ensures Listed(a + b) == Listed(a) + Listed(b)
  {
    forall key
      ensures Times(a + b, key) == Times(a, key) + Times(b, key)
      ensures key in Listed(a) <==> Times(a, key) > 0
    {
      TimesJoin(a, b, key);
      ListedTimes(a, key);
    }
    if Fresh(a + b, seen) {
      forall key
        ensures Times(a, key) <= if key in seen then 0 else 1
        ensures Times(b, key) <= if key in seen + Listed(a) then 0 else 1
      {
        assert Times(a + b, key) == Times(a, key) + Times(b, key);
      }
    }
  }

  lemma OneFresh(key: Key, seen: set<Key>)
    ensures Fresh([key], seen) <==> key !in seen
    ensures Listed([key]) == {key}
  {
    assert Times([key], key) == 1;
    forall other
      ensures Times([key], other) == if other == key then 1 else 0
    {
    }
  }

  lemma {:induction false} GuardCutsRepeats(tree: Tree, seen: set<Key>)
    requires Guarded(tree, seen).Some?
    ensures var w := Guarded(tree, seen).value;
            (w.cut <==> !Fresh(KeysMet(tree), seen)) && (!w.cut ==> w.seen == seen + Listed(KeysMet(tree)))
    decreases tree
  {
    match tree
    case Answered(_) =>
    case Absent(_) =>
    case Met(key, below) =>
      FreshJoin([key], KeysMet(below), seen);
      OneFresh(key, seen);
      if key !in seen {
        GuardCutsRepeats(below, seen + {key});
      }
    case AnyOf(parts) => GuardCutsAllRepeats(parts, seen);
    case EachOf(branches) => GuardCutsAllRepeats(branches, seen);
    case Deeper =>
  }

  lemma {:induction false} GuardCutsAllRepeats(trees: seq<Tree>, seen: set<Key>)
    requires GuardedAll(trees, seen).Some?
    ensures var all := GuardedAll(trees, seen).value;
            (all.cut <==> !Fresh(AllKeysMet(trees), seen))
            && (!all.cut ==> all.seen == seen + Listed(AllKeysMet(trees)))
    decreases trees
  {
    if trees != [] {
      GuardCutsRepeats(trees[0], seen);
      GuardCutsAllRepeats(trees[1..], Guarded(trees[0], seen).value.seen);
      FreshJoin(KeysMet(trees[0]), AllKeysMet(trees[1..]), seen);
    }
  }

  // ---- A deeper unfolding goes on where a less deep one stops ----

  predicate Prunes(small: Tree, large: Tree) {
    match small
    case Answered(_) => large == small
    case Absent(_) => large == small
    case Met(key, below) => large.Met? && large.key == key && Prunes(below, large.below)
    case AnyOf(parts) => large.AnyOf? && PrunesAll(parts, large.parts)
    case EachOf(branches) => large.EachOf? && PrunesAll(branches, large.branches)
    case Deeper => true
  }

  predicate PrunesAll(small: seq<Tree>, large: seq<Tree>) {
    if small == [] then large == []
    else large != [] && Prunes(small[0], large[0]) && PrunesAll(small[1..], large[1..])
  }

  lemma {:induction false} DeclPrunes(env: Environment, decl: DeclId, steps: seq<Step>, depth: nat, more: nat)
    requires depth <= more
    ensures Prunes(UnfoldDecl(env, decl, steps, depth), UnfoldDecl(env, decl, steps, more))
    decreases depth, 0
  {
    if decl in env && steps != [] && depth > 0 {
      IntoPrunes(env, env[decl], steps, depth - 1, more - 1);
    }
  }

  lemma {:induction false} IntoPrunes(env: Environment, declaration: Declaration, steps: seq<Step>, depth: nat,
                                      more: nat)
    requires depth <= more && steps != []
    ensures Prunes(UnfoldInto(env, declaration, steps, depth), UnfoldInto(env, declaration, steps, more))
    decreases depth, 2
  {
    match declaration
    case Alias(ty) => TyPrunes(env, ty, steps, depth, more);
    case Interface(members, others, bases) =>
      if steps[0].Member? {
        match FirstProperty(members, steps[0].name)
        case Some(property) => PropertyPrunes(env, property, steps, depth, more);
        case None =>
          BasesPrune(env, bases, steps, depth, more);
          FirstPrunes(Absent(others), Absent(others),
                      UnfoldBases(env, bases, steps, depth), UnfoldBases(env, bases, steps, more));
      }
  }

  lemma FirstPrunes(small: Tree, large: Tree, smallRest: seq<Tree>, largeRest: seq<Tree>)
    requires Prunes(small, large) && PrunesAll(smallRest, largeRest)
    ensures PrunesAll([small] + smallRest, [large] + largeRest)
  {
    assert ([small] + smallRest)[1..] == smallRest && ([large] + largeRest)[1..] == largeRest;
  }

  lemma {:induction false} BasesPrune(env: Environment, bases: seq<DeclId>, steps: seq<Step>, depth: nat, more: nat)
    requires depth <= more
    ensures PrunesAll(UnfoldBases(env, bases, steps, depth), UnfoldBases(env, bases, steps, more))
    decreases depth, 1, bases
  {
    if bases != [] {
      DeclPrunes(env, bases[0], steps, depth, more);
      BasesPrune(env, bases[1..], steps, depth, more);
    }
  }

  lemma {:induction false} PropertyPrunes(env: Environment, property: Property, steps: seq<Step>, depth: nat, more: nat)
    requires depth <= more && steps != []
    ensures Prunes(UnfoldProperty(env, property, steps, depth), UnfoldProperty(env, property, steps, more))
    decreases depth, 1, property
  {
    if |steps| > 1 && property.ty.Some? {
      TyPrunes(env, property.ty.value, steps[1..], depth, more);
    }
  }

  lemma {:induction false} TyPrunes(env: Environment, ty: Ty, steps: seq<Step>, depth: nat, more: nat)
    requires depth <= more
    ensures Prunes(UnfoldTy(env, ty, steps, depth), UnfoldTy(env, ty, steps, more))
    decreases depth, 1, ty
  {
    if steps != [] {
      match ty
      case Literal(members, _) =>
        if steps[0].Member? {
          match FirstProperty(members, steps[0].name)
          case Some(property) => PropertyPrunes(env, property, steps, depth, more);
          case None =>
        }
      case Wrapped(inner) => TyPrunes(env, inner, steps, depth, more);
      case Intersection(parts) => AllPrune(env, parts, steps, depth, more);
      case Union(branches) => AllPrune(env, branches, steps, depth, more);
      case ArrayOf(element) =>
        if steps[0].Element? {
          TyPrunes(env, element, steps[1..], depth, more);
        }
      case Indexed(owner, name) => TyPrunes(env, owner, [Member(name)] + steps, depth, more);
      case Reference(decl) => DeclPrunes(env, decl, steps, depth, more);
      case OutOfReach =>
    }
  }

  lemma {:induction false} AllPrune(env: Environment, types: seq<Ty>, steps: seq<Step>, depth: nat, more: nat)
    requires depth <= more
    ensures PrunesAll(UnfoldAll(env, types, steps, depth), UnfoldAll(env, types, steps, more))
    decreases depth, 1, types
  {
    if types != [] {
      TyPrunes(env, types[0], steps, depth, more);
      AllPrune(env, types[1..], steps, depth, more);
    }
  }

  /** It meets every key at least as often. */
  lemma {:induction false} PrunedMeetsLess(small: Tree, large: Tree, key: Key)
    requires Prunes(small, large)
    ensures Times(KeysMet(small), key) <= Times(KeysMet(large), key)
  {
    match small
    case Answered(_) =>
    case Absent(_) =>
    case Met(here, below) =>
      PrunedMeetsLess(below, large.below, key);
      TimesJoin([here], KeysMet(below), key);
      TimesJoin([here], KeysMet(large.below), key);
    case AnyOf(parts) => AllPrunedMeetLess(parts, large.parts, key);
    case EachOf(branches) => AllPrunedMeetLess(branches, large.branches, key);
    case Deeper =>
  }

  lemma {:induction false} AllPrunedMeetLess(small: seq<Tree>, large: seq<Tree>, key: Key)
    requires PrunesAll(small, large)
    ensures Times(AllKeysMet(small), key) <= Times(AllKeysMet(large), key)
  {
    if small != [] {
      PrunedMeetsLess(small[0], large[0], key);
      AllPrunedMeetLess(small[1..], large[1..], key);
      TimesJoin(KeysMet(small[0]), AllKeysMet(small[1..]), key);
      TimesJoin(KeysMet(large[0]), AllKeysMet(large[1..]), key);
    }
  }

  /** A walk that ends on it is the same on the deeper one. */
  lemma {:induction false} PrunedWalkStays(small: Tree, large: Tree, seen: set<Key>)
    requires Prunes(small, large) && Guarded(small, seen).Some?
    ensures Guarded(large, seen) == Guarded(small, seen)
  {
    match small
    case Answered(_) =>
    case Absent(_) =>
    case Met(key, below) =>
      if key !in seen {
        PrunedWalkStays(below, large.below, seen + {key});
      }
    case AnyOf(parts) => AllPrunedWalksStay(parts, large.parts, seen);
    case EachOf(branches) => AllPrunedWalksStay(branches, large.branches, seen);
  }

  lemma {:induction false} AllPrunedWalksStay(small: seq<Tree>, large: seq<Tree>, seen: set<Key>)
    requires PrunesAll(small, large) && GuardedAll(small, seen).Some?
    ensures GuardedAll(large, seen) == GuardedAll(small, seen)
  {
    if small != [] {
      PrunedWalkStays(small[0], large[0], seen);
      AllPrunedWalksStay(small[1..], large[1..], Guarded(small[0], seen).value.seen);
    }
  }

  lemma EndedWalkStays(env: Environment, decl: DeclId, steps: seq<Step>, depth: nat, more: nat, seen: set<Key>)
    requires depth <= more && Guarded(UnfoldDecl(env, decl, steps, depth), seen).Some?
    ensures Guarded(UnfoldDecl(env, decl, steps, more), seen) == Guarded(UnfoldDecl(env, decl, steps, depth), seen)
  {
    DeclPrunes(env, decl, steps, depth, more);
    PrunedWalkStays(UnfoldDecl(env, decl, steps, depth), UnfoldDecl(env, decl, steps, more), seen);
  }

  // ---- One of several parts ----

  lemma {:induction false} PartGuarded(trees: seq<Tree>, seen: set<Key>, i: nat) returns (at: set<Key>)
    requires GuardedAll(trees, seen).Some? && i < |trees|
    ensures |GuardedAll(trees, seen).value.answers| == |trees| && Guarded(trees[i], at).Some?
    ensures Guarded(trees[i], at).value.answer == GuardedAll(trees, seen).value.answers[i]
    ensures Guarded(trees[i], at).value.cut ==> GuardedAll(trees, seen).value.cut
  {
    var first := Guarded(trees[0], seen).value;
    AnswersCount(trees, seen);
    if i == 0 {
      at := seen;
    } else {
      at := PartGuarded(trees[1..], first.seen, i - 1);
    }
  }

  lemma {:induction false} AnswersCount(trees: seq<Tree>, seen: set<Key>)
    requires GuardedAll(trees, seen).Some?
    ensures |GuardedAll(trees, seen).value.answers| == |trees|
  {
    if trees != [] {
      AnswersCount(trees[1..], Guarded(trees[0], seen).value.seen);
    }
  }

  lemma {:induction false} UnfoldAt(env: Environment, types: seq<Ty>, steps: seq<Step>, depth: nat)
    ensures |UnfoldAll(env, types, steps, depth)| == |types|
    ensures forall i :: 0 <= i < |types| ==>
              UnfoldAll(env, types, steps, depth)[i] == UnfoldTy(env, types[i], steps, depth)
    decreases types
  {
    if types != [] {
      UnfoldAt(env, types[1..], steps, depth);
    }
  }

  lemma {:induction false} UnfoldBaseAt(env: Environment, bases: seq<DeclId>, steps: seq<Step>, depth: nat)
    ensures |UnfoldBases(env, bases, steps, depth)| == |bases|
    ensures forall i :: 0 <= i < |bases| ==>
              UnfoldBases(env, bases, steps, depth)[i] == UnfoldDecl(env, bases[i], steps, depth)
    decreases bases
  {
    if bases != [] {
      UnfoldBaseAt(env, bases[1..], steps, depth);
    }
  }
}
