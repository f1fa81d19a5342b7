/** How weak an answer can be: only the guard set stands between the walk and the
    exact answer. A walk it does not cut short says `unknown` only of a path that
    some reading has and some reading lacks. */
module TypeExactness {
  import opened Options
  import opened SchemaPaths
  import opened TypeGraph
  import opened TypeWalk
  import opened TypeUnfolding

  ghost predicate Uncut(tree: Tree, seen: set<Key>) {
    Guarded(tree, seen).Some? && !Guarded(tree, seen).value.cut
  }

  // ---- An uncut walk that does not find the path: some reading lacks it ----

  lemma {:induction false} LacksDecl(env: Environment, decl: DeclId, steps: seq<Step>, walked: nat, seen: set<Key>,
                                     depth: nat)
    requires Uncut(UnfoldDecl(env, decl, steps, walked), seen)
    requires Guarded(UnfoldDecl(env, decl, steps, walked), seen).value.answer != Found
    ensures !DeclHas(env, EveryReading, decl, steps, depth)
    decreases walked, 0
  {
    if depth > 0 && decl in env {
      var seen' := seen + {(decl, |steps|)};
      match env[decl]
      case Alias(ty) => LacksTy(env, ty, steps, walked - 1, seen', depth - 1);
      case Interface(members, others, bases) =>
        if steps[0].Member? {
          match FirstProperty(members, steps[0].name)
          case Some(property) => LacksProperty(env, property, steps, walked - 1, seen', depth - 1);
          case None =>
            forall i | 0 <= i < |bases|
              ensures !DeclHas(env, EveryReading, bases[i], steps, depth - 1)
            {
              LacksBase(env, others, bases, steps, walked - 1, seen', depth - 1, i);
            }
        }
    }
  }

  lemma {:induction false} LacksBase(env: Environment, others: bool, bases: seq<DeclId>, steps: seq<Step>, walked: nat,
                                     seen: set<Key>, depth: nat, i: nat)
    requires i < |bases|
    requires var all := GuardedAll([Absent(others)] + UnfoldBases(env, bases, steps, walked), seen);
             all.Some? && !all.value.cut && Combine(all.value.answers) != Found
    ensures !DeclHas(env, EveryReading, bases[i], steps, depth)
    decreases walked, 1
  {
    var trees := [Absent(others)] + UnfoldBases(env, bases, steps, walked);
    UnfoldBaseAt(env, bases, steps, walked);
    var at := PartGuarded(trees, seen, i + 1);
    assert GuardedAll(trees, seen).value.answers[i + 1] in GuardedAll(trees, seen).value.answers;
    LacksDecl(env, bases[i], steps, walked, at, depth);
  }

  lemma {:induction false} LacksProperty(env: Environment, property: Property, steps: seq<Step>, walked: nat,
                                         seen: set<Key>, depth: nat)
    requires steps != [] && Uncut(UnfoldProperty(env, property, steps, walked), seen)
    requires Guarded(UnfoldProperty(env, property, steps, walked), seen).value.answer != Found
    ensures !PropertyHas(env, EveryReading, property, steps, depth)
    decreases walked, 1, property
  {
    if property.ty.Some? {
      LacksTy(env, property.ty.value, steps[1..], walked, seen, depth);
    }
  }

  lemma {:induction false} LacksTy(env: Environment, ty: Ty, steps: seq<Step>, walked: nat, seen: set<Key>, depth: nat)
    requires Uncut(UnfoldTy(env, ty, steps, walked), seen)
    requires Guarded(UnfoldTy(env, ty, steps, walked), seen).value.answer != Found
    ensures !TyHas(env, EveryReading, ty, steps, depth)
    decreases walked, 1, ty
  {
    match ty
    case Literal(members, _) =>
      if steps[0].Member? {
        match FirstProperty(members, steps[0].name)
        case Some(property) => LacksProperty(env, property, steps, walked, seen, depth);
        case None =>
      }
    case Wrapped(inner) => LacksTy(env, inner, steps, walked, seen, depth);
    case Intersection(parts) =>
      var answers := GuardedAll(UnfoldAll(env, parts, steps, walked), seen).value.answers;
      forall i | 0 <= i < |parts|
        ensures !TyHas(env, EveryReading, parts[i], steps, depth)
      {
        AnswersCountTypes(env, parts, steps, walked, seen);
        assert answers[i] in answers;
        LacksPart(env, parts, steps, walked, seen, depth, i);
      }
    case Union(branches) =>
      AnswersCountTypes(env, branches, steps, walked, seen);
      var answers := GuardedAll(UnfoldAll(env, branches, steps, walked), seen).value.answers;
      var i :| 0 <= i < |answers| && answers[i] != Found;
      LacksPart(env, branches, steps, walked, seen, depth, i);
    case ArrayOf(element) =>
      if steps[0].Element? {
        LacksTy(env, element, steps[1..], walked, seen, depth);
      }
    case Indexed(owner, key) => LacksTy(env, owner, [Member(key)] + steps, walked, seen, depth);
    case Reference(decl) => LacksDecl(env, decl, steps, walked, seen, depth);
    case OutOfReach =>
  }

  lemma AnswersCountTypes(env: Environment, types: seq<Ty>, steps: seq<Step>, walked: nat, seen: set<Key>)
    requires GuardedAll(UnfoldAll(env, types, steps, walked), seen).Some?
    ensures |GuardedAll(UnfoldAll(env, types, steps, walked), seen).value.answers| == |types|
  {
    UnfoldAt(env, types, steps, walked);
    AnswersCount(UnfoldAll(env, types, steps, walked), seen);
  }

  lemma {:induction false} LacksPart(env: Environment, types: seq<Ty>, steps: seq<Step>, walked: nat, seen: set<Key>,
                                     depth: nat, i: nat)
    requires var all := GuardedAll(UnfoldAll(env, types, steps, walked), seen);
             all.Some? && !all.value.cut && i < |types| && |all.value.answers| == |types|
             && all.value.answers[i] != Found
    ensures !TyHas(env, EveryReading, types[i], steps, depth)
    decreases walked, 1, types
  {
    UnfoldAt(env, types, steps, walked);
    var at := PartGuarded(UnfoldAll(env, types, steps, walked), seen, i);
    LacksTy(env, types[i], steps, walked, at, depth);
  }

  // ---- An uncut walk that does not miss the path: some reading has it ----

  lemma {:induction false} HasDecl(env: Environment, decl: DeclId, steps: seq<Step>, walked: nat, seen: set<Key>)
    requires Uncut(UnfoldDecl(env, decl, steps, walked), seen)
    requires Guarded(UnfoldDecl(env, decl, steps, walked), seen).value.answer != Missing
    ensures DeclHas(env, SomeReading, decl, steps, walked)
    decreases walked, 0
  {
    if decl in env && steps != [] {
      var seen' := seen + {(decl, |steps|)};
      match env[decl]
      case Alias(ty) => HasTy(env, ty, steps, walked - 1, seen');
      case Interface(members, others, bases) =>
        if steps[0].Member? {
          match FirstProperty(members, steps[0].name)
          case Some(property) => HasProperty(env, property, steps, walked - 1, seen');
          case None =>
            var i := HasBase(env, others, bases, steps, walked - 1, seen');
        }
    }
  }

  lemma {:induction false} HasBase(env: Environment, others: bool, bases: seq<DeclId>, steps: seq<Step>, walked: nat,
                                   seen: set<Key>) returns (i: nat)
    requires var all := GuardedAll([Absent(others)] + UnfoldBases(env, bases, steps, walked), seen);
             all.Some? && !all.value.cut && Combine(all.value.answers) != Missing
    ensures i < |bases| && DeclHas(env, SomeReading, bases[i], steps, walked)
    decreases walked, 1
  {
    var trees := [Absent(others)] + UnfoldBases(env, bases, steps, walked);
    UnfoldBaseAt(env, bases, steps, walked);
    AnswersCount(trees, seen);
    var answers := GuardedAll(trees, seen).value.answers;
    var k :| 0 <= k < |answers| && answers[k] != Missing;
    var at := PartGuarded(trees, seen, k);
    i := k - 1;
    HasDecl(env, bases[i], steps, walked, at);
  }

  lemma {:induction false} HasProperty(env: Environment, property: Property, steps: seq<Step>, walked: nat,
                                       seen: set<Key>)
    requires steps != [] && Uncut(UnfoldProperty(env, property, steps, walked), seen)
    requires Guarded(UnfoldProperty(env, property, steps, walked), seen).value.answer != Missing
    ensures PropertyHas(env, SomeReading, property, steps, walked)
    decreases walked, 1, property
  {
    if |steps| > 1 && property.ty.Some? {
      HasTy(env, property.ty.value, steps[1..], walked, seen);
    }
  }

  lemma {:induction false} HasTy(env: Environment, ty: Ty, steps: seq<Step>, walked: nat, seen: set<Key>)
    requires Uncut(UnfoldTy(env, ty, steps, walked), seen)
    requires Guarded(UnfoldTy(env, ty, steps, walked), seen).value.answer != Missing
    ensures TyHas(env, SomeReading, ty, steps, walked)
    decreases walked, 1, ty
  {
    if steps != [] {
      match ty
      case Literal(members, _) =>
        if steps[0].Member? {
          HasProperty(env, FirstProperty(members, steps[0].name).value, steps, walked, seen);
        }
      case Wrapped(inner) => HasTy(env, inner, steps, walked, seen);
      case Intersection(parts) =>
        AnswersCountTypes(env, parts, steps, walked, seen);
        var answers := GuardedAll(UnfoldAll(env, parts, steps, walked), seen).value.answers;
        var i :| 0 <= i < |answers| && answers[i] != Missing;
        HasPart(env, parts, steps, walked, seen, i);
      case Union(branches) =>
        if branches != [] {
          AnswersCountTypes(env, branches, steps, walked, seen);
          var answers := GuardedAll(UnfoldAll(env, branches, steps, walked), seen).value.answers;
          assert answers[0] in answers;
          var i :| 0 <= i < |answers| && answers[i] != Missing;
          HasPart(env, branches, steps, walked, seen, i);
        }
      case ArrayOf(element) =>
        if steps[0].Element? {
          HasTy(env, element, steps[1..], walked, seen);
        }
      case Indexed(owner, key) => HasTy(env, owner, [Member(key)] + steps, walked, seen);
      case Reference(decl) => HasDecl(env, decl, steps, walked, seen);
      case OutOfReach =>
    }
  }

  lemma {:induction false} HasPart(env: Environment, types: seq<Ty>, steps: seq<Step>, walked: nat, seen: set<Key>,
                                   i: nat)
    requires var all := GuardedAll(UnfoldAll(env, types, steps, walked), seen);
             all.Some? && !all.value.cut && i < |types| && |all.value.answers| == |types|
             && all.value.answers[i] != Missing
    ensures TyHas(env, SomeReading, types[i], steps, walked)
    decreases walked, 1, types
  {
    UnfoldAt(env, types, steps, walked);
    var at := PartGuarded(UnfoldAll(env, types, steps, walked), seen, i);
    HasTy(env, types[i], steps, walked, at);
  }
}
