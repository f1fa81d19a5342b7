/** What the answers of the type walk mean, over types of any recursion and whatever
    the guard holds: `found` is in every reading of the type, and `missing` in none,
    unless the walk overlooks members that are not properties. */
module TypeSoundness {
  import opened Options
  import opened SchemaPaths
  import opened TypeGraph
  import opened TypeWalk
  import opened TypeUnfolding

  // ---- Deeper unfolding keeps what is present ----

  lemma {:induction false} DeclDeepens(env: Environment, view: View, decl: DeclId, steps: seq<Step>, depth: nat,
                                       deeper: nat)
    requires depth <= deeper && DeclHas(env, view, decl, steps, depth)
    ensures DeclHas(env, view, decl, steps, deeper)
    decreases depth, 0
  {
    if decl in env && steps != [] {
      match env[decl]
      case Alias(ty) => TyDeepens(env, view, ty, steps, depth - 1, deeper - 1);
      case Interface(members, others, bases) =>
        if steps[0].Member? {
          match FirstProperty(members, steps[0].name)
          case Some(property) => PropertyDeepens(env, view, property, steps, depth - 1, deeper - 1);
          case None =>
            if i :| 0 <= i < |bases| && DeclHas(env, view, bases[i], steps, depth - 1) {
              DeclDeepens(env, view, bases[i], steps, depth - 1, deeper - 1);
            }
        }
    }
  }

  lemma {:induction false} PropertyDeepens(env: Environment, view: View, property: Property, steps: seq<Step>,
                                           depth: nat, deeper: nat)
    requires depth <= deeper && steps != [] && PropertyHas(env, view, property, steps, depth)
    ensures PropertyHas(env, view, property, steps, deeper)
    decreases depth, 1, property
  {
    if |steps| > 1 && property.ty.Some? {
      TyDeepens(env, view, property.ty.value, steps[1..], depth, deeper);
    }
  }

  lemma {:induction false} TyDeepens(env: Environment, view: View, ty: Ty, steps: seq<Step>, depth: nat, deeper: nat)
    requires depth <= deeper && TyHas(env, view, ty, steps, depth)
    ensures TyHas(env, view, ty, steps, deeper)
    decreases depth, 1, ty
  {
    if steps != [] {
      match ty
      case Literal(members, _) =>
        if steps[0].Member? {
          match FirstProperty(members, steps[0].name)
          case Some(property) => PropertyDeepens(env, view, property, steps, depth, deeper);
          case None =>
        }
      case Wrapped(inner) => TyDeepens(env, view, inner, steps, depth, deeper);
      case Intersection(parts) =>
        var i :| 0 <= i < |parts| && TyHas(env, view, parts[i], steps, depth);
        TyDeepens(env, view, parts[i], steps, depth, deeper);
      case Union(branches) =>
        forall i | 0 <= i < |branches| && TyHas(env, view, branches[i], steps, depth)
          ensures TyHas(env, view, branches[i], steps, deeper)
        {
          TyDeepens(env, view, branches[i], steps, depth, deeper);
        }
      case ArrayOf(element) =>
        if steps[0].Element? {
          TyDeepens(env, view, element, steps[1..], depth, deeper);
        }
      case Indexed(owner, key) => TyDeepens(env, view, owner, [Member(key)] + steps, depth, deeper);
      case Reference(decl) => DeclDeepens(env, view, decl, steps, depth, deeper);
      case OutOfReach =>
    }
  }

  // ---- Missing is wrong only where other members are overlooked ----

  /** The unfolding comes to a list of members without the name that has others. */
  predicate Overlooks(tree: Tree) {
    match tree
    case Absent(others) => others
    case Met(_, below) => Overlooks(below)
    case AnyOf(parts) => exists i :: 0 <= i < |parts| && Overlooks(parts[i])
    case EachOf(branches) => exists i :: 0 <= i < |branches| && Overlooks(branches[i])
    case _ => false
  }

  lemma AllMissing(answers: seq<Answer>, i: nat)
    requires i < |answers|
    requires Combine(answers) == Missing || Agree(answers) == Missing
    ensures answers[i] == Missing
  {
    assert answers[i] in answers;
  }

  lemma {:induction false} MissingDecl(env: Environment, decl: DeclId, steps: seq<Step>, walked: nat, seen: set<Key>,
                                       view: View, depth: nat)
    requires var w := Guarded(UnfoldDecl(env, decl, steps, walked), seen); w.Some? && w.value.answer == Missing
    ensures DeclHas(env, view, decl, steps, depth) ==>
              Overlooks(UnfoldDecl(env, decl, steps, walked)) && !view.EveryReading?
    decreases walked, 0
  {
    if depth > 0 {
      var seen' := seen + {(decl, |steps|)};
      match env[decl]
      case Alias(ty) => MissingTy(env, ty, steps, walked - 1, seen', view, depth - 1);
      case Interface(members, others, bases) =>
        match FirstProperty(members, steps[0].name)
        case Some(property) => MissingProperty(env, property, steps, walked - 1, seen', view, depth - 1);
        case None =>
          if i :| 0 <= i < |bases| && DeclHas(env, view, bases[i], steps, depth - 1) {
            MissingBase(env, others, bases, steps, walked - 1, seen', view, depth - 1, i);
          } else if others {
            var trees := [Absent(others)] + UnfoldBases(env, bases, steps, walked - 1);
            assert Overlooks(trees[0]);
          }
    }
  }

  lemma {:induction false} MissingBase(env: Environment, others: bool, bases: seq<DeclId>, steps: seq<Step>,
                                       walked: nat, seen: set<Key>, view: View, depth: nat, i: nat)
    requires var all := GuardedAll([Absent(others)] + UnfoldBases(env, bases, steps, walked), seen);
             all.Some? && Combine(all.value.answers) == Missing
    requires i < |bases| && DeclHas(env, view, bases[i], steps, depth)
    ensures Overlooks(AnyOf([Absent(others)] + UnfoldBases(env, bases, steps, walked))) && !view.EveryReading?
    decreases walked, 1
  {
    var trees := [Absent(others)] + UnfoldBases(env, bases, steps, walked);
    UnfoldBaseAt(env, bases, steps, walked);
    var at := PartGuarded(trees, seen, i + 1);
    AllMissing(GuardedAll(trees, seen).value.answers, i + 1);
    MissingDecl(env, bases[i], steps, walked, at, view, depth);
    assert Overlooks(trees[i + 1]);
  }

  lemma {:induction false} MissingProperty(env: Environment, property: Property, steps: seq<Step>, walked: nat,
                                           seen: set<Key>, view: View, depth: nat)
    requires steps != []
    requires var w := Guarded(UnfoldProperty(env, property, steps, walked), seen); w.Some? && w.value.answer == Missing
    ensures PropertyHas(env, view, property, steps, depth) ==>
              Overlooks(UnfoldProperty(env, property, steps, walked)) && !view.EveryReading?
    decreases walked, 1, property
  {
    MissingTy(env, property.ty.value, steps[1..], walked, seen, view, depth);
  }

  lemma {:induction false} MissingTy(env: Environment, ty: Ty, steps: seq<Step>, walked: nat, seen: set<Key>,
                                     view: View, depth: nat)
    requires var w := Guarded(UnfoldTy(env, ty, steps, walked), seen); w.Some? && w.value.answer == Missing
    ensures TyHas(env, view, ty, steps, depth) ==>
              Overlooks(UnfoldTy(env, ty, steps, walked)) && !view.EveryReading?
    decreases walked, 1, ty
  {
    match ty
    case Literal(members, _) =>
      match FirstProperty(members, steps[0].name) {
        case Some(property) => MissingProperty(env, property, steps, walked, seen, view, depth);
        case None =>
      }
    case Wrapped(inner) => MissingTy(env, inner, steps, walked, seen, view, depth);
    case Intersection(parts) =>
      if i :| 0 <= i < |parts| && TyHas(env, view, parts[i], steps, depth) {
        var at := MissingPart(env, parts, steps, walked, seen, i);
        MissingTy(env, parts[i], steps, walked, at, view, depth);
        assert Overlooks(UnfoldAll(env, parts, steps, walked)[i]);
      }
    case Union(branches) =>
      if UnionHas(env, view, branches, steps, depth) {
        EmptyAgrees(env, branches, steps, walked, seen);
        var i :| 0 <= i < |branches| && TyHas(env, view, branches[i], steps, depth);
        var at := MissingPart(env, branches, steps, walked, seen, i);
        MissingTy(env, branches[i], steps, walked, at, view, depth);
        assert Overlooks(UnfoldAll(env, branches, steps, walked)[i]);
      }
    case ArrayOf(element) => MissingTy(env, element, steps[1..], walked, seen, view, depth);
    case Indexed(owner, key) => MissingTy(env, owner, [Member(key)] + steps, walked, seen, view, depth);
    case Reference(decl) => MissingDecl(env, decl, steps, walked, seen, view, depth);
    case OutOfReach =>
  }

  lemma EmptyAgrees(env: Environment, branches: seq<Ty>, steps: seq<Step>, walked: nat, seen: set<Key>)
    requires var all := GuardedAll(UnfoldAll(env, branches, steps, walked), seen);
             all.Some? && Agree(all.value.answers) == Missing
    ensures branches != []
  {
  }

  lemma MissingPart(env: Environment, types: seq<Ty>, steps: seq<Step>, walked: nat, seen: set<Key>, i: nat)
    returns (at: set<Key>)
    requires i < |types|
    requires var all := GuardedAll(UnfoldAll(env, types, steps, walked), seen);
             all.Some? && (Combine(all.value.answers) == Missing || Agree(all.value.answers) == Missing)
    ensures var w := Guarded(UnfoldTy(env, types[i], steps, walked), at); w.Some? && w.value.answer == Missing
    ensures |UnfoldAll(env, types, steps, walked)| == |types|
    ensures UnfoldAll(env, types, steps, walked)[i] == UnfoldTy(env, types[i], steps, walked)
  {
    UnfoldAt(env, types, steps, walked);
    var trees := UnfoldAll(env, types, steps, walked);
    at := PartGuarded(trees, seen, i);
    AllMissing(GuardedAll(trees, seen).value.answers, i);
  }

  // ---- What is overlooked may hold the name ----

  lemma {:induction false} OverlooksDecl(env: Environment, decl: DeclId, steps: seq<Step>, depth: nat)
    requires Overlooks(UnfoldDecl(env, decl, steps, depth))
    ensures DeclHas(env, SomeReading, decl, steps, depth)
    decreases depth, 0
  {
    assert Overlooks(UnfoldDecl(env, decl, steps, depth).below);
    assert Overlooks(UnfoldInto(env, env[decl], steps, depth - 1));
    match env[decl]
    case Alias(ty) => OverlooksTy(env, ty, steps, depth - 1);
    case Interface(members, others, bases) =>
      match FirstProperty(members, steps[0].name)
      case Some(property) => OverlooksProperty(env, property, steps, depth - 1);
      case None =>
        if !others {
          UnfoldBaseAt(env, bases, steps, depth - 1);
          var trees := [Absent(others)] + UnfoldBases(env, bases, steps, depth - 1);
          var i :| 0 <= i < |trees| && Overlooks(trees[i]);
          OverlooksDecl(env, bases[i - 1], steps, depth - 1);
        }
  }

  lemma {:induction false} OverlooksProperty(env: Environment, property: Property, steps: seq<Step>, depth: nat)
    requires steps != [] && Overlooks(UnfoldProperty(env, property, steps, depth))
    ensures PropertyHas(env, SomeReading, property, steps, depth)
    decreases depth, 1, property
  {
    OverlooksTy(env, property.ty.value, steps[1..], depth);
  }

  lemma {:induction false} OverlooksTy(env: Environment, ty: Ty, steps: seq<Step>, depth: nat)
    requires Overlooks(UnfoldTy(env, ty, steps, depth))
    ensures TyHas(env, SomeReading, ty, steps, depth)
    decreases depth, 1, ty
  {
    match ty
    case Literal(members, _) =>
      match FirstProperty(members, steps[0].name) {
        case Some(property) => OverlooksProperty(env, property, steps, depth);
        case None =>
      }
    case Wrapped(inner) => OverlooksTy(env, inner, steps, depth);
    case Intersection(parts) =>
      UnfoldAt(env, parts, steps, depth);
      var trees := UnfoldAll(env, parts, steps, depth);
      var i :| 0 <= i < |trees| && Overlooks(trees[i]);
      OverlooksTy(env, parts[i], steps, depth);
    case Union(branches) =>
      UnfoldAt(env, branches, steps, depth);
      var trees := UnfoldAll(env, branches, steps, depth);
      var i :| 0 <= i < |trees| && Overlooks(trees[i]);
      OverlooksTy(env, branches[i], steps, depth);
    case ArrayOf(element) => OverlooksTy(env, element, steps[1..], depth);
    case Indexed(owner, key) => OverlooksTy(env, owner, [Member(key)] + steps, depth);
    case Reference(decl) => OverlooksDecl(env, decl, steps, depth);
    case OutOfReach =>
  }

  // ---- Found is present in every reading ----

  lemma {:induction false} FoundDecl(env: Environment, decl: DeclId, steps: seq<Step>, walked: nat, seen: set<Key>,
                                     view: View)
    requires var w := Guarded(UnfoldDecl(env, decl, steps, walked), seen); w.Some? && w.value.answer == Found
    ensures DeclHas(env, view, decl, steps, walked)
    decreases walked, 0
  {
    if steps != [] {
      var seen' := seen + {(decl, |steps|)};
      match env[decl]
      case Alias(ty) => FoundTy(env, ty, steps, walked - 1, seen', view);
      case Interface(members, others, bases) =>
        match FirstProperty(members, steps[0].name)
        case Some(property) => FoundProperty(env, property, steps, walked - 1, seen', view);
        case None =>
          var i := FoundBase(env, others, bases, steps, walked - 1, seen', view);
    }
  }

  lemma {:induction false} FoundBase(env: Environment, others: bool, bases: seq<DeclId>, steps: seq<Step>, walked: nat,
                                     seen: set<Key>, view: View) returns (i: nat)
    requires var all := GuardedAll([Absent(others)] + UnfoldBases(env, bases, steps, walked), seen);
             all.Some? && Combine(all.value.answers) == Found
    ensures i < |bases| && DeclHas(env, view, bases[i], steps, walked)
    decreases walked, 1
  {
    var trees := [Absent(others)] + UnfoldBases(env, bases, steps, walked);
    UnfoldBaseAt(env, bases, steps, walked);
    AnswersCount(trees, seen);
    var answers := GuardedAll(trees, seen).value.answers;
    var k :| 0 <= k < |answers| && answers[k] == Found;
    var at := PartGuarded(trees, seen, k);
    i := k - 1;
    FoundDecl(env, bases[i], steps, walked, at, view);
  }

  lemma {:induction false} FoundProperty(env: Environment, property: Property, steps: seq<Step>, walked: nat,
                                         seen: set<Key>, view: View)
    requires steps != []
    requires var w := Guarded(UnfoldProperty(env, property, steps, walked), seen); w.Some? && w.value.answer == Found
    ensures PropertyHas(env, view, property, steps, walked)
    decreases walked, 1, property
  {
    if |steps| > 1 {
      FoundTy(env, property.ty.value, steps[1..], walked, seen, view);
    }
  }

  lemma {:induction false} FoundTy(env: Environment, ty: Ty, steps: seq<Step>, walked: nat, seen: set<Key>, view: View)
    requires var w := Guarded(UnfoldTy(env, ty, steps, walked), seen); w.Some? && w.value.answer == Found
    ensures TyHas(env, view, ty, steps, walked)
    decreases walked, 1, ty
  {
    if steps != [] {
      match ty
      case Literal(members, _) =>
        FoundProperty(env, FirstProperty(members, steps[0].name).value, steps, walked, seen, view);
      case Wrapped(inner) => FoundTy(env, inner, steps, walked, seen, view);
      case Intersection(parts) =>
        var trees := UnfoldAll(env, parts, steps, walked);
        UnfoldAt(env, parts, steps, walked);
        AnswersCount(trees, seen);
        var answers := GuardedAll(trees, seen).value.answers;
        var i :| 0 <= i < |answers| && answers[i] == Found;
        var at := PartGuarded(trees, seen, i);
        FoundTy(env, parts[i], steps, walked, at, view);
      case Union(branches) =>
        var trees := UnfoldAll(env, branches, steps, walked);
        UnfoldAt(env, branches, steps, walked);
        AnswersCount(trees, seen);
        var answers := GuardedAll(trees, seen).value.answers;
        forall i | 0 <= i < |branches|
          ensures TyHas(env, view, branches[i], steps, walked)
        {
          assert answers[i] in answers;
          var at := PartGuarded(trees, seen, i);
          FoundTy(env, branches[i], steps, walked, at, view);
        }
      case ArrayOf(element) => FoundTy(env, element, steps[1..], walked, seen, view);
      case Indexed(owner, key) => FoundTy(env, owner, [Member(key)] + steps, walked, seen, view);
      case Reference(decl) => FoundDecl(env, decl, steps, walked, seen, view);
    }
  }
}
