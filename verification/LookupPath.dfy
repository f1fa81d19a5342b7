/** The theorems about `lookupPath` as its callers see it. */
module LookupPath {
  import opened Options
  import opened Potentials
  import opened SchemaPaths
  import opened TypeGraph
  import opened TypeWalk
  import opened TypeSoundness
  import opened TypeReadings
  import opened TypeExactness
  import opened TypeUnfolding
  import opened TypeRoutes

  ghost function DeepEnough(env: Environment, decl: DeclId, steps: seq<Step>): (depth: nat)
    requires Ends(env, decl, steps)
    ensures Guarded(UnfoldDecl(env, decl, steps, depth), {}).Some?
  {
    var depth: nat :| Guarded(UnfoldDecl(env, decl, steps, depth), {}).Some?;
    depth
  }

  /** The walk from a declaration with an empty guard set, where it ends. */
  ghost function LookupPath(env: Environment, decl: DeclId, steps: seq<Step>): Walked
    requires Ends(env, decl, steps)
  {
    Guarded(UnfoldDecl(env, decl, steps, DeepEnough(env, decl, steps)), {}).value
  }

  /** Any depth at which the walk ends gives the lookup. */
  lemma LookupAt(env: Environment, decl: DeclId, steps: seq<Step>, depth: nat)
    requires Guarded(UnfoldDecl(env, decl, steps, depth), {}).Some?
    ensures Ends(env, decl, steps)
    ensures Guarded(UnfoldDecl(env, decl, steps, depth), {}) == Some(LookupPath(env, decl, steps))
  {
    var chosen := DeepEnough(env, decl, steps);
    if chosen <= depth {
      EndedWalkStays(env, decl, steps, chosen, depth, {});
    } else {
      EndedWalkStays(env, decl, steps, depth, chosen, {});
    }
  }

  /** Past some depth, running the guard over the unfolding is the lookup. */
  lemma LookupUnfolds(env: Environment, decl: DeclId, steps: seq<Step>) returns (enough: nat)
    requires Ends(env, decl, steps)
    ensures forall depth :: enough <= depth ==>
              Guarded(UnfoldDecl(env, decl, steps, depth), {}) == Some(LookupPath(env, decl, steps))
  {
    enough := DeepEnough(env, decl, steps);
    forall depth | enough <= depth
      ensures Guarded(UnfoldDecl(env, decl, steps, depth), {}) == Some(LookupPath(env, decl, steps))
    {
      EndedWalkStays(env, decl, steps, enough, depth, {});
    }
  }

  /** Where no cycle of declarations lengthens the path, every lookup ends, and is the
      walk that any ranking bounds. */
  lemma BoundedEnds(env: Environment, decl: DeclId, steps: seq<Step>)
    requires Bounded(env) && decl in env
    ensures Ends(env, decl, steps)
    ensures forall phi, bound: nat :: Ranked(env, phi) && |steps| + phi[decl] <= bound ==>
              LookupPath(env, decl, steps) == WalkDecl(env, phi, bound, decl, steps, {})
  {
    PotentialExistsIff(ReferenceGraph(env));
    var some :| Potential(ReferenceGraph(env), some);
    WalkIsLookup(env, some, |steps| + some[decl], decl, steps);
    forall phi, bound: nat | Ranked(env, phi) && |steps| + phi[decl] <= bound
      ensures LookupPath(env, decl, steps) == WalkDecl(env, phi, bound, decl, steps, {})
    {
      WalkIsLookup(env, phi, bound, decl, steps);
    }
  }

  lemma WalkIsLookup(env: Environment, phi: map<DeclId, nat>, bound: nat, decl: DeclId, steps: seq<Step>)
    requires Ranked(env, phi) && decl in env && |steps| + phi[decl] <= bound
    ensures Ends(env, decl, steps) && LookupPath(env, decl, steps) == WalkDecl(env, phi, bound, decl, steps, {})
  {
    var depth := Room(env, bound, {});
    WalkDeclUnfolds(env, phi, bound, decl, steps, {}, depth);
    LookupAt(env, decl, steps, depth);
  }

  /** Where neither the guard nor an overlooked member interferes, the answer the
      readings dictate. */
  ghost function Exact(env: Environment, decl: DeclId, steps: seq<Step>): Answer {
    if Present(env, EveryReading, decl, steps) then Found
    else if Present(env, SomeReading, decl, steps) then Unknown
    else Missing
  }

  /** The walk comes to a list of members without the name that also has members that
      are not properties. */
  ghost predicate Overlooked(env: Environment, decl: DeclId, steps: seq<Step>) {
    exists depth :: Overlooks(UnfoldDecl(env, decl, steps, depth))
  }

  /** Whatever the guard holds, `missing` is exact unless a member list was overlooked. */
  lemma MissingUnlessOverlooked(env: Environment, decl: DeclId, steps: seq<Step>, walked: nat, seen: set<Key>)
    requires var w := Guarded(UnfoldDecl(env, decl, steps, walked), seen); w.Some? && w.value.answer == Missing
    ensures Overlooks(UnfoldDecl(env, decl, steps, walked)) <==> Overlooked(env, decl, steps)
    ensures Exact(env, decl, steps) == if Overlooked(env, decl, steps) then Unknown else Missing
  {
    forall depth
      ensures !DeclHas(env, EveryReading, decl, steps, depth)
      ensures DeclHas(env, SomeReading, decl, steps, depth) ==> Overlooks(UnfoldDecl(env, decl, steps, walked))
    {
      MissingDecl(env, decl, steps, walked, seen, EveryReading, depth);
      MissingDecl(env, decl, steps, walked, seen, SomeReading, depth);
    }
    if depth :| Overlooks(UnfoldDecl(env, decl, steps, depth)) {
      OverlooksDecl(env, decl, steps, depth);
    }
  }

  /** Whatever the guard holds, it can only weaken the exact answer to `unknown`, and
      does so only by cutting the walk short. */
  lemma GuardOnlyWeakens(env: Environment, decl: DeclId, steps: seq<Step>, walked: nat, seen: set<Key>)
    requires Guarded(UnfoldDecl(env, decl, steps, walked), seen).Some?
    ensures var w := Guarded(UnfoldDecl(env, decl, steps, walked), seen).value;
            || w.answer == Exact(env, decl, steps)
            || (w.answer == Unknown && w.cut)
            || (w.answer == Missing && Overlooked(env, decl, steps))
  {
    var w := Guarded(UnfoldDecl(env, decl, steps, walked), seen).value;
    if w.answer == Found {
      FoundDecl(env, decl, steps, walked, seen, EveryReading);
    } else if w.answer == Missing {
      MissingUnlessOverlooked(env, decl, steps, walked, seen);
    } else if !w.cut {
      forall depth
        ensures !DeclHas(env, EveryReading, decl, steps, depth)
      {
        LacksDecl(env, decl, steps, walked, seen, depth);
      }
      HasDecl(env, decl, steps, walked, seen);
    }
  }

  /** `found` is in every reading of the type. `missing` is in none exactly where no
      member list was overlooked; otherwise, as for an uncut `unknown`, it is in some
      reading and not in another. */
  lemma LookupMeansReadings(env: Environment, decl: DeclId, steps: seq<Step>)
    requires Ends(env, decl, steps)
    ensures var w := LookupPath(env, decl, steps);
            && (w.answer == Found ==>
                  forall reading: View :: reading.Reading? ==> Present(env, reading, decl, steps))
            && (w.answer == Missing ==>
                  ((forall reading: View :: reading.Reading? ==> !Present(env, reading, decl, steps)) <==>
                     !Overlooked(env, decl, steps)))
            && ((w.answer == Unknown && !w.cut) || (w.answer == Missing && Overlooked(env, decl, steps)) ==>
                  && (exists reading: View :: reading.Reading? && Present(env, reading, decl, steps))
                  && (exists reading: View :: reading.Reading? && !Present(env, reading, decl, steps)))
  {
    var enough := LookupUnfolds(env, decl, steps);
    GuardOnlyWeakens(env, decl, steps, enough, {});
    if LookupPath(env, decl, steps).answer == Missing {
      MissingUnlessOverlooked(env, decl, steps, enough, {});
    }
    EveryMeansEvery(env, decl, steps);
    SomeMeansSome(env, decl, steps);
  }

  /** Two walks that start from different guard sets never contradict each other. */
  lemma GuardsNeverContradict(env: Environment, decl: DeclId, steps: seq<Step>, walkedA: nat, seenA: set<Key>,
                              walkedB: nat, seenB: set<Key>)
    requires Guarded(UnfoldDecl(env, decl, steps, walkedA), seenA).Some?
    requires Guarded(UnfoldDecl(env, decl, steps, walkedB), seenB).Some?
    ensures var a := Guarded(UnfoldDecl(env, decl, steps, walkedA), seenA).value.answer;
            var b := Guarded(UnfoldDecl(env, decl, steps, walkedB), seenB).value.answer;
            a == b || a == Unknown || b == Unknown
  {
    AnswerAllows(env, decl, steps, walkedA, seenA);
    AnswerAllows(env, decl, steps, walkedB, seenB);
  }

  lemma AnswerAllows(env: Environment, decl: DeclId, steps: seq<Step>, walked: nat, seen: set<Key>)
    requires Guarded(UnfoldDecl(env, decl, steps, walked), seen).Some?
    ensures var answer := Guarded(UnfoldDecl(env, decl, steps, walked), seen).value.answer;
            && (answer == Found ==> Exact(env, decl, steps) == Found)
            && (answer == Missing ==> Exact(env, decl, steps) != Found)
  {
    GuardOnlyWeakens(env, decl, steps, walked, seen);
    if Guarded(UnfoldDecl(env, decl, steps, walked), seen).value.answer == Missing {
      MissingUnlessOverlooked(env, decl, steps, walked, seen);
    }
  }

  // ---- When the guard cuts, and when the answer is exact ----

  /** Without a guard, the walk would meet some declaration twice with equally many
      steps left, within `depth` references. */
  ghost predicate MeetsTwice(env: Environment, decl: DeclId, steps: seq<Step>, depth: nat) {
    !Fresh(KeysMet(UnfoldDecl(env, decl, steps, depth)), {})
  }

  lemma MeetsTwiceDeeper(env: Environment, decl: DeclId, steps: seq<Step>, depth: nat, more: nat)
    requires MeetsTwice(env, decl, steps, depth) && depth <= more
    ensures MeetsTwice(env, decl, steps, more)
  {
    var less, deeper := UnfoldDecl(env, decl, steps, depth), UnfoldDecl(env, decl, steps, more);
    var key :| Times(KeysMet(less), key) > 1;
    DeclPrunes(env, decl, steps, depth, more);
    PrunedMeetsLess(less, deeper, key);
  }

  lemma CutIff(env: Environment, decl: DeclId, steps: seq<Step>)
    requires Ends(env, decl, steps)
    ensures LookupPath(env, decl, steps).cut <==> exists depth :: MeetsTwice(env, decl, steps, depth)
  {
    var enough := LookupUnfolds(env, decl, steps);
    GuardCutsRepeats(UnfoldDecl(env, decl, steps, enough), {});
    assert LookupPath(env, decl, steps).cut <==> MeetsTwice(env, decl, steps, enough);
    if depth :| MeetsTwice(env, decl, steps, depth) {
      MeetsTwiceDeeper(env, decl, steps, depth, depth + enough);
      GuardCutsRepeats(UnfoldDecl(env, decl, steps, depth + enough), {});
    }
  }

  /** Where the declarations offer no second way to any of them, the guard cuts no path
      of that length, and the answer is exact unless it is `missing` with a member list
      overlooked. */
  lemma ReachedOnceIsExact(env: Environment, decl: DeclId, steps: seq<Step>)
    requires Ends(env, decl, steps) && ReachedOnce(env, decl, |steps|)
    ensures !LookupPath(env, decl, steps).cut
    ensures LookupPath(env, decl, steps).answer == Exact(env, decl, steps) <==>
              !(LookupPath(env, decl, steps).answer == Missing && Overlooked(env, decl, steps))
  {
    forall depth
      ensures !MeetsTwice(env, decl, steps, depth)
    {
      var keys := KeysMet(UnfoldDecl(env, decl, steps, depth));
      forall key
        ensures Times(keys, key) <= 1
      {
        DeclWays(env, decl, steps, depth, key);
      }
    }
    CutIff(env, decl, steps);
    var enough := LookupUnfolds(env, decl, steps);
    GuardOnlyWeakens(env, decl, steps, enough, {});
    if LookupPath(env, decl, steps).answer == Missing {
      MissingUnlessOverlooked(env, decl, steps, enough, {});
    }
  }

  // ---- A single name, by the members of the declaration ----

  /** The declaration is an interface or an alias of a literal with these members, and
      inherits none. */
  predicate Lists(declaration: Declaration, members: seq<Property>) {
    match declaration
    case Interface(own, _, bases) => own == members && bases == []
    case Alias(ty) => ty.Literal? && ty.members == members
  }

  /** Whatever else it inherits, a declaration has each of its own members. */
  lemma OwnMemberFound(env: Environment, decl: DeclId, property: Property)
    requires decl in env
    requires match env[decl]
             case Interface(members, _, _) => property in members
             case Alias(ty) => ty.Literal? && property in ty.members
    ensures var steps := [Member(property.name)];
            Ends(env, decl, steps) && LookupPath(env, decl, steps).answer == Found
  {
    var steps := [Member(property.name)];
    FirstPropertyIsFirst(if env[decl].Interface? then env[decl].members else env[decl].ty.members, property.name);
    assert UnfoldDecl(env, decl, steps, 1) == Met((decl, 1), Answered(Found));
    LookupAt(env, decl, steps, 1);
  }

  /** A name is found exactly when it is among the members, and missing otherwise. */
  lemma NameIsMember(env: Environment, decl: DeclId, members: seq<Property>, name: string)
    requires decl in env && Lists(env[decl], members)
    ensures Ends(env, decl, [Member(name)])
    ensures LookupPath(env, decl, [Member(name)]).answer
            == if exists i :: 0 <= i < |members| && members[i].name == name then Found else Missing
  {
    var steps := [Member(name)];
    if i :| 0 <= i < |members| && members[i].name == name {
      OwnMemberFound(env, decl, members[i]);
    } else {
      FirstPropertyIsFirst(members, name);
      match env[decl]
      case Interface(_, others, bases) =>
        assert UnfoldBases(env, bases, steps, 0) == [];
        assert [Absent(others)] + [] == [Absent(others)];
        assert UnfoldDecl(env, decl, steps, 1) == Met((decl, 1), AnyOf([Absent(others)]));
        var none: set<Key> := {};
        GuardedOne(Absent(others), none + {(decl, 1)});
        LookupAt(env, decl, steps, 1);
      case Alias(ty) =>
        assert UnfoldDecl(env, decl, steps, 1) == Met((decl, 1), Absent(ty.others));
        LookupAt(env, decl, steps, 1);
    }
  }

  lemma GuardedOne(a: Tree, seen: set<Key>)
    requires Guarded(a, seen).Some?
    ensures var first := Guarded(a, seen).value;
            Guarded(AnyOf([a]), seen) == Some(Walked(first.answer, first.seen, first.cut))
  {
    var first := Guarded(a, seen).value;
    assert [a][1..] == [];
    var none: seq<Answer> := [];
    assert GuardedAll([], first.seen) == Some(WalkedAll(none, first.seen, false));
    assert [first.answer] + none == [first.answer];
    assert GuardedAll([a], seen) == Some(WalkedAll([first.answer], first.seen, first.cut || false));
    assert [first.answer][0] == first.answer;
  }

  // ---- Inputs ----

  /** `interface N { next: N }`. */
  function RecursiveExample(next: string): Environment {
    map[0 := Interface([Property(next, Some(Reference(0)))], false, [])]
  }

  /** Recursion alone cuts nothing: the interface is met with every length once, so
      every path is answered exactly. */
  lemma RecursionIsExact(next: string, steps: seq<Step>)
    ensures var env := RecursiveExample(next);
            Ends(env, 0, steps) && LookupPath(env, 0, steps).answer == Exact(env, 0, steps)
  {
    var env := RecursiveExample(next);
    RecursiveRanked(next);
    BoundedEnds(env, 0, steps);
    forall key, hops
      ensures Ways(env, 0, |steps|, key, hops) <= 1
    {
      RecursiveWays(env, next, |steps|, key, hops);
    }
    forall depth
      ensures !Overlooks(UnfoldDecl(env, 0, steps, depth))
    {
      RecursionOverlooksNothing(next, steps, depth);
    }
    ReachedOnceIsExact(env, 0, steps);
  }

  lemma RecursiveRanked(next: string)
    ensures Bounded(RecursiveExample(next))
  {
    var env := RecursiveExample(next);
    var property: Property := Property(next, Some(Reference(0)));
    assert PropertyReference(property, -1) == [Edge(0, -1)];
    assert PropertyReferences([property], -1) == [Edge(0, -1)];
    assert ReferenceGraph(env)[0] == [Edge(0, -1)];
    assert Ranked(env, map[0 := 0]);
    PotentialExistsIff(ReferenceGraph(env));
  }

  lemma {:induction false} RecursiveWays(env: Environment, next: string, length: nat, key: Key, hops: nat)
    requires env == RecursiveExample(next)
    ensures Ways(env, 0, length, key, hops) <= if key.1 <= length then 1 else 0
    decreases hops
  {
    if length > 0 && hops > 0 {
      RecursiveWays(env, next, length - 1, key, hops - 1);
      var property: Property := env[0].members[0];
      assert TyWays(env, Reference(0), length - 1, key, hops - 1)
             == (if length == 1 then 0 else Ways(env, 0, length - 1, key, hops - 1));
      assert PropertyWays(env, property, length - 1, key, hops - 1)
             == TyWays(env, Reference(0), length - 1, key, hops - 1);
      assert MemberWays(env, [property], length - 1, key, hops - 1)
             == PropertyWays(env, property, length - 1, key, hops - 1);
      assert WaysInto(env, env[0], length, key, hops - 1) == MemberWays(env, [property], length - 1, key, hops - 1);
    }
  }

  lemma {:induction false} RecursionOverlooksNothing(next: string, steps: seq<Step>, depth: nat)
    ensures !Overlooks(UnfoldDecl(RecursiveExample(next), 0, steps, depth))
    decreases depth
  {
    var env, property: Property := RecursiveExample(next), Property(next, Some(Reference(0)));
    if steps != [] && depth > 0 && steps[0].Member? {
      if steps[0].name == next {
        assert FirstProperty([property], next) == Some(property);
        assert UnfoldInto(env, env[0], steps, depth - 1) == UnfoldProperty(env, property, steps, depth - 1);
        assert UnfoldTy(env, Reference(0), steps[1..], depth - 1)
               == if |steps| == 1 then Answered(Found) else UnfoldDecl(env, 0, steps[1..], depth - 1);
        RecursionOverlooksNothing(next, steps[1..], depth - 1);
      } else {
        assert FirstProperty([property], steps[0].name) == None;
        assert UnfoldInto(env, env[0], steps, depth - 1) == AnyOf([Absent(false)]);
      }
    }
  }

  /** `interface B { x }`, `type A = B | any`, `type T = A & B`, `type U = B & B`. */
  function SharedGuardExample(): Environment {
    map[0 := Interface([Property("x", None)], false, []),
        1 := Alias(Union([Reference(0), OutOfReach])),
        2 := Alias(Intersection([Reference(1), Reference(0)])),
        3 := Alias(Intersection([Reference(0), Reference(0)]))]
  }

  /** Sharing the guard between branches loses answers: every reading of `T` has `x`,
      yet the lookup answers `unknown` because the first branch visited `B`. A walk
      that starts with more keys guarded can even answer more. */
  lemma SharedGuardLosesAnswers()
    ensures var env, steps := SharedGuardExample(), [Member("x")];
            && Ends(env, 2, steps)
            && Exact(env, 2, steps) == Found
            && LookupPath(env, 2, steps).answer == Unknown
            && Guarded(UnfoldDecl(env, 2, steps, 3), {(1, 1)}).Some?
            && Guarded(UnfoldDecl(env, 2, steps, 3), {(1, 1)}).value.answer == Found
  {
    var env, steps := SharedGuardExample(), [Member("x")];
    ExampleUnfolds(env, steps, 3);
    GuardedT({});
    GuardedT({(1, 1)});
    LookupAt(env, 2, steps, 3);
    GuardOnlyWeakens(env, 2, steps, 3, {(1, 1)});
  }

  /** A cut need not lose the answer: the second branch of `U` is cut, and the path
      is found all the same. */
  lemma CutCanBeExact()
    ensures var env, steps := SharedGuardExample(), [Member("x")];
            Ends(env, 3, steps) && LookupPath(env, 3, steps).cut && LookupPath(env, 3, steps).answer == Found
  {
    TwiceUnfolds(SharedGuardExample(), [Member("x")], 2);
    GuardedU();
    LookupAt(SharedGuardExample(), 3, [Member("x")], 2);
  }

  function TreeOfB(): Tree {
    Met((0, 1), Answered(Found))
  }

  function TreeOfA(): Tree {
    Met((1, 1), EachOf([TreeOfB(), Answered(Unknown)]))
  }

  function TreeOfT(): Tree {
    Met((2, 1), AnyOf([TreeOfA(), TreeOfB()]))
  }

  lemma ExampleUnfolds(env: Environment, steps: seq<Step>, depth: nat)
    requires env == SharedGuardExample() && steps == [Member("x")] && depth >= 3
    ensures UnfoldDecl(env, 2, steps, depth) == TreeOfT()
  {
    UnfoldB(env, steps, depth - 2);
    UnfoldPair(env, Reference(0), OutOfReach, steps, depth - 2);
    assert UnfoldInto(env, env[1], steps, depth - 2) == EachOf([TreeOfB(), Answered(Unknown)]);
    UnfoldB(env, steps, depth - 1);
    UnfoldPair(env, Reference(1), Reference(0), steps, depth - 1);
    assert UnfoldDecl(env, 1, steps, depth - 1) == TreeOfA();
    assert UnfoldInto(env, env[2], steps, depth - 1) == AnyOf([TreeOfA(), TreeOfB()]);
  }

  lemma UnfoldB(env: Environment, steps: seq<Step>, depth: nat)
    requires 0 in env && env[0] == Interface([Property("x", None)], false, []) && steps == [Member("x")] && depth > 0
    ensures UnfoldDecl(env, 0, steps, depth) == TreeOfB()
  {
    var property: Property := Property("x", None);
    assert FirstProperty([property], "x") == Some(property);
    assert UnfoldInto(env, env[0], steps, depth - 1) == UnfoldProperty(env, property, steps, depth - 1);
  }

  lemma UnfoldPair(env: Environment, a: Ty, b: Ty, steps: seq<Step>, depth: nat)
    ensures UnfoldAll(env, [a, b], steps, depth) == [UnfoldTy(env, a, steps, depth), UnfoldTy(env, b, steps, depth)]
  {
    assert [a, b][1..] == [b] && [b][1..] == [];
    assert UnfoldAll(env, [b], steps, depth) == [UnfoldTy(env, b, steps, depth)];
  }

  lemma GuardedA(seen: set<Key>)
    requires (0, 1) !in seen
    ensures Guarded(TreeOfA(), seen)
            == Some(if (1, 1) in seen then Walked(Unknown, seen, true)
                    else Walked(Unknown, seen + {(1, 1)} + {(0, 1)}, false))
  {
    GuardedPair(TreeOfB(), Answered(Unknown), seen + {(1, 1)});
    AnswersOfTwo(Found, Unknown);
  }

  lemma GuardedT(seen: set<Key>)
    requires (0, 1) !in seen && (2, 1) !in seen
    ensures Guarded(TreeOfT(), seen).Some?
    ensures Guarded(TreeOfT(), seen).value.answer == if (1, 1) in seen then Found else Unknown
  {
    GuardedA(seen + {(2, 1)});
    GuardedPair(TreeOfA(), TreeOfB(), seen + {(2, 1)});
    AnswersOfTwo(Unknown, Unknown);
    AnswersOfTwo(Unknown, Found);
  }

  lemma GuardedPair(a: Tree, b: Tree, seen: set<Key>)
    requires Guarded(a, seen).Some? && Guarded(b, Guarded(a, seen).value.seen).Some?
    ensures var first := Guarded(a, seen).value;
            var second := Guarded(b, first.seen).value;
            GuardedAll([a, b], seen)
            == Some(WalkedAll([first.answer, second.answer], second.seen, first.cut || second.cut))
  {
    var first := Guarded(a, seen).value;
    var second := Guarded(b, first.seen).value;
    assert [a, b][1..] == [b] && [b][1..] == [];
    var none: seq<Answer> := [];
    assert [second.answer] + none == [second.answer];
    assert GuardedAll([], second.seen) == Some(WalkedAll(none, second.seen, false));
    assert GuardedAll([b], first.seen) == Some(WalkedAll([second.answer], second.seen, second.cut));
    assert [first.answer] + [second.answer] == [first.answer, second.answer];
  }

  lemma AnswersOfTwo(a: Answer, b: Answer)
    ensures Combine([a, b]) == (if a == Found || b == Found then Found
                                else if a == Unknown || b == Unknown then Unknown else Missing)
    ensures Agree([a, b]) == if a == b then a else Unknown
  {
    assert a in [a, b] && b in [a, b];
  }

  function TreeOfU(): Tree {
    Met((3, 1), AnyOf([TreeOfB(), TreeOfB()]))
  }

  lemma GuardedU()
    ensures Guarded(TreeOfU(), {}) == Some(Walked(Found, {(3, 1), (0, 1)}, true))
  {
    var none: set<Key> := {};
    assert none + {(3, 1)} == {(3, 1)} && {(3, 1)} + {(0, 1)} == {(3, 1), (0, 1)};
    GuardedPair(TreeOfB(), TreeOfB(), {(3, 1)});
    AnswersOfTwo(Found, Unknown);
  }

  lemma TwiceUnfolds(env: Environment, steps: seq<Step>, depth: nat)
    requires env == SharedGuardExample() && steps == [Member("x")] && depth >= 2
    ensures UnfoldDecl(env, 3, steps, depth) == TreeOfU()
  {
    UnfoldB(env, steps, depth - 1);
    UnfoldPair(env, Reference(0), Reference(0), steps, depth - 1);
    assert UnfoldInto(env, env[3], steps, depth - 1) == AnyOf([TreeOfB(), TreeOfB()]);
  }

  /** `type A = A['x']` lengthens the path on every round: it has no ranking, and the
      walk of any path from it never ends, because the guard never meets a length
      again. */
  lemma SelfIndexedAliasNeverEnds(decl: DeclId, key: string, steps: seq<Step>)
    requires steps != []
    ensures var env: Environment := map[decl := Alias(Indexed(Reference(decl), key))];
            !Bounded(env) && !Ends(env, decl, steps)
  {
    var env: Environment := map[decl := Alias(Indexed(Reference(decl), key))];
    var graph := ReferenceGraph(env);
    assert References(Indexed(Reference(decl), key), 0) == References(Reference(decl), 1) == [Edge(decl, 1)];
    SelfLoopGains(graph, decl, 1);
    forall depth
      ensures Guarded(UnfoldDecl(env, decl, steps, depth), {}).None?
    {
      SelfIndexedGoesOn(env, decl, key, steps, depth, {});
    }
  }

  lemma {:induction false} SelfIndexedGoesOn(env: Environment, decl: DeclId, key: string, steps: seq<Step>,
                                             depth: nat, seen: set<Key>)
    requires decl in env && env[decl] == Alias(Indexed(Reference(decl), key)) && steps != []
    requires forall met :: met in seen ==> met.1 < |steps|
    ensures Guarded(UnfoldDecl(env, decl, steps, depth), seen).None?
    decreases depth
  {
    if depth > 0 {
      var longer := [Member(key)] + steps;
      SelfIndexedGoesOn(env, decl, key, longer, depth - 1, seen + {(decl, |steps|)});
      assert UnfoldTy(env, Reference(decl), longer, depth - 1) == UnfoldDecl(env, decl, longer, depth - 1);
      assert UnfoldTy(env, Indexed(Reference(decl), key), steps, depth - 1)
             == UnfoldTy(env, Reference(decl), longer, depth - 1);
    }
  }

  /** `type A = { y: A['x']['z'] }`. */
  function NamesDifferExample(): Environment {
    map[0 := Alias(Literal([Property("y", Some(Indexed(Indexed(Reference(0), "x"), "z")))], false))]
  }

  /** A cycle that lengthens the path does not keep the walk from ending where the
      names on it do not match: having no such cycle is sufficient only. */
  lemma LengtheningCycleCanEnd(steps: seq<Step>)
    ensures !Bounded(NamesDifferExample()) && Ends(NamesDifferExample(), 0, steps)
  {
    var env := NamesDifferExample();
    NamesDifferUnbounded();
    assert Guarded(UnfoldDecl(env, 0, steps, 2), {}).Some? by {
      NamesDifferWalk(env, steps);
    }
  }

  lemma NamesDifferUnbounded()
    ensures !Bounded(NamesDifferExample())
  {
    var env := NamesDifferExample();
    var ty: Ty := Indexed(Indexed(Reference(0), "x"), "z");
    assert References(ty, -1) == References(Indexed(Reference(0), "x"), 0);
    assert References(Indexed(Reference(0), "x"), 0) == References(Reference(0), 1) == [Edge(0, 1)];
    assert PropertyReference(Property("y", Some(ty)), -1) == [Edge(0, 1)];
    assert PropertyReferences([Property("y", Some(ty))], -1) == [Edge(0, 1)];
    assert ReferenceGraph(env)[0] == [Edge(0, 1)];
    SelfLoopGains(ReferenceGraph(env), 0, 1);
  }

  lemma NamesDifferWalk(env: Environment, steps: seq<Step>)
    requires env == NamesDifferExample()
    ensures Guarded(UnfoldDecl(env, 0, steps, 2), {}).Some?
  {
    var ty: Ty := Indexed(Indexed(Reference(0), "x"), "z");
    var property: Property := Property("y", Some(ty));
    if steps != [] && steps[0].Member? {
      if steps[0].name == "y" {
        assert FirstProperty([property], "y") == Some(property);
        assert UnfoldInto(env, env[0], steps, 1) == UnfoldProperty(env, property, steps, 1);
        if |steps| > 1 {
          NamesDifferBelow(env, ty, steps[1..]);
          assert UnfoldDecl(env, 0, steps, 2) == Met((0, |steps|), Met((0, |steps| + 1), Absent(false)));
          var none: set<Key> := {};
          assert Guarded(Met((0, |steps| + 1), Absent(false)), none + {(0, |steps|)}).Some?;
        }
      } else {
        assert FirstProperty([property], steps[0].name) == None;
        assert UnfoldInto(env, env[0], steps, 1) == Absent(false);
      }
    }
  }

  lemma NamesDifferBelow(env: Environment, ty: Ty, steps: seq<Step>)
    requires env == NamesDifferExample() && ty == Indexed(Indexed(Reference(0), "x"), "z") && steps != []
    ensures UnfoldTy(env, ty, steps, 1) == Met((0, |steps| + 2), Absent(false))
  {
    var property: Property := env[0].ty.members[0];
    var longer, longest := [Member("z")] + steps, [Member("x")] + ([Member("z")] + steps);
    assert FirstProperty([property], "x") == None;
    assert UnfoldInto(env, env[0], longest, 0) == Absent(false);
    assert UnfoldTy(env, Reference(0), longest, 1) == Met((0, |steps| + 2), Absent(false));
    assert UnfoldTy(env, Indexed(Reference(0), "x"), longer, 1) == UnfoldTy(env, Reference(0), longest, 1);
  }

  /** `type R = { [key: string]: T }` answers `missing` for every name, although the
      declaration allows it. */
  lemma IndexSignatureMissing(name: string)
    ensures var env: Environment, steps := map[0 := Alias(Literal([], true))], [Member(name)];
            && Ends(env, 0, steps) && LookupPath(env, 0, steps).answer == Missing
            && Overlooked(env, 0, steps) && Exact(env, 0, steps) == Unknown
  {
    var env: Environment, steps := map[0 := Alias(Literal([], true))], [Member(name)];
    assert UnfoldDecl(env, 0, steps, 1) == Met((0, 1), Absent(true));
    LookupAt(env, 0, steps, 1);
    MissingUnlessOverlooked(env, 0, steps, 1, {});
  }
}
