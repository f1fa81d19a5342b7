/** The two quantified views of a type agree with quantifying over its readings. */
module TypeReadings {
  import opened Options
  import opened SchemaPaths
  import opened TypeGraph
  import opened TypeSoundness

  // ---- One view simulates another ----

  /** Presence under `a` on every branch carries over, so presence on the union does. */
  ghost predicate UnionsFollow(env: Environment, a: View, b: View) {
    forall branches, steps, depth {:trigger UnionHas(env, b, branches, steps, depth)} ::
      && (forall i :: 0 <= i < |branches| && TyHas(env, a, branches[i], steps, depth) ==>
            TyHas(env, b, branches[i], steps, depth))
      && UnionHas(env, a, branches, steps, depth)
      ==> UnionHas(env, b, branches, steps, depth)
  }

  ghost predicate GuessesFollow(a: View, b: View) {
    forall ty, steps :: Guess(a, ty, steps) ==> Guess(b, ty, steps)
  }

  lemma {:induction false} DeclFollows(env: Environment, a: View, b: View, decl: DeclId, steps: seq<Step>, depth: nat)
    requires UnionsFollow(env, a, b) && GuessesFollow(a, b)
    requires DeclHas(env, a, decl, steps, depth)
    ensures DeclHas(env, b, decl, steps, depth)
    decreases depth, 0
  {
    if decl in env && steps != [] {
      match env[decl]
      case Alias(ty) => TyFollows(env, a, b, ty, steps, depth - 1);
      case Interface(members, others, bases) =>
        if steps[0].Member? {
          match FirstProperty(members, steps[0].name)
          case Some(property) => PropertyFollows(env, a, b, property, steps, depth - 1);
          case None =>
            if i :| 0 <= i < |bases| && DeclHas(env, a, bases[i], steps, depth - 1) {
              DeclFollows(env, a, b, bases[i], steps, depth - 1);
            }
        }
    }
  }

  lemma {:induction false} PropertyFollows(env: Environment, a: View, b: View, property: Property, steps: seq<Step>,
                                           depth: nat)
    requires UnionsFollow(env, a, b) && GuessesFollow(a, b)
    requires steps != [] && PropertyHas(env, a, property, steps, depth)
    ensures PropertyHas(env, b, property, steps, depth)
    decreases depth, 1, property
  {
    if |steps| > 1 && property.ty.Some? {
      TyFollows(env, a, b, property.ty.value, steps[1..], depth);
    }
  }

  lemma {:induction false} TyFollows(env: Environment, a: View, b: View, ty: Ty, steps: seq<Step>, depth: nat)
    requires UnionsFollow(env, a, b) && GuessesFollow(a, b)
    requires TyHas(env, a, ty, steps, depth)
    ensures TyHas(env, b, ty, steps, depth)
    decreases depth, 1, ty
  {
    if steps != [] {
      match ty
      case Literal(members, _) =>
        if steps[0].Member? {
          match FirstProperty(members, steps[0].name)
          case Some(property) => PropertyFollows(env, a, b, property, steps, depth);
          case None =>
        }
      case Wrapped(inner) => TyFollows(env, a, b, inner, steps, depth);
      case Intersection(parts) =>
        var i :| 0 <= i < |parts| && TyHas(env, a, parts[i], steps, depth);
        TyFollows(env, a, b, parts[i], steps, depth);
      case Union(branches) =>
        forall i | 0 <= i < |branches| && TyHas(env, a, branches[i], steps, depth)
          ensures TyHas(env, b, branches[i], steps, depth)
        {
          TyFollows(env, a, b, branches[i], steps, depth);
        }
      case ArrayOf(element) =>
        if steps[0].Element? {
          TyFollows(env, a, b, element, steps[1..], depth);
        }
      case Indexed(owner, key) => TyFollows(env, a, b, owner, [Member(key)] + steps, depth);
      case Reference(decl) => DeclFollows(env, a, b, decl, steps, depth);
      case OutOfReach =>
    }
  }

  // ---- Extreme branches: presence at a depth is upward closed, so branches compare ----

  /** Wherever branch `i` has the path, branch `j` has it. */
  ghost predicate NoEasier(env: Environment, view: View, branches: seq<Ty>, steps: seq<Step>, i: nat, j: nat)
    requires i < |branches| && j < |branches|
  {
    forall depth :: TyHas(env, view, branches[i], steps, depth) ==> TyHas(env, view, branches[j], steps, depth)
  }

  lemma BranchesCompare(env: Environment, view: View, branches: seq<Ty>, steps: seq<Step>, i: nat, j: nat)
    requires i < |branches| && j < |branches|
    ensures NoEasier(env, view, branches, steps, i, j) || NoEasier(env, view, branches, steps, j, i)
  {
    if !NoEasier(env, view, branches, steps, i, j) {
      var depth :| TyHas(env, view, branches[i], steps, depth) && !TyHas(env, view, branches[j], steps, depth);
      forall other | TyHas(env, view, branches[j], steps, other)
        ensures TyHas(env, view, branches[i], steps, other)
      {
        if other <= depth {
          TyDeepens(env, view, branches[j], steps, other, depth);
        }
        TyDeepens(env, view, branches[i], steps, depth, other);
      }
    }
  }

  lemma NoEasierTransitive(env: Environment, view: View, branches: seq<Ty>, steps: seq<Step>, i: nat, j: nat, k: nat)
    requires i < |branches| && j < |branches| && k < |branches|
    ensures NoEasier(env, view, branches, steps, i, j) && NoEasier(env, view, branches, steps, j, k) ==>
              NoEasier(env, view, branches, steps, i, k)
  {
  }

  ghost predicate Hardest(env: Environment, view: View, branches: seq<Ty>, steps: seq<Step>, i: nat) {
    i < |branches| && forall j :: 0 <= j < |branches| ==> NoEasier(env, view, branches, steps, i, j)
  }

  ghost predicate Easiest(env: Environment, view: View, branches: seq<Ty>, steps: seq<Step>, i: nat) {
    i < |branches| && forall j :: 0 <= j < |branches| ==> NoEasier(env, view, branches, steps, j, i)
  }

  lemma {:induction false} ExtremesExist(env: Environment, view: View, branches: seq<Ty>, steps: seq<Step>, n: nat)
    returns (hard: nat, easy: nat)
    requires 0 < n <= |branches|
    ensures hard < n && forall j :: 0 <= j < n ==> NoEasier(env, view, branches, steps, hard, j)
    ensures easy < n && forall j :: 0 <= j < n ==> NoEasier(env, view, branches, steps, j, easy)
  {
    hard, easy := 0, 0;
    if n == 1 {
      BranchesCompare(env, view, branches, steps, 0, 0);
    } else {
      var hard', easy' := ExtremesExist(env, view, branches, steps, n - 1);
      BranchesCompare(env, view, branches, steps, hard', n - 1);
      BranchesCompare(env, view, branches, steps, easy', n - 1);
      hard := if NoEasier(env, view, branches, steps, n - 1, hard') then n - 1 else hard';
      easy := if NoEasier(env, view, branches, steps, easy', n - 1) then n - 1 else easy';
      BranchesCompare(env, view, branches, steps, n - 1, n - 1);
      forall j | 0 <= j < n
        ensures NoEasier(env, view, branches, steps, hard, j) && NoEasier(env, view, branches, steps, j, easy)
      {
        if j < n - 1 {
          NoEasierTransitive(env, view, branches, steps, n - 1, hard', j);
          NoEasierTransitive(env, view, branches, steps, j, easy', n - 1);
        }
      }
    }
  }

  ghost function HardestBranch(env: Environment, branches: seq<Ty>, steps: seq<Step>): nat {
    if exists i: nat :: Hardest(env, EveryReading, branches, steps, i)
    then var i: nat :| Hardest(env, EveryReading, branches, steps, i); i
    else 0
  }

  ghost function EasiestBranch(env: Environment, branches: seq<Ty>, steps: seq<Step>): nat {
    if exists i: nat :: Easiest(env, SomeReading, branches, steps, i)
    then var i: nat :| Easiest(env, SomeReading, branches, steps, i); i
    else 0
  }

  /** The reading that denies whatever it can, and the one that grants it. */
  ghost function Skeptic(env: Environment): View {
    Reading((branches, steps) => HardestBranch(env, branches, steps), (ty, steps) => false)
  }

  ghost function Believer(env: Environment): View {
    Reading((branches, steps) => EasiestBranch(env, branches, steps), (ty, steps) => true)
  }

  lemma SkepticFollows(env: Environment)
    ensures UnionsFollow(env, Skeptic(env), EveryReading) && GuessesFollow(Skeptic(env), EveryReading)
  {
    var skeptic := Skeptic(env);
    forall branches, steps, depth: nat |
      && (forall i :: 0 <= i < |branches| && TyHas(env, skeptic, branches[i], steps, depth) ==>
            TyHas(env, EveryReading, branches[i], steps, depth))
      && UnionHas(env, skeptic, branches, steps, depth)
      ensures UnionHas(env, EveryReading, branches, steps, depth)
    {
      if branches != [] {
        HardestExists(env, branches, steps);
        HardestHas(env, branches, steps, depth);
      }
    }
  }

  lemma HardestExists(env: Environment, branches: seq<Ty>, steps: seq<Step>)
    requires branches != []
    ensures var i := HardestBranch(env, branches, steps);
            Hardest(env, EveryReading, branches, steps, i) && i % |branches| == i
  {
    var hard, _ := ExtremesExist(env, EveryReading, branches, steps, |branches|);
    assert Hardest(env, EveryReading, branches, steps, hard);
  }

  /** Every branch has the path wherever the hardest one has it. */
  lemma HardestHas(env: Environment, branches: seq<Ty>, steps: seq<Step>, depth: nat)
    requires var i := HardestBranch(env, branches, steps);
             Hardest(env, EveryReading, branches, steps, i) && TyHas(env, EveryReading, branches[i], steps, depth)
    ensures forall j :: 0 <= j < |branches| ==> TyHas(env, EveryReading, branches[j], steps, depth)
  {
    var i := HardestBranch(env, branches, steps);
    forall j | 0 <= j < |branches|
      ensures TyHas(env, EveryReading, branches[j], steps, depth)
    {
      assert NoEasier(env, EveryReading, branches, steps, i, j);
    }
  }

  lemma BelieverFollows(env: Environment)
    ensures UnionsFollow(env, SomeReading, Believer(env)) && GuessesFollow(SomeReading, Believer(env))
  {
    var believer := Believer(env);
    forall branches, steps, depth: nat |
      && (forall i :: 0 <= i < |branches| && TyHas(env, SomeReading, branches[i], steps, depth) ==>
            TyHas(env, believer, branches[i], steps, depth))
      && UnionHas(env, SomeReading, branches, steps, depth)
      ensures UnionHas(env, believer, branches, steps, depth)
    {
      if branches != [] {
        var j :| 0 <= j < |branches| && TyHas(env, SomeReading, branches[j], steps, depth);
        EasiestHas(env, branches, steps, depth, j);
      }
    }
  }

  /** The easiest branch has the path wherever some branch has it. */
  lemma EasiestHas(env: Environment, branches: seq<Ty>, steps: seq<Step>, depth: nat, j: nat)
    requires j < |branches| && TyHas(env, SomeReading, branches[j], steps, depth)
    ensures var i := EasiestBranch(env, branches, steps);
            i < |branches| && i % |branches| == i && TyHas(env, SomeReading, branches[i], steps, depth)
  {
    EasiestExists(env, branches, steps);
    assert NoEasier(env, SomeReading, branches, steps, j, EasiestBranch(env, branches, steps));
  }

  lemma EasiestExists(env: Environment, branches: seq<Ty>, steps: seq<Step>)
    requires branches != []
    ensures var i := EasiestBranch(env, branches, steps);
            Easiest(env, SomeReading, branches, steps, i) && i % |branches| == i
  {
    var _, easy: nat := ExtremesExist(env, SomeReading, branches, steps, |branches|);
    assert Easiest(env, SomeReading, branches, steps, easy);
  }

  lemma ReadingBetween(env: Environment, reading: View)
    requires reading.Reading?
    ensures UnionsFollow(env, EveryReading, reading) && GuessesFollow(EveryReading, reading)
    ensures UnionsFollow(env, reading, SomeReading) && GuessesFollow(reading, SomeReading)
  {
  }

  lemma PresenceFollows(env: Environment, a: View, b: View, decl: DeclId, steps: seq<Step>)
    requires UnionsFollow(env, a, b) && GuessesFollow(a, b)
    ensures Present(env, a, decl, steps) ==> Present(env, b, decl, steps)
  {
    if Present(env, a, decl, steps) {
      var depth :| DeclHas(env, a, decl, steps, depth);
      DeclFollows(env, a, b, decl, steps, depth);
    }
  }

  /** Present in the "every" view exactly when present in every reading. */
  lemma EveryMeansEvery(env: Environment, decl: DeclId, steps: seq<Step>)
    ensures Present(env, EveryReading, decl, steps) <==>
            forall reading: View :: reading.Reading? ==> Present(env, reading, decl, steps)
  {
    forall reading: View | reading.Reading?
      ensures Present(env, EveryReading, decl, steps) ==> Present(env, reading, decl, steps)
    {
      ReadingBetween(env, reading);
      PresenceFollows(env, EveryReading, reading, decl, steps);
    }
    SkepticFollows(env);
    PresenceFollows(env, Skeptic(env), EveryReading, decl, steps);
  }

  /** Present in the "some" view exactly when present in some reading. */
  lemma SomeMeansSome(env: Environment, decl: DeclId, steps: seq<Step>)
    ensures Present(env, SomeReading, decl, steps) <==>
            exists reading: View :: reading.Reading? && Present(env, reading, decl, steps)
  {
    forall reading: View | reading.Reading?
      ensures Present(env, reading, decl, steps) ==> Present(env, SomeReading, decl, steps)
    {
      ReadingBetween(env, reading);
      PresenceFollows(env, reading, SomeReading, decl, steps);
    }
    BelieverFollows(env);
    PresenceFollows(env, SomeReading, Believer(env), decl, steps);
  }
}
