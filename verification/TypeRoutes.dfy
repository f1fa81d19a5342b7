/** How many ways a lookup can meet one declaration with one path length, whatever
    the names on the path: where there is never more than one, the guard cuts nothing. */
module TypeRoutes {
  import opened SchemaPaths
  import opened TypeGraph
  import opened TypeWalk
  import opened TypeUnfolding

  function Max(a: nat, b: nat): nat {
    if a < b then b else a
  }

  /** The most ways in which one path of `length` steps can meet `key`, following at
      most `hops` references: parts, branches and bases are all taken, but of the
      members of a type at most one, and bases only where no member is. */
  function Ways(env: Environment, decl: DeclId, length: nat, key: Key, hops: nat): nat
    decreases hops, 0
  {
    if decl !in env || length == 0 then 0
    else (if key == (decl, length) then 1 else 0)
         + (if hops == 0 then 0 else WaysInto(env, env[decl], length, key, hops - 1))
  }

  function WaysInto(env: Environment, declaration: Declaration, length: nat, key: Key, hops: nat): nat
    requires length > 0
    decreases hops, 2
  {
    match declaration
    case Alias(ty) => TyWays(env, ty, length, key, hops)
    case Interface(members, _, bases) =>
      Max(MemberWays(env, members, length - 1, key, hops), BaseWays(env, bases, length, key, hops))
  }

  function BaseWays(env: Environment, bases: seq<DeclId>, length: nat, key: Key, hops: nat): nat
    decreases hops, 1, bases
  {
    if bases == [] then 0
    else Ways(env, bases[0], length, key, hops) + BaseWays(env, bases[1..], length, key, hops)
  }

  function MemberWays(env: Environment, members: seq<Property>, length: nat, key: Key, hops: nat): nat
    decreases hops, 1, members
  {
    if members == [] then 0
    else Max(PropertyWays(env, members[0], length, key, hops), MemberWays(env, members[1..], length, key, hops))
  }

  function PropertyWays(env: Environment, property: Property, length: nat, key: Key, hops: nat): nat
    decreases hops, 1, property
  {
    match property
    case Property(_, ty) => if ty.Some? then TyWays(env, ty.value, length, key, hops) else 0
  }

  function TyWays(env: Environment, ty: Ty, length: nat, key: Key, hops: nat): nat
    decreases hops, 1, ty
  {
    if length == 0 then 0 else
    match ty
    case Literal(members, _) => MemberWays(env, members, length - 1, key, hops)
    case Wrapped(inner) => TyWays(env, inner, length, key, hops)
    case Intersection(parts) => AllWays(env, parts, length, key, hops)
    case Union(branches) => AllWays(env, branches, length, key, hops)
    case ArrayOf(element) => TyWays(env, element, length - 1, key, hops)
    case Indexed(owner, _) => TyWays(env, owner, length + 1, key, hops)
    case Reference(decl) => Ways(env, decl, length, key, hops)
    case OutOfReach => 0
  }

  function AllWays(env: Environment, types: seq<Ty>, length: nat, key: Key, hops: nat): nat
    decreases hops, 1, types
  {
    if types == [] then 0
    else TyWays(env, types[0], length, key, hops) + AllWays(env, types[1..], length, key, hops)
  }

  /** No path of `length` steps can meet a declaration in two ways with equally many
      steps left. */
  ghost predicate ReachedOnce(env: Environment, decl: DeclId, length: nat) {
    forall key, hops {:trigger Ways(env, decl, length, key, hops)} :: Ways(env, decl, length, key, hops) <= 1
  }

  // ---- A key is met at most once for every way to it ----

  lemma {:induction false} DeclWays(env: Environment, decl: DeclId, steps: seq<Step>, depth: nat, key: Key)
    ensures Times(KeysMet(UnfoldDecl(env, decl, steps, depth)), key) <= Ways(env, decl, |steps|, key, depth)
    decreases depth, 0
  {
    if decl in env && steps != [] {
      var here := (decl, |steps|);
      var below := if depth == 0 then Deeper else UnfoldInto(env, env[decl], steps, depth - 1);
      TimesJoin([here], KeysMet(below), key);
      if depth > 0 {
        IntoWays(env, env[decl], steps, depth - 1, key);
      }
    }
  }

  lemma {:induction false} IntoWays(env: Environment, declaration: Declaration, steps: seq<Step>, depth: nat, key: Key)
    requires steps != []
    ensures Times(KeysMet(UnfoldInto(env, declaration, steps, depth)), key)
            <= WaysInto(env, declaration, |steps|, key, depth)
    decreases depth, 2
  {
    match declaration
    case Alias(ty) => TypeWays(env, ty, steps, depth, key);
    case Interface(members, others, bases) =>
      if steps[0].Member? {
        match FirstProperty(members, steps[0].name)
        case Some(property) => ViaProperty(env, members, property, steps, depth, key);
        case None =>
          ViaBases(env, bases, steps, depth, key);
          TimesFirst(Absent(others), UnfoldBases(env, bases, steps, depth), key);
      }
  }

  lemma {:induction false} ViaBases(env: Environment, bases: seq<DeclId>, steps: seq<Step>, depth: nat, key: Key)
    ensures Times(AllKeysMet(UnfoldBases(env, bases, steps, depth)), key) <= BaseWays(env, bases, |steps|, key, depth)
    decreases depth, 1, bases
  {
    if bases != [] {
      DeclWays(env, bases[0], steps, depth, key);
      ViaBases(env, bases[1..], steps, depth, key);
      TimesFirst(UnfoldDecl(env, bases[0], steps, depth), UnfoldBases(env, bases[1..], steps, depth), key);
    }
  }

  lemma {:induction false} ViaProperty(env: Environment, members: seq<Property>, property: Property, steps: seq<Step>,
                                       depth: nat, key: Key)
    requires steps != [] && property in members
    ensures Times(KeysMet(UnfoldProperty(env, property, steps, depth)), key)
            <= MemberWays(env, members, |steps| - 1, key, depth)
    decreases depth, 1, property
  {
    if |steps| > 1 && property.ty.Some? {
      var rest := steps[1..];
      TypeWays(env, property.ty.value, rest, depth, key);
      OneOfMembers(env, members, property, |rest|, key, depth);
    }
  }

  lemma {:induction false} OneOfMembers(env: Environment, members: seq<Property>, property: Property, length: nat,
                                        key: Key, hops: nat)
    requires property in members
    ensures PropertyWays(env, property, length, key, hops) <= MemberWays(env, members, length, key, hops)
  {
    if members[0] != property {
      OneOfMembers(env, members[1..], property, length, key, hops);
    }
  }

  lemma {:induction false} TypeWays(env: Environment, ty: Ty, steps: seq<Step>, depth: nat, key: Key)
    ensures Times(KeysMet(UnfoldTy(env, ty, steps, depth)), key) <= TyWays(env, ty, |steps|, key, depth)
    decreases depth, 1, ty
  {
    if steps != [] {
      match ty
      case Literal(members, _) =>
        if steps[0].Member? {
          match FirstProperty(members, steps[0].name)
          case Some(property) => ViaProperty(env, members, property, steps, depth, key);
          case None =>
        }
      case Wrapped(inner) => TypeWays(env, inner, steps, depth, key);
      case Intersection(parts) => ViaAll(env, parts, steps, depth, key);
      case Union(branches) => ViaAll(env, branches, steps, depth, key);
      case ArrayOf(element) =>
        if steps[0].Element? {
          TypeWays(env, element, steps[1..], depth, key);
        }
      case Indexed(owner, name) => TypeWays(env, owner, [Member(name)] + steps, depth, key);
      case Reference(decl) => DeclWays(env, decl, steps, depth, key);
      case OutOfReach =>
    }
  }

  lemma {:induction false} ViaAll(env: Environment, types: seq<Ty>, steps: seq<Step>, depth: nat, key: Key)
    ensures Times(AllKeysMet(UnfoldAll(env, types, steps, depth)), key) <= AllWays(env, types, |steps|, key, depth)
    decreases depth, 1, types
  {
    if types != [] {
      TypeWays(env, types[0], steps, depth, key);
      ViaAll(env, types[1..], steps, depth, key);
      TimesFirst(UnfoldTy(env, types[0], steps, depth), UnfoldAll(env, types[1..], steps, depth), key);
    }
  }
}
