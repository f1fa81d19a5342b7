/** The declared types a schema path is looked up in, and what a path's presence
    means over them.

    Declarations refer to each other by id, so types may be recursive. The parser's
    nodes are taken as data, with names already resolved: a reference to a
    declaration outside the environment is one the walk cannot reach. */
module TypeGraph {
  import opened Options
  import opened Potentials
  import opened SchemaPaths

  type DeclId = nat

  datatype Property = Property(name: string, ty: Option<Ty>)

  datatype Ty =
    /** `others` where it also has members that are not properties, such as an index
        signature or a method: any name may be among them. */
    | Literal(members: seq<Property>, others: bool)
    /** Parentheses, `readonly`, and the pass-through utility wrappers. */
    | Wrapped(inner: Ty)
    | Intersection(parts: seq<Ty>)
    | Union(branches: seq<Ty>)
    /** `T[]`, `Array<T>`, and `ReadonlyArray<T>`. */
    | ArrayOf(element: Ty)
    | Indexed(owner: Ty, key: string)
    | Reference(decl: DeclId)
    /** Any other node: keywords, computed types, namespace-qualified names. */
    | OutOfReach

  datatype Declaration =
    /** `others` as for a literal, and where another declaration adds members. */
    | Interface(members: seq<Property>, others: bool, bases: seq<DeclId>)
    | Alias(ty: Ty)

  type Environment = map<DeclId, Declaration>

  function FirstProperty(members: seq<Property>, name: string): (found: Option<Property>)
    ensures found.Some? ==> found.value in members && found.value.name == name
  {
    if members == [] then None
    else if members[0].name == name then Some(members[0])
    else FirstProperty(members[1..], name)
  }

  /** No member has a name before the `i`th. */
  predicate NoneBefore(members: seq<Property>, name: string, i: nat) {
    forall j :: 0 <= j < i && j < |members| ==> members[j].name != name
  }

  /** Nothing is found exactly where no member has the name; otherwise the first is. */
  lemma {:induction false} FirstPropertyIsFirst(members: seq<Property>, name: string)
    ensures FirstProperty(members, name).None? <==> NoneBefore(members, name, |members|)
    ensures FirstProperty(members, name).Some? ==>
              exists i: nat :: i < |members| && members[i].name == name && NoneBefore(members, name, i)
                && FirstProperty(members, name) == Some(members[i])
  {
    if members != [] && members[0].name != name {
      var rest := members[1..];
      FirstPropertyIsFirst(rest, name);
      assert forall j :: 1 <= j < |members| ==> members[j] == rest[j - 1];
      if FirstProperty(rest, name).Some? {
        var i: nat :| i < |rest| && rest[i].name == name && NoneBefore(rest, name, i)
                      && FirstProperty(rest, name) == Some(rest[i]);
        assert members[i + 1] == rest[i] && NoneBefore(members, name, i + 1);
      } else {
        forall j | 0 <= j < |members|
          ensures members[j].name != name
        {
          assert j > 0 ==> members[j] == rest[j - 1];
        }
      }
    } else if members != [] {
      assert NoneBefore(members, name, 0);
    }
  }

  // ---- Presence of a path ----

  /** How to take a type. A reading settles which branch each union takes for a path
      and whether a path is present where the declaration cannot be seen through;
      the other two views ask about every reading and about some reading. */
  datatype View =
    | Reading(branch: (seq<Ty>, seq<Step>) -> nat, guess: (Ty, seq<Step>) -> bool)
    | EveryReading
    | SomeReading

  ghost predicate Guess(view: View, ty: Ty, steps: seq<Step>) {
    match view
    case Reading(_, guess) => guess(ty, steps)
    case EveryReading => false
    case SomeReading => true
  }

  /** Presence established by unfolding at most `depth` declarations. */
  ghost predicate DeclHas(env: Environment, view: View, decl: DeclId, steps: seq<Step>, depth: nat)
    decreases depth, 0
  {
    if decl !in env then Guess(view, Reference(decl), steps)
    else
      steps == [] || (depth > 0 &&
        match env[decl]
        case Alias(ty) => TyHas(env, view, ty, steps, depth - 1)
        case Interface(members, others, bases) =>
          if steps[0].Element? then Guess(view, Reference(decl), steps) else
          match FirstProperty(members, steps[0].name)
          case Some(property) => PropertyHas(env, view, property, steps, depth - 1)
          case None =>
            || (others && Guess(view, Reference(decl), steps))
            || exists i :: 0 <= i < |bases| && DeclHas(env, view, bases[i], steps, depth - 1))
  }

  ghost predicate PropertyHas(env: Environment, view: View, property: Property, steps: seq<Step>, depth: nat)
    requires steps != []
    decreases depth, 1, property
  {
    |steps| == 1 || (if property.ty.Some? then TyHas(env, view, property.ty.value, steps[1..], depth)
                     else Guess(view, OutOfReach, steps[1..]))
  }

  ghost predicate TyHas(env: Environment, view: View, ty: Ty, steps: seq<Step>, depth: nat)
    decreases depth, 1, ty
  {
    steps == [] ||
    match ty
    case Literal(members, others) =>
      if steps[0].Element? then Guess(view, ty, steps) else (
        match FirstProperty(members, steps[0].name)
        case Some(property) => PropertyHas(env, view, property, steps, depth)
        case None => others && Guess(view, ty, steps))
    case Wrapped(inner) => TyHas(env, view, inner, steps, depth)
    case Intersection(parts) => exists i :: 0 <= i < |parts| && TyHas(env, view, parts[i], steps, depth)
    case Union(branches) => UnionHas(env, view, branches, steps, depth)
    case ArrayOf(element) =>
      if steps[0].Element? then TyHas(env, view, element, steps[1..], depth) else Guess(view, ty, steps)
    case Indexed(owner, key) => TyHas(env, view, owner, [Member(key)] + steps, depth)
    case Reference(decl) => DeclHas(env, view, decl, steps, depth)
    case OutOfReach => Guess(view, ty, steps)
  }

  ghost predicate UnionHas(env: Environment, view: View, branches: seq<Ty>, steps: seq<Step>, depth: nat)
    decreases depth, 1, branches
  {
    branches == [] ||
    match view
    case Reading(branch, _) => TyHas(env, view, branches[branch(branches, steps) % |branches|], steps, depth)
    case EveryReading => forall i :: 0 <= i < |branches| ==> TyHas(env, view, branches[i], steps, depth)
    case SomeReading => exists i :: 0 <= i < |branches| && TyHas(env, view, branches[i], steps, depth)
  }

  /** Some finite unfolding establishes the path. */
  ghost predicate Present(env: Environment, view: View, decl: DeclId, steps: seq<Step>) {
    exists depth :: DeclHas(env, view, decl, steps, depth)
  }

  // ---- Which declarations a declaration leads to, and by how much the path grows ----

  /** References inside a type with the net growth of the path on the way there:
      an indexed access adds a step, a member or element hop removes one. */
  function References(ty: Ty, gain: int): seq<Edge<DeclId>>
    decreases ty
  {
    match ty
    case Literal(members, _) => PropertyReferences(members, gain - 1)
    case Wrapped(inner) => References(inner, gain)
    case Intersection(parts) => AllReferences(parts, gain)
    case Union(branches) => AllReferences(branches, gain)
    case ArrayOf(element) => References(element, gain - 1)
    case Indexed(owner, _) => References(owner, gain + 1)
    case Reference(decl) => [Edge(decl, gain)]
    case OutOfReach => []
  }

  function AllReferences(types: seq<Ty>, gain: int): seq<Edge<DeclId>>
    decreases types
  {
    if types == [] then [] else References(types[0], gain) + AllReferences(types[1..], gain)
  }

  function PropertyReferences(members: seq<Property>, gain: int): seq<Edge<DeclId>>
    decreases members
  {
    if members == [] then [] else PropertyReference(members[0], gain) + PropertyReferences(members[1..], gain)
  }

  function PropertyReference(property: Property, gain: int): seq<Edge<DeclId>>
    decreases property
  {
    match property
    case Property(_, ty) => if ty.Some? then References(ty.value, gain) else []
  }

  function BaseReferences(bases: seq<DeclId>): seq<Edge<DeclId>> {
    seq(|bases|, i requires 0 <= i < |bases| => Edge(bases[i], 0))
  }

  function DeclReferences(declaration: Declaration): seq<Edge<DeclId>> {
    match declaration
    case Alias(ty) => References(ty, 0)
    case Interface(members, _, bases) => PropertyReferences(members, -1) + BaseReferences(bases)
  }

  function ReferenceGraph(env: Environment): Weighted<DeclId> {
    map decl | decl in env :: DeclReferences(env[decl])
  }

  /** No cycle of declarations lengthens the path it carries. */
  ghost predicate Bounded(env: Environment) {
    NoGainingCycle(ReferenceGraph(env))
  }
}
