/** `lookupPath`: the three-valued walk of a schema path over declared types, with
    its guard set of visited (declaration, path length) pairs shared by all branches. */
module TypeWalk {
  import opened Options
  import opened Potentials
  import opened SchemaPaths
  import opened TypeGraph

  datatype Answer = Found | Missing | Unknown

  /** A named declaration visited with a path of the given length. */
  type Key = (DeclId, nat)

  /** An answer, the guard set it leaves, and whether the guard cut the walk short. */
  datatype Walked = Walked(answer: Answer, seen: set<Key>, cut: bool)

  datatype WalkedAll = WalkedAll(answers: seq<Answer>, seen: set<Key>, cut: bool)

  /** Any found wins, else any unknown taints, else missing. */
  function Combine(answers: seq<Answer>): Answer {
    if Found in answers then Found
    else if Unknown in answers then Unknown
    else Missing
  }

  /** Presence on a union is definite only when every branch agrees. */
  function Agree(answers: seq<Answer>): Answer {
    if forall a :: a in answers ==> a == Found then Found
    else if forall a :: a in answers ==> a == Missing then Missing
    else Unknown
  }

  // ---- The finitely many keys a walk can meet ----

  function Keys(env: Environment, bound: nat): set<Key> {
    set decl, length | decl in env && 0 <= length <= bound :: (decl, length)
  }

  /** Every reference is met with a path whose length leaves room for its potential. */
  ghost predicate Within(edges: seq<Edge<DeclId>>, phi: map<DeclId, nat>, bound: nat) {
    forall edge :: edge in edges && edge.target in phi ==> phi[edge.target] + edge.gain <= bound
  }

  lemma {:induction false} ReferencesShift(ty: Ty, gain: int, k: int, edge: Edge<DeclId>)
    requires edge in References(ty, gain + k)
    ensures Edge(edge.target, edge.gain - k) in References(ty, gain)
    decreases ty
  {
    match ty
    case Literal(members, _) => PropertyReferencesShift(members, gain - 1, k, edge);
    case Wrapped(inner) => ReferencesShift(inner, gain, k, edge);
    case Intersection(parts) => AllReferencesShift(parts, gain, k, edge);
    case Union(branches) => AllReferencesShift(branches, gain, k, edge);
    case ArrayOf(element) => ReferencesShift(element, gain - 1, k, edge);
    case Indexed(owner, _) => ReferencesShift(owner, gain + 1, k, edge);
    case Reference(_) =>
    case OutOfReach =>
  }

  lemma {:induction false} AllReferencesShift(types: seq<Ty>, gain: int, k: int, edge: Edge<DeclId>)
    requires edge in AllReferences(types, gain + k)
    ensures Edge(edge.target, edge.gain - k) in AllReferences(types, gain)
    decreases types
  {
    if edge in References(types[0], gain + k) {
      ReferencesShift(types[0], gain, k, edge);
    } else {
      AllReferencesShift(types[1..], gain, k, edge);
    }
  }

  lemma {:induction false} PropertyReferencesShift(members: seq<Property>, gain: int, k: int, edge: Edge<DeclId>)
    requires edge in PropertyReferences(members, gain + k)
    ensures Edge(edge.target, edge.gain - k) in PropertyReferences(members, gain)
    decreases members
  {
    if edge in PropertyReference(members[0], gain + k) {
      PropertyReferenceShift(members[0], gain, k, edge);
    } else {
      PropertyReferencesShift(members[1..], gain, k, edge);
    }
  }

  lemma {:induction false} PropertyReferenceShift(property: Property, gain: int, k: int, edge: Edge<DeclId>)
    requires edge in PropertyReference(property, gain + k)
    ensures Edge(edge.target, edge.gain - k) in PropertyReference(property, gain)
    decreases property
  {
    ReferencesShift(property.ty.value, gain, k, edge);
  }

  lemma {:induction false} PropertyInMembers(members: seq<Property>, property: Property, gain: int, edge: Edge<DeclId>)
    requires property in members && property.ty.Some?
    requires edge in References(property.ty.value, gain)
    ensures edge in PropertyReferences(members, gain)
  {
    if members[0] != property {
      PropertyInMembers(members[1..], property, gain, edge);
    }
  }

  lemma PropertyWithin(members: seq<Property>, property: Property, gain: int, phi: map<DeclId, nat>, bound: nat)
    requires property in members && property.ty.Some?
    requires Within(PropertyReferences(members, gain), phi, bound)
    ensures Within(References(property.ty.value, gain), phi, bound)
  {
    forall edge | edge in References(property.ty.value, gain)
      ensures edge in PropertyReferences(members, gain)
    {
      PropertyInMembers(members, property, gain, edge);
    }
  }

  ghost predicate Ranked(env: Environment, phi: map<DeclId, nat>) {
    Potential(ReferenceGraph(env), phi)
  }

  lemma AliasWithin(env: Environment, phi: map<DeclId, nat>, decl: DeclId, length: nat, bound: nat)
    requires Ranked(env, phi) && decl in env && env[decl].Alias? && length + phi[decl] <= bound
    ensures Within(References(env[decl].ty, length), phi, bound)
  {
    forall edge | edge in References(env[decl].ty, length) && edge.target in phi
      ensures phi[edge.target] + edge.gain <= bound
    {
      ReferencesShift(env[decl].ty, 0, length, edge);
      assert Edge(edge.target, edge.gain - length) in ReferenceGraph(env)[decl];
    }
  }

  lemma MembersWithin(env: Environment, phi: map<DeclId, nat>, decl: DeclId, length: nat, bound: nat)
    requires Ranked(env, phi) && decl in env && env[decl].Interface? && length + phi[decl] <= bound
    ensures Within(PropertyReferences(env[decl].members, length - 1), phi, bound)
  {
    forall edge | edge in PropertyReferences(env[decl].members, length - 1) && edge.target in phi
      ensures phi[edge.target] + edge.gain <= bound
    {
      PropertyReferencesShift(env[decl].members, -1, length, edge);
      assert Edge(edge.target, edge.gain - length) in ReferenceGraph(env)[decl];
    }
  }

  lemma BasesWithin(env: Environment, phi: map<DeclId, nat>, decl: DeclId)
    requires Ranked(env, phi) && decl in env && env[decl].Interface?
    ensures forall base :: base in env[decl].bases && base in env ==> phi[base] <= phi[decl]
  {
    var bases := env[decl].bases;
    forall base | base in bases && base in env
      ensures phi[base] <= phi[decl]
    {
      var i :| 0 <= i < |bases| && bases[i] == base;
      assert BaseReferences(bases)[i] == Edge(base, 0);
      assert Edge(base, 0) in ReferenceGraph(env)[decl];
    }
  }

  // ---- The walk ----

  ghost function WalkDecl(env: Environment, phi: map<DeclId, nat>, bound: nat,
                    decl: DeclId, steps: seq<Step>, seen: set<Key>): (r: Walked)
    requires Ranked(env, phi) && decl in env
    requires |steps| + phi[decl] <= bound && seen <= Keys(env, bound)
    ensures seen <= r.seen <= Keys(env, bound)
    decreases Keys(env, bound) - seen, 0
  {
    if steps == [] then Walked(Found, seen, false)
    else if (decl, |steps|) in seen then Walked(Unknown, seen, true)
    else
      var seen' := seen + {(decl, |steps|)};
      match env[decl]
      case Alias(ty) =>
        AliasWithin(env, phi, decl, |steps|, bound);
        WalkTy(env, phi, bound, ty, steps, seen')
      case Interface(members, _, bases) =>
        if steps[0].Element? then Walked(Unknown, seen', false) else
        match FirstProperty(members, steps[0].name)
        case Some(property) =>
          MembersWithin(env, phi, decl, |steps|, bound);
          WalkProperty(env, phi, bound, members, property, steps, seen')
        case None =>
          BasesWithin(env, phi, decl);
          var all := WalkBases(env, phi, bound, bases, steps, seen');
          Walked(Combine(all.answers), all.seen, all.cut)
  }

  ghost function WalkBases(env: Environment, phi: map<DeclId, nat>, bound: nat,
                     bases: seq<DeclId>, steps: seq<Step>, seen: set<Key>): (r: WalkedAll)
    requires Ranked(env, phi) && steps != []
    requires forall base :: base in bases && base in env ==> |steps| + phi[base] <= bound
    requires seen <= Keys(env, bound)
    ensures seen <= r.seen <= Keys(env, bound) && |r.answers| == |bases|
    decreases Keys(env, bound) - seen, 1, bases
  {
    if bases == [] then WalkedAll([], seen, false)
    else
      var first := if bases[0] in env then WalkDecl(env, phi, bound, bases[0], steps, seen)
                   else Walked(Unknown, seen, false);
      var rest := WalkBases(env, phi, bound, bases[1..], steps, first.seen);
      WalkedAll([first.answer] + rest.answers, rest.seen, first.cut || rest.cut)
  }

  ghost function WalkProperty(env: Environment, phi: map<DeclId, nat>, bound: nat,
                        members: seq<Property>, property: Property, steps: seq<Step>, seen: set<Key>): (r: Walked)
    requires Ranked(env, phi) && steps != [] && property in members
    requires Within(PropertyReferences(members, |steps| - 1), phi, bound) && seen <= Keys(env, bound)
    ensures seen <= r.seen <= Keys(env, bound)
    decreases Keys(env, bound) - seen, 1, property
  {
    if |steps| == 1 then Walked(Found, seen, false)
    else if property.ty.None? then Walked(Unknown, seen, false)
    else
      PropertyWithin(members, property, |steps| - 1, phi, bound);
      WalkTy(env, phi, bound, property.ty.value, steps[1..], seen)
  }

  ghost function WalkTy(env: Environment, phi: map<DeclId, nat>, bound: nat,
                  ty: Ty, steps: seq<Step>, seen: set<Key>): (r: Walked)
    requires Ranked(env, phi)
    requires Within(References(ty, |steps|), phi, bound) && seen <= Keys(env, bound)
    ensures seen <= r.seen <= Keys(env, bound)
    decreases Keys(env, bound) - seen, 1, ty
  {
    if steps == [] then Walked(Found, seen, false) else
    match ty
    case Literal(members, _) =>
      if steps[0].Element? then Walked(Unknown, seen, false) else (
        match FirstProperty(members, steps[0].name)
        case Some(property) => WalkProperty(env, phi, bound, members, property, steps, seen)
        case None => Walked(Missing, seen, false))
    case Wrapped(inner) => WalkTy(env, phi, bound, inner, steps, seen)
    case Intersection(parts) =>
      var all := WalkAll(env, phi, bound, parts, steps, seen);
      Walked(Combine(all.answers), all.seen, all.cut)
    case Union(branches) =>
      var all := WalkAll(env, phi, bound, branches, steps, seen);
      Walked(Agree(all.answers), all.seen, all.cut)
    case ArrayOf(element) =>
      if steps[0].Element? then WalkTy(env, phi, bound, element, steps[1..], seen) else Walked(Unknown, seen, false)
    case Indexed(owner, key) => WalkTy(env, phi, bound, owner, [Member(key)] + steps, seen)
    case Reference(decl) =>
      assert Edge(decl, |steps|) in References(ty, |steps|);
      if decl in env then WalkDecl(env, phi, bound, decl, steps, seen) else Walked(Unknown, seen, false)
    case OutOfReach => Walked(Unknown, seen, false)
  }

  ghost function WalkAll(env: Environment, phi: map<DeclId, nat>, bound: nat,
                   types: seq<Ty>, steps: seq<Step>, seen: set<Key>): (r: WalkedAll)
    requires Ranked(env, phi)
    requires Within(AllReferences(types, |steps|), phi, bound) && seen <= Keys(env, bound)
    ensures seen <= r.seen <= Keys(env, bound) && |r.answers| == |types|
    decreases Keys(env, bound) - seen, 1, types
  {
    if types == [] then WalkedAll([], seen, false)
    else
      var first := WalkTy(env, phi, bound, types[0], steps, seen);
      var rest := WalkAll(env, phi, bound, types[1..], steps, first.seen);
      WalkedAll([first.answer] + rest.answers, rest.seen, first.cut || rest.cut)
  }
}
