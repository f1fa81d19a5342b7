/**
 * Which of the paths a schema names the walk leaves out: those that end in a
 * shorthand of a nested object, and those that chained calls add.
 */
module SchemaOmissions {
  import opened SchemaPaths
  import opened SchemaWalk

  // ----- every emitted path is one the schema names -----

  lemma {:induction false} BaseWithin(e: Expr)
    ensures match ValueBase(e)
            case Fields(props) => Composition(e).Fields? && props <= Composition(e).props
            case _ => Composition(e) == ValueBase(e)
  {
    match e
    case Wrapped(inner) => BaseWithin(inner);
    case MethodCall(receiver, _, _) =>
      if !OverObject(e, "object") && !OverAny(e, "array") {
        BaseWithin(receiver);
      }
    case _ =>
  }

  lemma {:induction false} EmittedPath(value: Expr, steps: seq<Step>)
    requires EmitsPath(value, steps)
    ensures HasPath(value, steps)
    decreases |steps|, 2
  {
    BaseWithin(value);
    match ValueBase(value)
    case Fields(props) =>
      EmittedField(props, steps, false);
      FieldStays(props, Composition(value).props, steps);
    case Items(element) => EmittedPath(element, steps[1..]);
  }

  lemma {:induction false} EmittedField(props: seq<Prop>, steps: seq<Step>, top: bool)
    requires EmitsField(props, steps, top)
    ensures HasField(props, steps)
    decreases |steps|, 1
  {
    var p :| p in props && EmitsStart(p, steps, top);
    if p.Assigned? && |steps| > 1 {
      EmittedPath(p.value, steps[1..]);
    }
    assert StartsPath(p, steps);
  }

  lemma FieldStays(few: seq<Prop>, many: seq<Prop>, steps: seq<Step>)
    requires HasField(few, steps) && forall p :: p in few ==> p in many
    ensures HasField(many, steps)
  {
    var p :| p in few && StartsPath(p, steps);
    assert p in many;
  }

  lemma {:induction false} VisitedWithin(e: Expr)
    ensures forall p :: p in Visited(e) ==> p in Properties(e)
    decreases e
  {
    match e
    case Wrapped(inner) => VisitedWithin(inner);
    case MethodCall(receiver, _, args) =>
      if OverObject(e, "object") {
      } else if OverArray(e, "intersect") || OverArray(e, "union") {
        PartsVisitedWithin(args[0].elements);
      } else {
        VisitedWithin(receiver);
      }
    case _ =>
  }

  lemma {:induction false} PartsVisitedWithin(elements: seq<Expr>)
    ensures forall p :: p in PartsVisited(elements) ==> p in PartProperties(elements)
    decreases elements
  {
    if elements != [] {
      VisitedWithin(elements[0]);
      PartsVisitedWithin(elements[1..]);
    }
  }

  lemma EmittedIsNamed(e: Expr, steps: seq<Step>)
    requires EmitsKey(e, steps)
    ensures HasKey(e, steps)
  {
    EmittedField(Visited(e), steps, true);
    VisitedWithin(e);
    FieldStays(Visited(e), Properties(e), steps);
  }

  // ----- what is left out -----

  // A nested object of the value has a shorthand, or a chained call adds a field.
  predicate Omits(value: Expr)
    decreases value
  {
    match value
    case Wrapped(inner) => Omits(inner)
    case MethodCall(receiver, _, args) =>
      if OverObject(value, "object") then exists i :: 0 <= i < |args[0].props| && PropOmits(args[0].props[i])
      else if OverAny(value, "array") then Omits(args[0])
      else (SetsField(value) && Composition(receiver).Fields?) || Omits(receiver)
    case _ => false
  }

  predicate PropOmits(p: Prop)
    decreases p
  {
    match p
    case Assigned(_, value) => Omits(value)
    case Shorthand(_) => true
    case OtherProp => false
  }

  // The same for a whole schema, whose own shorthands are emitted.
  predicate OmitsKeys(e: Expr)
    decreases e
  {
    match e
    case Wrapped(inner) => OmitsKeys(inner)
    case MethodCall(receiver, _, args) =>
      if OverObject(e, "object") then exists p :: p in args[0].props && p.Assigned? && Omits(p.value)
      else if OverArray(e, "intersect") || OverArray(e, "union") then
        exists i :: 0 <= i < |args[0].elements| && OmitsKeys(args[0].elements[i])
      else
        || (SetsField(e) && Composition(receiver).Fields?)
        || (PushesPart(e) && exists p :: p in Properties(args[0]) && !p.OtherProp?)
        || OmitsKeys(receiver)
    case _ => false
  }

  // ----- without an omission every path is emitted -----

  lemma {:induction false} PathEmitted(value: Expr, steps: seq<Step>)
    requires !Omits(value) && HasPath(value, steps)
    ensures EmitsPath(value, steps)
    decreases value
  {
    match value
    case Wrapped(inner) => PathEmitted(inner, steps);
    case MethodCall(receiver, _, args) =>
      if OverObject(value, "object") {
        var props := args[0].props;
        var i :| 0 <= i < |props| && StartsPath(props[i], steps);
        assert !PropOmits(props[i]);
        StartEmitted(props[i], steps, false);
        assert EmitsField(props, steps, false);
      } else if OverAny(value, "array") {
        PathEmitted(args[0], steps[1..]);
      } else {
        PathEmitted(receiver, steps);
      }
  }

  lemma {:induction false} StartEmitted(p: Prop, steps: seq<Step>, top: bool)
    requires steps != [] && steps[0].Member? && StartsPath(p, steps)
    requires p.Assigned? ==> !Omits(p.value)
    requires p.Shorthand? ==> top
    ensures EmitsStart(p, steps, top)
    decreases p
  {
    if |steps| > 1 {
      PathEmitted(p.value, steps[1..]);
    }
  }

  lemma {:induction false} NothingUnvisited(e: Expr, p: Prop)
    requires !OmitsKeys(e) && p in Properties(e) && !p.OtherProp?
    ensures p in Visited(e) && (p.Assigned? ==> !Omits(p.value))
    decreases e
  {
    match e
    case Wrapped(inner) => NothingUnvisited(inner, p);
    case MethodCall(receiver, _, args) =>
      if OverObject(e, "object") {
      } else if OverArray(e, "intersect") || OverArray(e, "union") {
        PartVisited(args[0].elements, p);
      } else {
        NothingUnvisited(receiver, p);
      }
  }

  lemma {:induction false} PartVisited(elements: seq<Expr>, p: Prop)
    requires forall i :: 0 <= i < |elements| ==> !OmitsKeys(elements[i])
    requires p in PartProperties(elements) && !p.OtherProp?
    ensures p in PartsVisited(elements) && (p.Assigned? ==> !Omits(p.value))
    decreases elements
  {
    if p in Properties(elements[0]) {
      NothingUnvisited(elements[0], p);
    } else {
      forall i | 0 <= i < |elements[1..]|
        ensures !OmitsKeys(elements[1..][i])
      {
        assert elements[1..][i] == elements[i + 1];
      }
      PartVisited(elements[1..], p);
    }
  }

  lemma NamedIsEmitted(e: Expr, steps: seq<Step>)
    requires !OmitsKeys(e) && HasKey(e, steps)
    ensures EmitsKey(e, steps)
  {
    var p :| p in Properties(e) && StartsPath(p, steps);
    NothingUnvisited(e, p);
    StartEmitted(p, steps, true);
  }

  // The key is the print of a path the schema names.
  ghost predicate PrintsNamed(e: Expr, steps: seq<Step>, key: string) {
    HasKey(e, steps) && Print(steps) == key
  }

  // Emitted keys are prints of named paths, and without an omission all of them.
  lemma KeysAreNamed(e: Expr)
    ensures forall key :: key in SchemaKeys(e) ==> exists steps :: PrintsNamed(e, steps, key)
    ensures !OmitsKeys(e) ==> forall steps, key :: PrintsNamed(e, steps, key) ==> key in SchemaKeys(e)
  {
    forall key | key in SchemaKeys(e)
      ensures exists steps :: PrintsNamed(e, steps, key)
    {
      KeysAreThePaths(e, key);
      var steps :| Prints(e, steps, key);
      EmittedIsNamed(e, steps);
      assert PrintsNamed(e, steps, key);
    }
    forall steps, key | !OmitsKeys(e) && PrintsNamed(e, steps, key)
      ensures key in SchemaKeys(e)
    {
      NamedIsEmitted(e, steps);
      assert Prints(e, steps, key);
      KeysAreThePaths(e, key);
    }
  }

  // ----- with one, some path is lost -----

  predicate Names(p: Prop, key: string) {
    !p.OtherProp? && p.key == key
  }

  predicate DistinctKeys(props: seq<Prop>) {
    forall i, j :: 0 <= i < j < |props| && !props[i].OtherProp? && !props[j].OtherProp? ==> props[i].key != props[j].key
  }

  // No object of the value names a key twice.
  predicate Distinct(value: Expr)
    decreases value
  {
    match value
    case Wrapped(inner) => Distinct(inner)
    case MethodCall(receiver, _, args) =>
      if OverObject(value, "object") then
        DistinctKeys(args[0].props) && forall i :: 0 <= i < |args[0].props| ==> DistinctBelow(args[0].props[i])
      else if OverAny(value, "array") then Distinct(args[0])
      else Distinct(receiver) && (Composition(value).Fields? ==> DistinctKeys(Composition(value).props))
    case _ => true
  }

  predicate DistinctBelow(p: Prop)
    decreases p
  {
    p.Assigned? ==> Distinct(p.value)
  }

  predicate DistinctSchema(e: Expr) {
    DistinctKeys(Properties(e)) && forall p :: p in Properties(e) ==> DistinctBelow(p)
  }

  lemma OneOfName(props: seq<Prop>, i: nat, p: Prop)
    requires DistinctKeys(props) && i < |props| && !props[i].OtherProp? && p in props && Names(p, props[i].key)
    ensures p == props[i]
  {
    var j :| 0 <= j < |props| && props[j] == p;
  }

  lemma JoinDistinct(a: seq<Prop>, b: seq<Prop>, p: Prop, q: Prop)
    requires DistinctKeys(a + b) && p in a && q in b && !p.OtherProp?
    ensures !Names(q, p.key)
  {
    var i :| 0 <= i < |a| && a[i] == p;
    var j :| 0 <= j < |b| && b[j] == q;
    assert (a + b)[i] == p && (a + b)[|a| + j] == q;
  }

  lemma PartsDistinct(a: seq<Prop>, b: seq<Prop>)
    requires DistinctKeys(a + b)
    ensures DistinctKeys(a) && DistinctKeys(b)
  {
    assert forall i :: 0 <= i < |a| ==> (a + b)[i] == a[i];
    assert forall j :: 0 <= j < |b| ==> (a + b)[|a| + j] == b[j];
  }

  lemma {:induction false} OmittedPath(value: Expr) returns (steps: seq<Step>)
    requires Omits(value) && Distinct(value)
    ensures HasPath(value, steps) && !EmitsPath(value, steps)
    decreases value
  {
    match value
    case Wrapped(inner) => steps := OmittedPath(inner);
    case MethodCall(receiver, _, args) =>
      if OverObject(value, "object") {
        var i :| 0 <= i < |args[0].props| && PropOmits(args[0].props[i]);
        assert DistinctBelow(args[0].props[i]);
        steps := OmittedStart(args[0].props, i);
      } else if OverAny(value, "array") {
        var rest := OmittedPath(args[0]);
        steps := [Element] + rest;
        assert steps[1..] == rest;
      } else if SetsField(value) && Composition(receiver).Fields? {
        steps := [Member(SetField(value).key)];
        SetIsOmitted(value, steps);
      } else {
        steps := OmittedPath(receiver);
      }
  }

  lemma {:induction false} OmittedStart(props: seq<Prop>, i: nat) returns (steps: seq<Step>)
    requires i < |props| && PropOmits(props[i]) && DistinctKeys(props) && DistinctBelow(props[i])
    ensures HasField(props, steps) && !EmitsField(props, steps, false)
    decreases props[i]
  {
    var p := props[i];
    var rest: seq<Step> := [];
    if p.Assigned? {
      rest := OmittedPath(p.value);
    }
    steps := [Member(p.key)] + rest;
    assert steps[1..] == rest;
    assert StartsPath(p, steps);
    forall q | q in props
      ensures !EmitsStart(q, steps, false)
    {
      if Names(q, p.key) {
        OneOfName(props, i, q);
      }
    }
  }

  lemma SetIsOmitted(value: Expr, steps: seq<Step>)
    requires SetsField(value) && Composition(value.receiver).Fields? && Distinct(value)
    requires steps == [Member(SetField(value).key)]
    ensures HasPath(value, steps) && !EmitsPath(value, steps)
  {
    var before, added := Composition(value.receiver).props, [SetField(value)];
    BaseWithin(value.receiver);
    assert Composition(value).props == before + added;
    assert StartsPath(SetField(value), steps) && SetField(value) in before + added;
    if ValueBase(value).Fields? {
      forall q | q in ValueBase(value).props
        ensures !EmitsStart(q, steps, false)
      {
        if !q.OtherProp? {
          JoinDistinct(before, added, q, SetField(value));
        }
      }
    }
  }

  // A property that the walk does not visit, or visits and reads only in part.
  ghost predicate Lost(visited: seq<Prop>, p: Prop) {
    !p.OtherProp? && forall q :: q in visited && Names(q, p.key) ==> q == p && p.Assigned? && Omits(p.value)
  }

  lemma {:induction false} OmittedKey(e: Expr) returns (p: Prop)
    requires OmitsKeys(e) && DistinctKeys(Properties(e))
    ensures p in Properties(e) && Lost(Visited(e), p)
    decreases e
  {
    match e
    case Wrapped(inner) => p := OmittedKey(inner);
    case MethodCall(receiver, _, args) =>
      if OverObject(e, "object") {
        var props := args[0].props;
        var i :| 0 <= i < |props| && props[i].Assigned? && Omits(props[i].value);
        p := props[i];
        forall q | q in props && Names(q, p.key)
          ensures q == p
        {
          OneOfName(props, i, q);
        }
      } else if OverArray(e, "intersect") || OverArray(e, "union") {
        var i :| 0 <= i < |args[0].elements| && OmitsKeys(args[0].elements[i]);
        p := OmittedInParts(args[0].elements, i);
      } else {
        p := OmittedInChain(e);
      }
  }

  lemma {:induction false} OmittedInChain(e: Expr) returns (p: Prop)
    requires e.MethodCall? && OmitsKeys(e) && DistinctKeys(Properties(e))
    requires !OverObject(e, "object") && !OverArray(e, "intersect") && !OverArray(e, "union")
    ensures p in Properties(e) && Lost(Visited(e.receiver), p)
    decreases e, 0
  {
    var before := Properties(e.receiver);
    VisitedWithin(e.receiver);
    if SetsField(e) && Composition(e.receiver).Fields? {
      p := SetField(e);
      AddedIsLost(before, [p], Visited(e.receiver), p);
    } else if PushesPart(e) {
      PartsDistinct(before, Properties(e.args[0]));
      if q :| q in Properties(e.args[0]) && !q.OtherProp? {
        p := q;
        AddedIsLost(before, Properties(e.args[0]), Visited(e.receiver), p);
      } else {
        p := OmittedKey(e.receiver);
      }
    } else {
      p := OmittedKey(e.receiver);
    }
  }

  lemma AddedIsLost(before: seq<Prop>, added: seq<Prop>, visited: seq<Prop>, p: Prop)
    requires DistinctKeys(before + added) && p in added && !p.OtherProp?
    requires forall q :: q in visited ==> q in before
    ensures Lost(visited, p)
  {
    forall q | q in visited
      ensures !Names(q, p.key)
    {
      if !q.OtherProp? {
        JoinDistinct(before, added, q, p);
      }
    }
  }

  lemma {:induction false} OmittedInParts(elements: seq<Expr>, i: nat) returns (p: Prop)
    requires i < |elements| && OmitsKeys(elements[i]) && DistinctKeys(PartProperties(elements))
    ensures p in PartProperties(elements) && Lost(PartsVisited(elements), p)
    decreases elements
  {
    var first, rest := Properties(elements[0]), PartProperties(elements[1..]);
    PartsDistinct(first, rest);
    VisitedWithin(elements[0]);
    PartsVisitedWithin(elements[1..]);
    if i == 0 {
      p := OmittedKey(elements[0]);
    } else {
      p := OmittedInParts(elements[1..], i - 1);
    }
    forall q | q in PartsVisited(elements) && Names(q, p.key)
      ensures q in if i == 0 then Visited(elements[0]) else PartsVisited(elements[1..])
    {
      if i == 0 && q in PartsVisited(elements[1..]) {
        JoinDistinct(first, rest, p, q);
      } else if i > 0 && q in Visited(elements[0]) {
        JoinDistinct(first, rest, q, p);
      }
    }
  }

  lemma LostPath(e: Expr, p: Prop) returns (steps: seq<Step>)
    requires DistinctSchema(e) && p in Properties(e) && Lost(Visited(e), p)
    ensures HasKey(e, steps) && !EmitsKey(e, steps)
  {
    var rest: seq<Step> := [];
    if p in Visited(e) {
      assert Names(p, p.key) && DistinctBelow(p);
      rest := OmittedPath(p.value);
    }
    steps := [Member(p.key)] + rest;
    assert steps[1..] == rest;
    assert StartsPath(p, steps);
    forall q | q in Visited(e)
      ensures !EmitsStart(q, steps, true)
    {
      if Names(q, p.key) {
        assert q == p;
      }
    }
  }

  // Main result: in a schema that names no key twice, every path is emitted exactly
  // when no nested object has a shorthand and no chained call adds a field or a part.
  lemma EmitsAllIff(e: Expr)
    requires DistinctSchema(e)
    ensures (forall steps :: HasKey(e, steps) ==> EmitsKey(e, steps)) <==> !OmitsKeys(e)
  {
    if OmitsKeys(e) {
      var p := OmittedKey(e);
      var steps := LostPath(e, p);
    } else {
      forall steps | HasKey(e, steps)
        ensures EmitsKey(e, steps)
      {
        NamedIsEmitted(e, steps);
      }
    }
  }

  // The same of one object of a schema, whatever keys the other objects share with it.
  lemma ObjectEmitsAllIff(props: seq<Prop>)
    requires DistinctKeys(props) && forall p :: p in props ==> DistinctBelow(p)
    ensures (forall steps :: HasField(props, steps) ==> EmitsField(props, steps, true)) <==>
              !exists i :: 0 <= i < |props| && props[i].Assigned? && Omits(props[i].value)
  {
    if i :| 0 <= i < |props| && props[i].Assigned? && Omits(props[i].value) {
      assert DistinctBelow(props[i]);
      var steps := OmittedField(props, i);
    } else {
      forall steps | HasField(props, steps)
        ensures EmitsField(props, steps, true)
      {
        var p :| p in props && StartsPath(p, steps);
        StartEmitted(p, steps, true);
      }
    }
  }

  lemma OmittedField(props: seq<Prop>, i: nat) returns (steps: seq<Step>)
    requires DistinctKeys(props) && i < |props| && props[i].Assigned?
    requires Omits(props[i].value) && DistinctBelow(props[i])
    ensures HasField(props, steps) && !EmitsField(props, steps, true)
  {
    var p := props[i];
    var rest := OmittedPath(p.value);
    steps := [Member(p.key)] + rest;
    assert steps[1..] == rest;
    assert StartsPath(p, steps);
    forall q | q in props
      ensures !EmitsStart(q, steps, true)
    {
      if Names(q, p.key) {
        OneOfName(props, i, q);
      }
    }
  }

  // The same of the strings the walk returns, where keys are plain.
  lemma WalkEmitsAllIff(e: Expr)
    requires DistinctSchema(e) && forall steps :: HasKey(e, steps) ==> Plain(steps)
    ensures (forall steps :: HasKey(e, steps) ==> Print(steps) in SchemaKeys(e)) <==> !OmitsKeys(e)
  {
    forall steps | EmitsKey(e, steps)
      ensures Plain(steps)
    {
      EmittedIsNamed(e, steps);
    }
    forall steps | HasKey(e, steps)
      ensures Print(steps) in SchemaKeys(e) <==> EmitsKey(e, steps)
    {
      PlainPathsSurvive(e, steps);
    }
    EmitsAllIff(e);
  }

  // ----- inputs -----

  // `z.object({ a: z.object({ b }) })`: `a.b` is a path of the schema, and only `a`
  // is emitted.
  lemma NestedShorthandOmitted(a: string, b: string)
    ensures var inner := MethodCall(Identifier("z"), "object", [ObjectLiteral([Shorthand(b)])]);
            var outer := MethodCall(Identifier("z"), "object", [ObjectLiteral([Assigned(a, inner)])]);
            HasKey(outer, [Member(a), Member(b)]) && SchemaKeys(outer) == [a]
  {
    var inner: Expr := MethodCall(Identifier("z"), "object", [ObjectLiteral([Shorthand(b)])]);
    var p, q := Assigned(a, inner), Shorthand(b);
    assert StartsPath(q, [Member(b)]) && q in inner.args[0].props;
    assert [Member(a), Member(b)][1..] == [Member(b)];
    assert StartsPath(p, [Member(a), Member(b)]) && p in [p];
    assert PropPaths([q], a) == [];
    assert ValuePaths(inner, a) == [] && FieldKey(p) == [a] + [];
    assert FieldKeys([p]) == [a];
  }
}
