/**
 * When the walk of a schema rejects what it cannot see, as its documentation says
 * (scripts/gen-config-catalog.ts:412-421).
 *
 * Which expressions stand for an object or array composition without being written
 * as one, an identifier of a schema say, is an arbitrary predicate.
 */
module SchemaRejection {
  import opened Options
  import opened SchemaPaths
  import opened SchemaWalk
  import opened SchemaWalker
  import opened SchemaOmissions

  type Stands = Expr -> bool

  // ----- nested values -----

  // A nested composition is read whole: objects are literals of plain keys with
  // values, nothing is added to them, and nothing stands for a composition.
  predicate ReadsValue(value: Expr, stands: Stands)
    decreases value
  {
    match value
    case Wrapped(inner) => ReadsValue(inner, stands)
    case MethodCall(receiver, name, args) =>
      if OverObject(value, "object") then
        forall i :: 0 <= i < |args[0].props| ==> ReadsProp(args[0].props[i], stands)
      else if name == "object" then false
      else if OverAny(value, "array") then ReadsValue(args[0], stands)
      else name != "set" && ReadsValue(receiver, stands)
    case _ => !stands(value)
  }

  predicate ReadsProp(p: Prop, stands: Stands)
    decreases p
  {
    p.Assigned? && ReadsValue(p.value, stands)
  }

  // The walk passes over a part of a nested composition: a property that is not
  // assigned a value, an object that is not a literal, or an added field.
  predicate Thins(value: Expr, stands: Stands)
    decreases value
  {
    match value
    case Wrapped(inner) => Thins(inner, stands)
    case MethodCall(receiver, name, args) =>
      if OverObject(value, "object") then
        exists i :: 0 <= i < |args[0].props| && ThinsProp(args[0].props[i], stands)
      else if OverAny(value, "array") then Thins(args[0], stands)
      else name == "object" || name == "set" || Thins(receiver, stands)
    case _ => stands(value)
  }

  predicate ThinsProp(p: Prop, stands: Stands)
    decreases p
  {
    match p
    case Assigned(_, value) => Thins(value, stands)
    case Shorthand(_) => true
    case OtherProp => true
  }

  lemma {:induction false} ReadsValueIff(value: Expr, stands: Stands)
    ensures ReadsValue(value, stands) <==> !Thins(value, stands)
    decreases value
  {
    match value
    case Wrapped(inner) => ReadsValueIff(inner, stands);
    case MethodCall(receiver, _, args) =>
      if OverObject(value, "object") {
        forall i | 0 <= i < |args[0].props|
          ensures ReadsProp(args[0].props[i], stands) <==> !ThinsProp(args[0].props[i], stands)
        {
          ReadsPropIff(args[0].props[i], stands);
        }
      } else if OverAny(value, "array") {
        ReadsValueIff(args[0], stands);
      } else {
        ReadsValueIff(receiver, stands);
      }
    case _ =>
  }

  lemma {:induction false} ReadsPropIff(p: Prop, stands: Stands)
    ensures ReadsProp(p, stands) <==> !ThinsProp(p, stands)
    decreases p
  {
    if p.Assigned? {
      ReadsValueIff(p.value, stands);
    }
  }

  // ----- whole schemas -----

  // The walk passes over something: part of a nested composition, a variant of a
  // union that is not a call, or what a chained call adds.
  predicate Drops(e: Expr, imports: Imports, stands: Stands)
    decreases e
  {
    match e
    case Wrapped(inner) => Drops(inner, imports, stands)
    case MethodCall(receiver, name, args) =>
      if OverObject(e, "object") then exists p :: p in args[0].props && DropsBelow(p, stands)
      else if OverArray(e, "intersect") then
        exists i :: 0 <= i < |args[0].elements| &&
          ConfigOf(Unwrap(args[0].elements[i]), imports).None? && Drops(args[0].elements[i], imports, stands)
      else if OverArray(e, "union") then
        exists i :: 0 <= i < |args[0].elements| &&
          (!IsCall(Unwrap(args[0].elements[i])) || Drops(args[0].elements[i], imports, stands))
      else name == "set" || name == "push" || Drops(receiver, imports, stands)
    case _ => false
  }

  predicate DropsBelow(p: Prop, stands: Stands) {
    match p
    case Assigned(_, value) => Thins(value, stands)
    case Shorthand(key) => stands(Identifier(key))
    case OtherProp => false
  }

  // Nothing of the schema is lost: its objects are literals of plain keys whose
  // values are read, every part of it is read, and chained calls add nothing.
  predicate ReadsAll(e: Expr, imports: Imports, stands: Stands)
    decreases e
  {
    match e
    case Wrapped(inner) => ReadsAll(inner, imports, stands)
    case MethodCall(receiver, name, args) =>
      if OverObject(e, "object") then forall p :: p in args[0].props ==> ReadsField(p, stands)
      else if OverArray(e, "intersect") then
        forall i :: 0 <= i < |args[0].elements| ==>
          ConfigOf(Unwrap(args[0].elements[i]), imports).Some? || ReadsAll(args[0].elements[i], imports, stands)
      else if OverArray(e, "union") then
        forall i :: 0 <= i < |args[0].elements| ==>
          IsCall(Unwrap(args[0].elements[i])) && ReadsAll(args[0].elements[i], imports, stands)
      else name != "set" && name != "push" && ReadsAll(receiver, imports, stands)
    case _ => false
  }

  predicate ReadsField(p: Prop, stands: Stands) {
    match p
    case Assigned(_, value) => ReadsValue(value, stands)
    case Shorthand(key) => !stands(Identifier(key))
    case OtherProp => false
  }

  lemma {:induction false} ReadsAllIff(e: Expr, imports: Imports, stands: Stands)
    ensures ReadsAll(e, imports, stands) <==> Walkable(e, imports) && !Drops(e, imports, stands)
    decreases e
  {
    match e
    case Wrapped(inner) => ReadsAllIff(inner, imports, stands);
    case MethodCall(receiver, _, args) =>
      if OverObject(e, "object") {
        forall p | p in args[0].props
          ensures ReadsField(p, stands) <==> !p.OtherProp? && !DropsBelow(p, stands)
        {
          if p.Assigned? {
            ReadsValueIff(p.value, stands);
          }
        }
      } else if OverArray(e, "intersect") || OverArray(e, "union") {
        forall i | 0 <= i < |args[0].elements|
          ensures var element := args[0].elements[i];
                  ReadsAll(element, imports, stands) <==> Walkable(element, imports) && !Drops(element, imports, stands)
        {
          ReadsAllIff(args[0].elements[i], imports, stands);
        }
      } else {
        ReadsAllIff(receiver, imports, stands);
      }
    case _ =>
  }

  // Main result: what is not reported was read whole exactly for expressions that
  // the walk cannot read or drops nothing from.
  lemma RejectsUnseenIff(e: Expr, imports: Imports, stands: Stands)
    ensures (Problems(e, imports) == [] ==> ReadsAll(e, imports, stands)) <==>
              !Walkable(e, imports) || !Drops(e, imports, stands)
  {
    NoProblemsIff(e, imports);
    ReadsAllIff(e, imports, stands);
  }

  // ----- what is read whole is emitted whole -----

  lemma {:induction false} ThinsWhatItOmits(value: Expr, stands: Stands)
    requires Omits(value)
    ensures Thins(value, stands)
    decreases value
  {
    match value
    case Wrapped(inner) => ThinsWhatItOmits(inner, stands);
    case MethodCall(receiver, _, args) =>
      if OverObject(value, "object") {
        var i :| 0 <= i < |args[0].props| && PropOmits(args[0].props[i]);
        PropThinsWhatItOmits(args[0].props[i], stands);
      } else if OverAny(value, "array") {
        ThinsWhatItOmits(args[0], stands);
      } else if !SetsField(value) || !Composition(receiver).Fields? {
        ThinsWhatItOmits(receiver, stands);
      }
  }

  lemma {:induction false} PropThinsWhatItOmits(p: Prop, stands: Stands)
    requires PropOmits(p)
    ensures ThinsProp(p, stands)
    decreases p
  {
    if p.Assigned? {
      ThinsWhatItOmits(p.value, stands);
    }
  }

  lemma {:induction false} ReadsAllOmitsNothing(e: Expr, imports: Imports, stands: Stands)
    requires ReadsAll(e, imports, stands)
    ensures !OmitsKeys(e)
    decreases e, 0
  {
    match e
    case Wrapped(inner) => ReadsAllOmitsNothing(inner, imports, stands);
    case MethodCall(receiver, _, args) =>
      if OverObject(e, "object") {
        forall p | p in args[0].props && p.Assigned?
          ensures !Omits(p.value)
        {
          assert ReadsField(p, stands);
          ReadsValueIff(p.value, stands);
          if Omits(p.value) {
            ThinsWhatItOmits(p.value, stands);
          }
        }
      } else if OverArray(e, "intersect") || OverArray(e, "union") {
        forall i | 0 <= i < |args[0].elements|
          ensures !OmitsKeys(args[0].elements[i])
        {
          PartOmitsNothing(args[0].elements[i], imports, stands);
        }
      } else {
        ReadsAllOmitsNothing(receiver, imports, stands);
      }
  }

  lemma {:induction false} PartOmitsNothing(element: Expr, imports: Imports, stands: Stands)
    requires ConfigOf(Unwrap(element), imports).Some? || ReadsAll(element, imports, stands)
    ensures !OmitsKeys(element)
    decreases element, 1
  {
    if ConfigOf(Unwrap(element), imports).Some? {
      NamedOmitsNothing(element);
    } else {
      ReadsAllOmitsNothing(element, imports, stands);
    }
  }

  lemma {:induction false} NamedOmitsNothing(element: Expr)
    requires !IsCall(Unwrap(element))
    ensures !OmitsKeys(element)
  {
    if element.Wrapped? {
      NamedOmitsNothing(element.inner);
    }
  }

  // Every path of an expression that is reported nowhere and drops nothing is emitted.
  lemma UnreportedIsEmitted(e: Expr, imports: Imports, stands: Stands, steps: seq<Step>)
    requires Problems(e, imports) == [] && !Drops(e, imports, stands) && HasKey(e, steps)
    ensures EmitsKey(e, steps)
  {
    NoProblemsIff(e, imports);
    ReadsAllIff(e, imports, stands);
    ReadsAllOmitsNothing(e, imports, stands);
    NamedIsEmitted(e, steps);
  }

  // ----- inputs -----

  // Nothing is reported, and only the one key is emitted.
  ghost predicate Unseen(e: Expr, key: string, imports: Imports, stands: Stands) {
    Problems(e, imports) == [] && SchemaKeys(e) == [key] && !ReadsAll(e, imports, stands)
  }

  function ZObject(arg: Expr): Expr {
    MethodCall(Identifier("z"), "object", [arg])
  }

  lemma OneField(key: string, value: Expr)
    requires ValuePaths(value, key) == []
    ensures FieldKeys([Assigned(key, value)]) == [key] && PropProblems([Assigned(key, value)]) == []
  {
    var props := [Assigned(key, value)];
    assert props[1..] == [];
    assert FieldKey(props[0]) == [key] + [];
    assert FieldKeys(props) == [key] + [];
    assert PropProblem(props[0]) == [];
  }

  lemma NestedIsUnseen(key: string, value: Expr, imports: Imports, stands: Stands)
    requires Thins(value, stands) && ValuePaths(value, key) == []
    ensures Unseen(ZObject(ObjectLiteral([Assigned(key, value)])), key, imports, stands)
  {
    var props := [Assigned(key, value)];
    OneField(key, value);
    ReadsValueIff(value, stands);
    assert !ReadsField(props[0], stands);
  }

  // `z.object({ a: z.object({ b }) })`, `z.object({ a: z.object({ ...rest }) })`,
  // `z.object({ a: z.object(fields) })` and `z.object({ a: z.array(item) })`, where
  // `item` stands for a composition.
  lemma NestedInputsUnseen(key: string, b: string, item: string, imports: Imports, stands: Stands)
    requires stands(Identifier(item))
    ensures Unseen(ZObject(ObjectLiteral([Assigned(key, ZObject(ObjectLiteral([Shorthand(b)])))])), key, imports,
                   stands)
    ensures Unseen(ZObject(ObjectLiteral([Assigned(key, ZObject(ObjectLiteral([OtherProp])))])), key, imports, stands)
    ensures Unseen(ZObject(ObjectLiteral([Assigned(key, ZObject(Identifier("fields")))])), key, imports, stands)
    ensures Unseen(ZObject(ObjectLiteral([Assigned(key, MethodCall(Identifier("z"), "array", [Identifier(item)]))])),
                   key, imports, stands)
  {
    LiteralUnseen(key, Shorthand(b), imports, stands);
    LiteralUnseen(key, OtherProp, imports, stands);
    NestedIsUnseen(key, ZObject(Identifier("fields")), imports, stands);
    NestedIsUnseen(key, MethodCall(Identifier("z"), "array", [Identifier(item)]), imports, stands);
  }

  lemma LiteralUnseen(key: string, p: Prop, imports: Imports, stands: Stands)
    requires !p.Assigned?
    ensures Unseen(ZObject(ObjectLiteral([Assigned(key, ZObject(ObjectLiteral([p])))])), key, imports, stands)
  {
    var value := ZObject(ObjectLiteral([p]));
    assert ThinsProp(value.args[0].props[0], stands);
    assert PropPaths([p], key) == [];
    NestedIsUnseen(key, value, imports, stands);
  }

  // `z.object({ a: z.string() }).set('b', w)`.
  lemma AddedFieldUnseen(key: string, added: string, w: Expr, imports: Imports, stands: Stands)
    ensures var value := MethodCall(Identifier("z"), "string", []);
            var base := ZObject(ObjectLiteral([Assigned(key, value)]));
            var e := MethodCall(base, "set", [StringLiteral(added), w]);
            Unseen(e, key, imports, stands) && HasKey(e, [Member(added)])
  {
    var value: Expr := MethodCall(Identifier("z"), "string", []);
    var props := [Assigned(key, value)];
    var base := ZObject(ObjectLiteral(props));
    var e: Expr := MethodCall(base, "set", [StringLiteral(added), w]);
    OneField(key, value);
    assert SchemaKeys(base) == [key] && Problems(base, imports) == [];
    assert Properties(e) == props + [SetField(e)];
    assert StartsPath(SetField(e), [Member(added)]) && SetField(e) in Properties(e);
  }

  // A union's variant that names a package is lost, although an intersect reads it:
  // the keys of the package go missing.
  lemma UnionDropsNamedVariant(imports: Imports, stands: Stands)
    requires "X" in imports && !("." <= imports["X"])
    ensures var variant := PropertyAccess(Some("X"), "Config");
            var union := MethodCall(Identifier("z"), "union", [ArrayLiteral([variant])]);
            var both := MethodCall(Identifier("z"), "intersect", [ArrayLiteral([variant])]);
            && Problems(union, imports) == [] && SchemaKeys(union) == [] && Composed(union, imports) == []
            && !ReadsAll(union, imports, stands)
            && Composed(both, imports) == [imports["X"]]
  {
    var variant: Expr := PropertyAccess(Some("X"), "Config");
    var elements := [variant];
    assert !IsCall(Unwrap(elements[0]));
    NotACallLost(variant, imports);
    NamedPartComposed(variant, imports);
  }

  lemma NotACallLost(variant: Expr, imports: Imports)
    requires !variant.Wrapped? && !IsCall(variant)
    ensures PartsProblems([variant], imports, false) == [] && PartKeys([variant]) == []
    ensures PartsComposed([variant], imports, false) == []
  {
    assert [variant][1..] == [];
    assert PartProblems(variant, imports, false) == [] && PartsProblems([], imports, false) == [];
    assert PartKey(variant) == [] && PartKeys([]) == [];
    assert PartComposed(variant, imports, false) == [] && PartsComposed([], imports, false) == [];
  }

  lemma NamedPartComposed(variant: Expr, imports: Imports)
    requires !variant.Wrapped? && ConfigOf(variant, imports).Some?
    ensures PartsComposed([variant], imports, true) == [ConfigOf(variant, imports).value]
  {
    var package := [ConfigOf(variant, imports).value];
    assert [variant][1..] == [];
    assert PartComposed(variant, imports, true) == package;
    assert PartsComposed([], imports, true) == [];
    assert package + [] == package;
  }
}
