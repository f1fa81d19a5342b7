/**
 * What each form of a schema expression contributes to the walk, spelled out by the
 * call it is (scripts/gen-config-catalog.ts:430-500).
 */
module SchemaForms {
  import opened Options
  import opened SchemaWalk
  import opened SchemaWalker

  // A call of the name with one argument or more.
  function Call(receiver: Expr, name: string, first: Expr, rest: seq<Expr>): Expr {
    MethodCall(receiver, name, [first] + rest)
  }

  // ----- keys -----

  // An object of properties has each of its named properties, and what lies below
  // those that are assigned a value.
  lemma ObjectKeys(receiver: Expr, props: seq<Prop>, rest: seq<Expr>, key: string)
    ensures key in SchemaKeys(Call(receiver, "object", ObjectLiteral(props), rest)) <==>
              exists p :: p in props && (p == Shorthand(key) ||
                (p.Assigned? && (p.key == key || key in ValuePaths(p.value, p.key))))
  {
    FieldKeysMembers(props, key);
  }

  lemma {:induction false} FieldKeysMembers(props: seq<Prop>, key: string)
    ensures key in FieldKeys(props) <==>
              exists p :: p in props && (p == Shorthand(key) ||
                (p.Assigned? && (p.key == key || key in ValuePaths(p.value, p.key))))
  {
    if props != [] {
      FieldKeysMembers(props[1..], key);
      assert props == [props[0]] + props[1..];
      assert key in FieldKey(props[0]) <==>
             var p := props[0];
             p == Shorthand(key) || (p.Assigned? && (p.key == key || key in ValuePaths(p.value, p.key)));
    }
  }

  // An intersection or a union has the keys of its elements.
  lemma PartsHaveKeys(receiver: Expr, name: string, elements: seq<Expr>, rest: seq<Expr>, key: string)
    requires name == "intersect" || name == "union"
    ensures key in SchemaKeys(Call(receiver, name, ArrayLiteral(elements), rest)) <==>
              exists element :: element in elements && key in SchemaKeys(element)
  {
    PartKeysMembers(elements, key);
  }

  lemma {:induction false} PartKeysMembers(elements: seq<Expr>, key: string)
    ensures key in PartKeys(elements) <==> exists element :: element in elements && key in SchemaKeys(element)
  {
    if elements != [] {
      PartKeysMembers(elements[1..], key);
      assert elements == [elements[0]] + elements[1..];
      BaseOfUnwrapped(elements[0]);
    }
  }

  // The call is one that the walk reads by its argument.
  predicate Read(name: string, args: seq<Expr>) {
    args != [] && ((name == "object" && args[0].ObjectLiteral?)
                   || ((name == "intersect" || name == "union") && args[0].ArrayLiteral?))
  }

  // Any other call adds nothing to what it is chained to.
  lemma ChainedCall(receiver: Expr, name: string, args: seq<Expr>, imports: Imports)
    requires !Read(name, args)
    ensures SchemaKeys(MethodCall(receiver, name, args)) == SchemaKeys(receiver)
    ensures Composed(MethodCall(receiver, name, args), imports) == Composed(receiver, imports)
    ensures Problems(MethodCall(receiver, name, args), imports)
         == match Unwrap(receiver)
            case MethodCall(_, _, _) => Problems(receiver, imports)
            case OtherCall => [NotWalkable]
            case _ => [NoWalkableBase(name)]
  {
    BaseOfUnwrapped(receiver);
    UnwrappedWalk(receiver, imports);
  }

  // ----- nested values -----

  lemma NestedObject(receiver: Expr, props: seq<Prop>, rest: seq<Expr>, base: string, path: string)
    ensures path in ValuePaths(Call(receiver, "object", ObjectLiteral(props), rest), base) <==>
              exists p :: p in props && p.Assigned?
                && (path == base + "." + p.key || path in ValuePaths(p.value, base + "." + p.key))
  {
    PropPathsMembers(props, base, path);
  }

  lemma {:induction false} PropPathsMembers(props: seq<Prop>, base: string, path: string)
    ensures path in PropPaths(props, base) <==>
              exists p :: p in props && p.Assigned?
                && (path == base + "." + p.key || path in ValuePaths(p.value, base + "." + p.key))
  {
    if props != [] {
      PropPathsMembers(props[1..], base, path);
      assert props == [props[0]] + props[1..];
    }
  }

  lemma NestedArray(receiver: Expr, element: Expr, rest: seq<Expr>, base: string)
    ensures ValuePaths(Call(receiver, "array", element, rest), base) == ValuePaths(element, base + "[]")
  {
  }

  // A value that is neither has the paths of what it is chained to.
  lemma NestedChain(receiver: Expr, name: string, args: seq<Expr>, base: string)
    requires name != "array" || args == []
    requires name != "object" || args == [] || !args[0].ObjectLiteral?
    ensures ValuePaths(MethodCall(receiver, name, args), base) == ValuePaths(receiver, base)
  {
    BaseOfUnwrapped(receiver);
  }

  lemma NestedNothing(value: Expr, base: string)
    requires !value.Wrapped? && !value.MethodCall?
    ensures ValuePaths(value, base) == []
  {
  }

  // ----- composed packages -----

  // `Owner.Config`, where the owner is imported from a package.
  ghost predicate NamesConfig(part: Expr, imports: Imports, package: string) {
    exists owner :: part == PropertyAccess(Some(owner), "Config") && owner in imports
      && imports[owner] == package && (package == "" || package[0] != '.')
  }

  lemma ConfigOfIff(part: Expr, imports: Imports, package: string)
    ensures ConfigOf(part, imports) == Some(package) <==> NamesConfig(part, imports, package)
  {
    if ConfigOf(part, imports) == Some(package) {
      assert part == PropertyAccess(Some(part.owner.value), "Config");
    }
  }

  // An intersection composes the packages that its elements name, and what those of its
  // elements that are schemas compose themselves.
  lemma IntersectionComposes(receiver: Expr, elements: seq<Expr>, rest: seq<Expr>, imports: Imports, package: string)
    ensures package in Composed(Call(receiver, "intersect", ArrayLiteral(elements), rest), imports) <==>
              exists element :: element in elements &&
                (NamesConfig(Unwrap(element), imports, package) || package in Composed(element, imports))
  {
    PartsComposedMembers(elements, imports, true, package);
    forall element | element in elements
      ensures package in PartComposed(element, imports, true) <==>
                NamesConfig(Unwrap(element), imports, package) || package in Composed(element, imports)
    {
      ConfigOfIff(Unwrap(element), imports, package);
      UnwrappedWalk(element, imports);
    }
  }

  // A union composes what its variants compose; a variant that names a package does not.
  lemma UnionComposes(receiver: Expr, elements: seq<Expr>, rest: seq<Expr>, imports: Imports, package: string)
    ensures package in Composed(Call(receiver, "union", ArrayLiteral(elements), rest), imports) <==>
              exists element :: element in elements && package in Composed(element, imports)
  {
    PartsComposedMembers(elements, imports, false, package);
    forall element | element in elements
      ensures package in PartComposed(element, imports, false) <==> package in Composed(element, imports)
    {
      UnwrappedWalk(element, imports);
    }
  }

  lemma FirstOrLater(elements: seq<Expr>, ok: Expr -> bool)
    requires elements != []
    ensures (exists element :: element in elements && ok(element)) <==>
              ok(elements[0]) || exists element :: element in elements[1..] && ok(element)
  {
    assert elements == [elements[0]] + elements[1..];
    assert elements[0] in elements;
  }

  lemma {:induction false} PartsComposedMembers(elements: seq<Expr>, imports: Imports, named: bool, package: string)
    ensures package in PartsComposed(elements, imports, named) <==>
              exists element :: element in elements && package in PartComposed(element, imports, named)
  {
    if elements != [] {
      PartsComposedMembers(elements[1..], imports, named, package);
      FirstOrLater(elements, element => package in PartComposed(element, imports, named));
    }
  }

  lemma ObjectComposesNothing(receiver: Expr, props: seq<Prop>, rest: seq<Expr>, imports: Imports)
    ensures Composed(Call(receiver, "object", ObjectLiteral(props), rest), imports) == []
  {
  }

  // ----- reports -----

  // A property that is not a plain key is reported, and nothing else.
  lemma ObjectReports(receiver: Expr, props: seq<Prop>, rest: seq<Expr>, imports: Imports, report: Problem)
    ensures report in Problems(Call(receiver, "object", ObjectLiteral(props), rest), imports) <==>
              report == NotAPlainKey && OtherProp in props
  {
    PropProblemsMembers(props, report);
  }

  lemma {:induction false} PropProblemsMembers(props: seq<Prop>, report: Problem)
    ensures report in PropProblems(props) <==> report == NotAPlainKey && OtherProp in props
  {
    if props != [] {
      PropProblemsMembers(props[1..], report);
      assert props == [props[0]] + props[1..];
    }
  }

  // An element of an intersection is read, names a package, or is reported.
  lemma IntersectionReports(receiver: Expr, elements: seq<Expr>, rest: seq<Expr>, imports: Imports, report: Problem)
    ensures report in Problems(Call(receiver, "intersect", ArrayLiteral(elements), rest), imports) <==>
              exists element :: element in elements &&
                match Unwrap(element)
                case MethodCall(_, _, _) => report in Problems(element, imports)
                case OtherCall => report == NotWalkable
                case part => report == NotAnElement && forall package :: !NamesConfig(part, imports, package)
  {
    PartsProblemsMembers(elements, imports, true, report);
    forall element | element in elements
      ensures report in PartProblems(element, imports, true) <==>
                match Unwrap(element)
                case MethodCall(_, _, _) => report in Problems(element, imports)
                case OtherCall => report == NotWalkable
                case part => report == NotAnElement && forall package :: !NamesConfig(part, imports, package)
    {
      UnwrappedWalk(element, imports);
      var part := Unwrap(element);
      forall package
        ensures ConfigOf(part, imports) == Some(package) <==> NamesConfig(part, imports, package)
      {
        ConfigOfIff(part, imports, package);
      }
      if ConfigOf(part, imports).Some? {
        assert NamesConfig(part, imports, ConfigOf(part, imports).value);
      }
    }
  }

  // Of a union only the variants that are calls are read; no other is reported.
  lemma UnionReports(receiver: Expr, elements: seq<Expr>, rest: seq<Expr>, imports: Imports, report: Problem)
    ensures report in Problems(Call(receiver, "union", ArrayLiteral(elements), rest), imports) <==>
              exists element :: element in elements &&
                match Unwrap(element)
                case MethodCall(_, _, _) => report in Problems(element, imports)
                case OtherCall => report == NotWalkable
                case _ => false
  {
    PartsProblemsMembers(elements, imports, false, report);
    forall element | element in elements
      ensures report in PartProblems(element, imports, false) <==>
                match Unwrap(element)
                case MethodCall(_, _, _) => report in Problems(element, imports)
                case OtherCall => report == NotWalkable
                case _ => false
    {
      UnwrappedWalk(element, imports);
    }
  }

  lemma {:induction false} PartsProblemsMembers(elements: seq<Expr>, imports: Imports, named: bool, report: Problem)
    ensures report in PartsProblems(elements, imports, named) <==>
              exists element :: element in elements && report in PartProblems(element, imports, named)
  {
    if elements != [] {
      PartsProblemsMembers(elements[1..], imports, named, report);
      FirstOrLater(elements, element => report in PartProblems(element, imports, named));
    }
  }

  lemma NotACall(e: Expr, imports: Imports)
    requires !Unwrap(e).MethodCall?
    ensures SchemaKeys(e) == [] && Composed(e, imports) == [] && Problems(e, imports) == [NotWalkable]
  {
    BaseOfUnwrapped(e);
    UnwrappedWalk(e, imports);
  }

  // ----- chained calls that add -----

  // `push` on an intersection or a union adds the keys of the part; on an object none.
  lemma PushedPart(receiver: Expr, name: string, elements: seq<Expr>, props: seq<Prop>, part: Expr, args: seq<Expr>)
    requires name == "intersect" || name == "union"
    ensures var whole := MethodCall(receiver, name, [ArrayLiteral(elements)]);
            && Properties(MethodCall(whole, "push", [part])) == Properties(whole) + Properties(part)
            && Properties(MethodCall(MethodCall(whole, "default", args), "push", [part]))
               == Properties(whole) + Properties(part)
    ensures var single := MethodCall(receiver, "object", [ObjectLiteral(props)]);
            !PushesPart(MethodCall(single, "push", [part])) ==>
              Properties(MethodCall(single, "push", [part])) == props
    ensures !OffParts(receiver) ==>
              !PushesPart(MethodCall(MethodCall(receiver, "object", [ObjectLiteral(props)]), "push", [part]))
  {
  }

  // `set` on an object adds its field; on an intersection or a union none.
  lemma FieldSet(receiver: Expr, name: string, elements: seq<Expr>, props: seq<Prop>, key: string, value: Expr)
    requires name == "intersect" || name == "union"
    ensures var single := MethodCall(receiver, "object", [ObjectLiteral(props)]);
            Properties(MethodCall(single, "set", [StringLiteral(key), value])) == props + [Assigned(key, value)]
    ensures Composition(receiver).NoBase? ==>
              var whole := MethodCall(receiver, name, [ArrayLiteral(elements)]);
              Properties(MethodCall(whole, "set", [StringLiteral(key), value])) == Properties(whole)
  {
  }
}
