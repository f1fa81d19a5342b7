/**
 * `walkSchemaExpr` as it runs: nested visits that push keys, composed packages
 * and problems (scripts/gen-config-catalog.ts:422-500).
 */
module SchemaWalker {
  import opened Options
  import opened SchemaWalk
  import opened SchemaOmissions

  datatype Problem = NotWalkable | NotAPlainKey | NotAnElement | NoWalkableBase(name: string)

  // The workspace specifier every imported name comes from.
  type Imports = map<string, string>

  // The package whose `Config` an intersect element names.
  function ConfigOf(part: Expr, imports: Imports): Option<string> {
    if part.PropertyAccess? && part.name == "Config" && part.owner.Some? && part.owner.value in imports
       && !("." <= imports[part.owner.value])
    then Some(imports[part.owner.value])
    else None
  }

  function Composed(e: Expr, imports: Imports): seq<string>
    decreases e, 0
  {
    match e
    case Wrapped(inner) => Composed(inner, imports)
    case MethodCall(receiver, _, args) =>
      if OverObject(e, "object") then []
      else if OverArray(e, "intersect") then PartsComposed(args[0].elements, imports, true)
      else if OverArray(e, "union") then PartsComposed(args[0].elements, imports, false)
      else if IsCall(Unwrap(receiver)) then Composed(Unwrap(receiver), imports)
      else []
    case _ => []
  }

  function PartComposed(element: Expr, imports: Imports, named: bool): seq<string>
    decreases element, 1
  {
    var part := Unwrap(element);
    if named && ConfigOf(part, imports).Some? then [ConfigOf(part, imports).value]
    else if IsCall(part) then Composed(part, imports)
    else []
  }

  function PartsComposed(elements: seq<Expr>, imports: Imports, named: bool): seq<string>
    decreases elements, 0
  {
    if elements == [] then []
    else PartComposed(elements[0], imports, named) + PartsComposed(elements[1..], imports, named)
  }

  function Problems(e: Expr, imports: Imports): seq<Problem>
    decreases e, 0
  {
    match e
    case Wrapped(inner) => Problems(inner, imports)
    case MethodCall(receiver, name, args) =>
      if OverObject(e, "object") then PropProblems(args[0].props)
      else if OverArray(e, "intersect") then PartsProblems(args[0].elements, imports, true)
      else if OverArray(e, "union") then PartsProblems(args[0].elements, imports, false)
      else if IsCall(Unwrap(receiver)) then Problems(Unwrap(receiver), imports)
      else [NoWalkableBase(name)]
    case _ => [NotWalkable]
  }

  function PropProblems(props: seq<Prop>): seq<Problem> {
    if props == [] then []
    else PropProblem(props[0]) + PropProblems(props[1..])
  }

  function PropProblem(p: Prop): seq<Problem> {
    if p.OtherProp? then [NotAPlainKey] else []
  }

  function PartProblems(element: Expr, imports: Imports, named: bool): seq<Problem>
    decreases element, 1
  {
    var part := Unwrap(element);
    if named && ConfigOf(part, imports).Some? then []
    else if IsCall(part) then Problems(part, imports)
    else if named then [NotAnElement]
    else []
  }

  function PartsProblems(elements: seq<Expr>, imports: Imports, named: bool): seq<Problem>
    decreases elements, 0
  {
    if elements == [] then []
    else PartProblems(elements[0], imports, named) + PartsProblems(elements[1..], imports, named)
  }

  lemma {:induction false} UnwrappedWalk(e: Expr, imports: Imports)
    ensures Composed(Unwrap(e), imports) == Composed(e, imports) && Problems(Unwrap(e), imports) == Problems(e, imports)
  {
    if e.Wrapped? {
      UnwrappedWalk(e.inner, imports);
    }
  }

  // ----- the walk -----

  // A list grown to `now` still lacks `rest` to be `before` followed by `whole`.
  predicate Lacking<T(==)>(now: seq<T>, rest: seq<T>, before: seq<T>, whole: seq<T>) {
    now + rest == before + whole
  }

  lemma Grow<T>(now: seq<T>, pushed: seq<T>, rest: seq<T>, before: seq<T>, whole: seq<T>)
    requires Lacking(now, pushed + rest, before, whole)
    ensures Lacking(now + pushed, rest, before, whole)
  {
    assert now + (pushed + rest) == (now + pushed) + rest;
  }

  lemma Tail<T>(s: seq<T>, i: nat)
    requires i < |s|
    ensures s[i..][0] == s[i] && s[i..][1..] == s[i + 1..]
  {
  }

  class Walker {
    const imports: Imports
    var keys: seq<string>
    var composes: seq<string>
    var problems: seq<Problem>

    constructor (imports: Imports)
      ensures this.imports == imports && keys == [] && composes == [] && problems == []
    {
      this.imports := imports;
      keys, composes, problems := [], [], [];
    }

    // Nested paths under one property's value: down the chain to its base call.
    method CollectValuePaths(value: Expr, base: string)
      modifies this`keys
      ensures keys == old(keys) + ValuePaths(value, base)
      decreases value
    {
      BaseOfUnwrapped(value);
      var call := UnwrapExpr(value);
      if !call.MethodCall? {
        return;
      }
      if OverObject(call, "object") {
        var props := call.args[0].props;
        for i := 0 to |props|
          invariant Lacking(keys, PropPaths(props[i..], base), old(keys), PropPaths(props, base))
        {
          Tail(props, i);
          Grow(keys, PropPath(props[i], base), PropPaths(props[i + 1..], base), old(keys), PropPaths(props, base));
          CollectProp(props[i], base);
        }
        assert props[|props|..] == [];
        return;
      }
      if OverAny(call, "array") {
        CollectValuePaths(call.args[0], base + "[]");
        return;
      }
      var inner := UnwrapExpr(call.receiver);
      if IsCall(inner) {
        CollectValuePaths(inner, base);
      }
    }

    method CollectProp(p: Prop, base: string)
      modifies this`keys
      ensures keys == old(keys) + PropPath(p, base)
      decreases p
    {
      if p.Assigned? {
        keys := keys + [base + "." + p.key];
        CollectValuePaths(p.value, base + "." + p.key);
      }
    }

    method VisitField(p: Prop)
      modifies this
      ensures keys == old(keys) + FieldKey(p) && composes == old(composes)
      ensures problems == old(problems) + PropProblem(p)
    {
      if p.Assigned? || p.Shorthand? {
        keys := keys + [p.key];
        if p.Assigned? {
          CollectValuePaths(p.value, p.key);
        }
      } else {
        problems := problems + [NotAPlainKey];
      }
    }

    method VisitPart(element: Expr, named: bool)
      modifies this
      ensures keys == old(keys) + PartKey(element)
      ensures composes == old(composes) + PartComposed(element, imports, named)
      ensures problems == old(problems) + PartProblems(element, imports, named)
      decreases element, 1
    {
      var part := UnwrapExpr(element);
      if named && ConfigOf(part, imports).Some? {
        composes := composes + [ConfigOf(part, imports).value];
        return;
      }
      if IsCall(part) {
        Visit(part);
        return;
      }
      if named {
        problems := problems + [NotAnElement];
      }
    }

    method VisitParts(elements: seq<Expr>, named: bool)
      modifies this
      ensures keys == old(keys) + PartKeys(elements)
      ensures composes == old(composes) + PartsComposed(elements, imports, named)
      ensures problems == old(problems) + PartsProblems(elements, imports, named)
      decreases elements
    {
      for i := 0 to |elements|
        invariant Lacking(keys, PartKeys(elements[i..]), old(keys), PartKeys(elements))
        invariant Lacking(composes, PartsComposed(elements[i..], imports, named),
                          old(composes), PartsComposed(elements, imports, named))
        invariant Lacking(problems, PartsProblems(elements[i..], imports, named),
                          old(problems), PartsProblems(elements, imports, named))
      {
        Tail(elements, i);
        Grow(keys, PartKey(elements[i]), PartKeys(elements[i + 1..]), old(keys), PartKeys(elements));
        Grow(composes, PartComposed(elements[i], imports, named), PartsComposed(elements[i + 1..], imports, named),
             old(composes), PartsComposed(elements, imports, named));
        Grow(problems, PartProblems(elements[i], imports, named), PartsProblems(elements[i + 1..], imports, named),
             old(problems), PartsProblems(elements, imports, named));
        VisitPart(elements[i], named);
      }
      assert elements[|elements|..] == [];
    }

    method VisitFields(props: seq<Prop>)
      modifies this
      ensures keys == old(keys) + FieldKeys(props) && composes == old(composes)
      ensures problems == old(problems) + PropProblems(props)
    {
      for i := 0 to |props|
        invariant Lacking(keys, FieldKeys(props[i..]), old(keys), FieldKeys(props)) && composes == old(composes)
        invariant Lacking(problems, PropProblems(props[i..]), old(problems), PropProblems(props))
      {
        Tail(props, i);
        Grow(keys, FieldKey(props[i]), FieldKeys(props[i + 1..]), old(keys), FieldKeys(props));
        Grow(problems, PropProblem(props[i]), PropProblems(props[i + 1..]), old(problems), PropProblems(props));
        VisitField(props[i]);
      }
      assert props[|props|..] == [];
    }

    method Visit(e: Expr)
      modifies this
      ensures keys == old(keys) + SchemaKeys(e)
      ensures composes == old(composes) + Composed(e, imports)
      ensures problems == old(problems) + Problems(e, imports)
      decreases e, 0
    {
      BaseOfUnwrapped(e);
      UnwrappedWalk(e, imports);
      var call := UnwrapExpr(e);
      if !call.MethodCall? {
        problems := problems + [NotWalkable];
        return;
      }
      if OverObject(call, "object") {
        VisitFields(call.args[0].props);
        return;
      }
      if OverArray(call, "intersect") {
        VisitParts(call.args[0].elements, true);
        return;
      }
      if OverArray(call, "union") {
        VisitParts(call.args[0].elements, false);
        return;
      }
      var base := UnwrapExpr(call.receiver);
      if IsCall(base) {
        Visit(base);
        return;
      }
      problems := problems + [NoWalkableBase(call.name)];
    }
  }

  method WalkSchemaExpr(e: Expr, imports: Imports)
    returns (keys: seq<string>, composes: seq<string>, problems: seq<Problem>)
    ensures keys == SchemaKeys(e) && composes == Composed(e, imports) && problems == Problems(e, imports)
    ensures forall key :: key in keys <==> exists steps :: Prints(e, steps, key)
    ensures forall key :: key in keys ==> exists steps :: PrintsNamed(e, steps, key)
    ensures !OmitsKeys(e) ==> forall steps, key :: PrintsNamed(e, steps, key) ==> key in keys
  {
    var walker := new Walker(imports);
    walker.Visit(e);
    forall key ensures key in SchemaKeys(e) <==> exists steps :: Prints(e, steps, key) {
      KeysAreThePaths(e, key);
    }
    KeysAreNamed(e);
    return walker.keys, walker.composes, walker.problems;
  }

  // ----- what no problem means -----

  // Every composition that the walk does not drop is one it reads: properties are
  // plain keys, intersect elements are calls or packages, and the variants of a
  // union that are calls are read themselves.
  predicate Walkable(e: Expr, imports: Imports) {
    match e
    case Wrapped(inner) => Walkable(inner, imports)
    case MethodCall(receiver, _, args) =>
      if OverObject(e, "object") then forall p :: p in args[0].props ==> !p.OtherProp?
      else if OverArray(e, "intersect") then
        forall i :: 0 <= i < |args[0].elements| ==>
          ConfigOf(Unwrap(args[0].elements[i]), imports).Some? || Walkable(args[0].elements[i], imports)
      else if OverArray(e, "union") then
        forall i :: 0 <= i < |args[0].elements| ==>
          !IsCall(Unwrap(args[0].elements[i])) || Walkable(args[0].elements[i], imports)
      else Walkable(receiver, imports)
    case _ => false
  }

  lemma {:induction false} PlainProps(props: seq<Prop>)
    ensures PropProblems(props) == [] <==> forall p :: p in props ==> !p.OtherProp?
  {
    if props != [] {
      PlainProps(props[1..]);
      assert props == [props[0]] + props[1..];
    }
  }

  lemma {:induction false} UnwrappedWalkable(e: Expr, imports: Imports)
    ensures Walkable(Unwrap(e), imports) == Walkable(e, imports)
    ensures !IsCall(Unwrap(e)) ==> !Walkable(e, imports)
  {
    if e.Wrapped? {
      UnwrappedWalkable(e.inner, imports);
    }
  }

  lemma {:induction false} PartsWalkable(elements: seq<Expr>, imports: Imports, named: bool)
    ensures PartsProblems(elements, imports, named) == [] <==>
            forall i :: 0 <= i < |elements| ==> PartProblems(elements[i], imports, named) == []
  {
    if elements != [] {
      PartsWalkable(elements[1..], imports, named);
      assert forall i :: 1 <= i < |elements| ==> elements[i] == elements[1..][i - 1];
    }
  }

  lemma {:induction false} PartWalkable(element: Expr, imports: Imports, named: bool)
    ensures PartProblems(element, imports, named) == [] <==>
            if named then ConfigOf(Unwrap(element), imports).Some? || Walkable(element, imports)
            else !IsCall(Unwrap(element)) || Walkable(element, imports)
    decreases element, 1
  {
    NoProblemsIff(Unwrap(element), imports);
    UnwrappedWalkable(element, imports);
  }

  // The walk reports nothing exactly when it can read all that it does not drop.
  lemma {:induction false} NoProblemsIff(e: Expr, imports: Imports)
    ensures Problems(e, imports) == [] <==> Walkable(e, imports)
    decreases e, 0
  {
    match e
    case Wrapped(inner) => NoProblemsIff(inner, imports);
    case MethodCall(receiver, _, args) =>
      if OverObject(e, "object") {
        PlainProps(args[0].props);
      } else if OverArray(e, "intersect") || OverArray(e, "union") {
        var elements, named := args[0].elements, OverArray(e, "intersect");
        PartsWalkable(elements, imports, named);
        forall i | 0 <= i < |elements|
          ensures PartProblems(elements[i], imports, named) == [] <==>
                  if named then ConfigOf(Unwrap(elements[i]), imports).Some? || Walkable(elements[i], imports)
                  else !IsCall(Unwrap(elements[i])) || Walkable(elements[i], imports)
        {
          PartWalkable(elements[i], imports, named);
        }
      } else {
        NoProblemsIff(Unwrap(receiver), imports);
        UnwrappedWalkable(receiver, imports);
      }
    case _ =>
  }
}
