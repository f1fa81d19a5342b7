/**
 * The static walk of a schema expression to its key paths
 * (scripts/gen-config-catalog.ts:405-500).
 *
 * A schema is a chain of method calls.  What it validates is read off the
 * composition the chain hangs off: an object literal, an array of one element
 * schema, or several schemas put together.
 */
module SchemaWalk {
  import opened Options
  import opened SchemaPaths

  datatype Expr =
    // `as`, `satisfies` and parentheses.
    | Wrapped(inner: Expr)
    // A call of a property of the receiver.
    | MethodCall(receiver: Expr, name: string, args: seq<Expr>)
    | OtherCall
    | ObjectLiteral(props: seq<Prop>)
    | ArrayLiteral(elements: seq<Expr>)
    // A property of an identifier, or of anything else.
    | PropertyAccess(owner: Option<string>, name: string)
    | Identifier(name: string)
    | StringLiteral(text: string)
    | OtherExpr

  datatype Prop =
    | Assigned(key: string, value: Expr)
    | Shorthand(key: string)
    // A spread, a method or an accessor.
    | OtherProp

  function Unwrap(e: Expr): (u: Expr)
    ensures !u.Wrapped?
    ensures u == e || u < e
  {
    if e.Wrapped? then Unwrap(e.inner) else e
  }

  method UnwrapExpr(expr: Expr) returns (e: Expr)
    ensures e == Unwrap(expr)
  {
    e := expr;
    while e.Wrapped?
      invariant Unwrap(e) == Unwrap(expr)
      decreases e
    {
      e := e.inner;
    }
  }

  predicate IsCall(e: Expr) {
    e.MethodCall? || e.OtherCall?
  }

  predicate OverObject(e: Expr, name: string) {
    e.MethodCall? && e.name == name && |e.args| > 0 && e.args[0].ObjectLiteral?
  }

  predicate OverArray(e: Expr, name: string) {
    e.MethodCall? && e.name == name && |e.args| > 0 && e.args[0].ArrayLiteral?
  }

  predicate OverAny(e: Expr, name: string) {
    e.MethodCall? && e.name == name && |e.args| > 0
  }

  // ----- the paths a schema names -----

  // What a value's chain hangs off.
  datatype Base = Fields(props: seq<Prop>) | Items(element: Expr) | NoBase

  // `set('key', value)` adds a field to an object schema, `push(part)` a part to an
  // intersection or a union (vendor/schemastery/src/index.ts:309-317).
  predicate SetsField(e: Expr) {
    e.MethodCall? && e.name == "set" && |e.args| > 1 && e.args[0].StringLiteral?
  }

  function SetField(e: Expr): Prop
    requires SetsField(e)
  {
    Assigned(e.args[0].text, e.args[1])
  }

  // The composition a value is, with the fields that chained calls add.
  function Composition(e: Expr): Base {
    match e
    case Wrapped(inner) => Composition(inner)
    case MethodCall(receiver, _, args) =>
      if OverObject(e, "object") then Fields(args[0].props)
      else if OverAny(e, "array") then Items(args[0])
      else
        var base := Composition(receiver);
        if SetsField(e) && base.Fields? then Fields(base.props + [SetField(e)]) else base
    case _ => NoBase
  }

  // A property that starts a path and what the rest of the path leads into.
  ghost predicate HasField(props: seq<Prop>, steps: seq<Step>)
    decreases |steps|, 1
  {
    steps != [] && steps[0].Member? && exists p :: p in props && StartsPath(p, steps)
  }

  ghost predicate StartsPath(p: Prop, steps: seq<Step>)
    requires steps != [] && steps[0].Member?
    decreases |steps|, 0
  {
    match p
    case Assigned(key, value) => key == steps[0].name && (|steps| == 1 || HasPath(value, steps[1..]))
    case Shorthand(key) => key == steps[0].name && |steps| == 1
    case OtherProp => false
  }

  ghost predicate HasPath(value: Expr, steps: seq<Step>)
    decreases |steps|, 2
  {
    match Composition(value)
    case Fields(props) => HasField(props, steps)
    case Items(element) => steps != [] && steps[0].Element? && HasPath(element, steps[1..])
    case NoBase => false
  }

  // The chain hangs off an intersection or a union.
  predicate OffParts(e: Expr) {
    match e
    case Wrapped(inner) => OffParts(inner)
    case MethodCall(receiver, _, _) => OverArray(e, "intersect") || OverArray(e, "union") || OffParts(receiver)
    case _ => false
  }

  predicate PushesPart(e: Expr) {
    e.MethodCall? && e.name == "push" && |e.args| > 0 && OffParts(e.receiver)
  }

  // The top-level properties of a schema, in all the parts it is put together from.
  function Properties(e: Expr): seq<Prop>
    decreases e
  {
    match e
    case Wrapped(inner) => Properties(inner)
    case MethodCall(receiver, _, args) =>
      if OverObject(e, "object") then args[0].props
      else if OverArray(e, "intersect") || OverArray(e, "union") then PartProperties(args[0].elements)
      else if SetsField(e) && Composition(receiver).Fields? then Properties(receiver) + [SetField(e)]
      else if PushesPart(e) then Properties(receiver) + Properties(args[0])
      else Properties(receiver)
    case _ => []
  }

  function PartProperties(elements: seq<Expr>): seq<Prop>
    decreases elements
  {
    if elements == [] then []
    else Properties(elements[0]) + PartProperties(elements[1..])
  }

  ghost predicate HasKey(e: Expr, steps: seq<Step>) {
    HasField(Properties(e), steps)
  }

  // ----- the paths the walk follows -----

  function ValueBase(e: Expr): Base {
    match e
    case Wrapped(inner) => ValueBase(inner)
    case MethodCall(receiver, _, args) =>
      if OverObject(e, "object") then Fields(args[0].props)
      else if OverAny(e, "array") then Items(args[0])
      else ValueBase(receiver)
    case _ => NoBase
  }

  // A shorthand counts at the top level only, and a field that `set` adds nowhere.
  ghost predicate EmitsField(props: seq<Prop>, steps: seq<Step>, top: bool)
    decreases |steps|, 1
  {
    steps != [] && steps[0].Member? && exists p :: p in props && EmitsStart(p, steps, top)
  }

  ghost predicate EmitsStart(p: Prop, steps: seq<Step>, top: bool)
    requires steps != [] && steps[0].Member?
    decreases |steps|, 0
  {
    match p
    case Assigned(key, value) => key == steps[0].name && (|steps| == 1 || EmitsPath(value, steps[1..]))
    case Shorthand(key) => top && key == steps[0].name && |steps| == 1
    case OtherProp => false
  }

  ghost predicate EmitsPath(value: Expr, steps: seq<Step>)
    decreases |steps|, 2
  {
    match ValueBase(value)
    case Fields(props) => EmitsField(props, steps, false)
    case Items(element) => steps != [] && steps[0].Element? && EmitsPath(element, steps[1..])
    case NoBase => false
  }

  // The properties of the object literals the walk visits.
  function Visited(e: Expr): seq<Prop>
    decreases e
  {
    match e
    case Wrapped(inner) => Visited(inner)
    case MethodCall(receiver, _, args) =>
      if OverObject(e, "object") then args[0].props
      else if OverArray(e, "intersect") || OverArray(e, "union") then PartsVisited(args[0].elements)
      else Visited(receiver)
    case _ => []
  }

  function PartsVisited(elements: seq<Expr>): seq<Prop>
    decreases elements
  {
    if elements == [] then []
    else Visited(elements[0]) + PartsVisited(elements[1..])
  }

  ghost predicate EmitsKey(e: Expr, steps: seq<Step>) {
    EmitsField(Visited(e), steps, true)
  }

  // ----- what the walk emits -----

  function ValuePaths(value: Expr, base: string): seq<string>
    decreases value
  {
    match value
    case Wrapped(inner) => ValuePaths(inner, base)
    case MethodCall(receiver, _, args) =>
      if OverObject(value, "object") then PropPaths(args[0].props, base)
      else if OverAny(value, "array") then ValuePaths(args[0], base + "[]")
      else if IsCall(Unwrap(receiver)) then ValuePaths(Unwrap(receiver), base)
      else []
    case _ => []
  }

  function PropPath(p: Prop, base: string): seq<string>
    decreases p
  {
    match p
    case Assigned(key, value) => [base + "." + key] + ValuePaths(value, base + "." + key)
    case _ => []
  }

  function PropPaths(props: seq<Prop>, base: string): seq<string>
    decreases props
  {
    if props == [] then [] else PropPath(props[0], base) + PropPaths(props[1..], base)
  }

  function SchemaKeys(e: Expr): seq<string>
    decreases e, 0
  {
    match e
    case Wrapped(inner) => SchemaKeys(inner)
    case MethodCall(receiver, _, args) =>
      if OverObject(e, "object") then FieldKeys(args[0].props)
      else if OverArray(e, "intersect") || OverArray(e, "union") then PartKeys(args[0].elements)
      else if IsCall(Unwrap(receiver)) then SchemaKeys(Unwrap(receiver))
      else []
    case _ => []
  }

  function FieldKey(p: Prop): seq<string> {
    match p
    case Assigned(key, value) => [key] + ValuePaths(value, key)
    case Shorthand(key) => [key]
    case OtherProp => []
  }

  function FieldKeys(props: seq<Prop>): seq<string> {
    if props == [] then [] else FieldKey(props[0]) + FieldKeys(props[1..])
  }

  function PartKey(element: Expr): seq<string>
    decreases element, 1
  {
    if IsCall(Unwrap(element)) then SchemaKeys(Unwrap(element)) else []
  }

  function PartKeys(elements: seq<Expr>): seq<string>
    decreases elements, 0
  {
    if elements == [] then [] else PartKey(elements[0]) + PartKeys(elements[1..])
  }

  // ----- the emitted paths are exactly the paths the walk follows -----

  lemma {:induction false} BaseOfUnwrapped(e: Expr)
    ensures ValueBase(Unwrap(e)) == ValueBase(e) && Visited(Unwrap(e)) == Visited(e)
    ensures SchemaKeys(Unwrap(e)) == SchemaKeys(e)
    ensures forall base :: ValuePaths(Unwrap(e), base) == ValuePaths(e, base)
  {
    if e.Wrapped? {
      BaseOfUnwrapped(e.inner);
    }
  }

  lemma MemberSuffix(base: string, key: string, steps: seq<Step>)
    ensures base + Suffix([Member(key)] + steps) == (base + "." + key) + Suffix(steps)
  {
    var all := [Member(key)] + steps;
    assert all[1..] == steps;
    assert base + (("." + key) + Suffix(steps)) == (base + "." + key) + Suffix(steps);
  }

  lemma ElementSuffix(base: string, steps: seq<Step>)
    ensures base + Suffix([Element] + steps) == (base + "[]") + Suffix(steps)
  {
    var all := [Element] + steps;
    assert all[1..] == steps;
    assert base + ("[]" + Suffix(steps)) == (base + "[]") + Suffix(steps);
  }

  lemma AlongMember(props: seq<Prop>, p: Prop, steps: seq<Step>, top: bool)
    requires p in props && p.Assigned? && (steps == [] || EmitsPath(p.value, steps))
    ensures EmitsField(props, [Member(p.key)] + steps, top)
  {
    var all := [Member(p.key)] + steps;
    assert all[1..] == steps;
    assert EmitsStart(p, all, top);
  }

  lemma {:induction false} ValueSound(value: Expr, base: string, path: string) returns (steps: seq<Step>)
    requires path in ValuePaths(value, base)
    ensures EmitsPath(value, steps) && path == base + Suffix(steps)
    decreases value
  {
    match value
    case Wrapped(inner) =>
      steps := ValueSound(inner, base, path);
    case MethodCall(receiver, _, args) =>
      if OverObject(value, "object") {
        steps := PropSound(args[0].props, base, path);
      } else if OverAny(value, "array") {
        var rest := ValueSound(args[0], base + "[]", path);
        ElementSuffix(base, rest);
        steps := [Element] + rest;
        assert steps[1..] == rest;
      } else {
        steps := ValueSound(Unwrap(receiver), base, path);
        BaseOfUnwrapped(receiver);
      }
  }

  lemma {:induction false} PropSound(props: seq<Prop>, base: string, path: string) returns (steps: seq<Step>)
    requires path in PropPaths(props, base)
    ensures EmitsField(props, steps, false) && path == base + Suffix(steps)
    decreases props
  {
    if path in PropPaths(props[1..], base) {
      steps := PropSound(props[1..], base, path);
      FieldOfTail(props, steps, false);
    } else {
      var rest := OneSound(props[0], base, path);
      MemberSuffix(base, props[0].key, rest);
      AlongMember(props, props[0], rest, false);
      steps := [Member(props[0].key)] + rest;
    }
  }

  lemma {:induction false} OneSound(p: Prop, base: string, path: string) returns (rest: seq<Step>)
    requires path in PropPath(p, base)
    ensures p.Assigned? && (rest == [] || EmitsPath(p.value, rest)) && path == base + "." + p.key + Suffix(rest)
    decreases p
  {
    var key := base + "." + p.key;
    if path == key {
      rest := [];
      assert Suffix(rest) == "" && key + "" == key;
    } else {
      rest := ValueSound(p.value, key, path);
    }
  }

  lemma FieldOfTail(props: seq<Prop>, steps: seq<Step>, top: bool)
    requires props != [] && EmitsField(props[1..], steps, top)
    ensures EmitsField(props, steps, top)
  {
    var p :| p in props[1..] && EmitsStart(p, steps, top);
    assert p in props;
  }

  lemma {:induction false} ValueComplete(value: Expr, base: string, steps: seq<Step>)
    requires EmitsPath(value, steps)
    ensures base + Suffix(steps) in ValuePaths(value, base)
    decreases value
  {
    match value
    case Wrapped(inner) =>
      ValueComplete(inner, base, steps);
    case MethodCall(receiver, _, args) =>
      if OverObject(value, "object") {
        var p :| p in args[0].props && EmitsStart(p, steps, false);
        PropComplete(args[0].props, base, p, steps);
      } else if OverAny(value, "array") {
        ValueComplete(args[0], base + "[]", steps[1..]);
        ElementSuffix(base, steps[1..]);
        assert steps == [Element] + steps[1..];
      } else {
        BaseOfUnwrapped(receiver);
        ValueComplete(Unwrap(receiver), base, steps);
      }
  }

  lemma {:induction false} PropComplete(props: seq<Prop>, base: string, p: Prop, steps: seq<Step>)
    requires p in props && steps != [] && steps[0].Member? && EmitsStart(p, steps, false)
    ensures base + Suffix(steps) in PropPaths(props, base)
    decreases props
  {
    if props[0] == p {
      OneComplete(props[0], base, steps);
    } else {
      PropComplete(props[1..], base, p, steps);
    }
  }

  lemma {:induction false} OneComplete(p: Prop, base: string, steps: seq<Step>)
    requires steps != [] && steps[0].Member? && EmitsStart(p, steps, false)
    ensures base + Suffix(steps) in PropPath(p, base)
    decreases p
  {
    var key := base + "." + p.key;
    assert steps == [Member(p.key)] + steps[1..];
    MemberSuffix(base, p.key, steps[1..]);
    if |steps| == 1 {
      assert Suffix(steps[1..]) == "";
      assert key + "" == key;
    } else {
      ValueComplete(p.value, key, steps[1..]);
    }
  }

  // The same at the top level, where a key is printed without a dot.
  lemma FieldSound(props: seq<Prop>, key: string) returns (steps: seq<Step>)
    requires key in FieldKeys(props)
    ensures EmitsField(props, steps, true) && Print(steps) == key
  {
    if key in FieldKeys(props[1..]) {
      steps := FieldSound(props[1..], key);
      FieldOfTail(props, steps, true);
    } else {
      var p := props[0];
      var rest: seq<Step> := [];
      if p.Assigned? && key != p.key {
        rest := ValueSound(p.value, p.key, key);
      }
      steps := [Member(p.key)] + rest;
      assert steps[1..] == rest && Suffix([]) == "" && p.key + "" == p.key;
      assert EmitsStart(p, steps, true);
    }
  }

  lemma FieldComplete(props: seq<Prop>, p: Prop, steps: seq<Step>)
    requires p in props && steps != [] && steps[0].Member? && EmitsStart(p, steps, true)
    ensures Print(steps) in FieldKeys(props)
  {
    if props[0] == p {
      if |steps| == 1 {
        assert Suffix(steps[1..]) == "" && p.key + "" == p.key;
        assert p.key in FieldKey(p);
      } else {
        ValueComplete(p.value, p.key, steps[1..]);
      }
    } else {
      FieldComplete(props[1..], p, steps);
    }
  }

  lemma {:induction false} FieldKeysJoin(a: seq<Prop>, b: seq<Prop>)
    ensures FieldKeys(a + b) == FieldKeys(a) + FieldKeys(b)
  {
    if a == [] {
      assert a + b == b;
    } else {
      assert (a + b)[1..] == a[1..] + b;
      FieldKeysJoin(a[1..], b);
    }
  }

  lemma {:induction false} KeysOfVisited(e: Expr)
    ensures SchemaKeys(e) == FieldKeys(Visited(e))
    decreases e, 0
  {
    match e
    case Wrapped(inner) => KeysOfVisited(inner);
    case MethodCall(receiver, _, args) =>
      if OverObject(e, "object") {
      } else if OverArray(e, "intersect") || OverArray(e, "union") {
        KeysOfParts(args[0].elements);
      } else {
        KeysOfVisited(Unwrap(receiver));
        BaseOfUnwrapped(receiver);
      }
    case _ =>
  }

  lemma {:induction false} KeysOfParts(elements: seq<Expr>)
    ensures PartKeys(elements) == FieldKeys(PartsVisited(elements))
    decreases elements, 0
  {
    if elements != [] {
      KeysOfVisited(Unwrap(elements[0]));
      BaseOfUnwrapped(elements[0]);
      KeysOfParts(elements[1..]);
      FieldKeysJoin(Visited(elements[0]), PartsVisited(elements[1..]));
    }
  }

  ghost predicate Prints(e: Expr, steps: seq<Step>, key: string) {
    EmitsKey(e, steps) && Print(steps) == key
  }

  // Main result: the walk emits a key exactly when it is the print of a path it follows.
  lemma KeysAreThePaths(e: Expr, key: string)
    ensures key in SchemaKeys(e) <==> exists steps :: Prints(e, steps, key)
  {
    KeysOfVisited(e);
    if key in SchemaKeys(e) {
      var steps := FieldSound(Visited(e), key);
      assert Prints(e, steps, key);
    }
    if steps :| Prints(e, steps, key) {
      var p :| p in Visited(e) && EmitsStart(p, steps, true);
      FieldComplete(Visited(e), p, steps);
    }
  }

  // Where all keys are plain, a path is emitted exactly when the walk follows it,
  // and the emitted string parses back to it.
  lemma PlainPathsSurvive(e: Expr, steps: seq<Step>)
    requires steps != [] && steps[0].Member? && Plain(steps)
    requires forall other :: EmitsKey(e, other) ==> Plain(other)
    ensures Print(steps) in SchemaKeys(e) <==> EmitsKey(e, steps)
    ensures Parse(Print(steps)) == steps
  {
    RoundTripIff(steps);
    KeysAreThePaths(e, Print(steps));
    if other :| Prints(e, other, Print(steps)) {
      PrintInjective(other, steps);
    }
    assert EmitsKey(e, steps) ==> Prints(e, steps, Print(steps));
  }
}
