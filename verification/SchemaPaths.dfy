/**
 * Schema key paths (scripts/gen-config-catalog.ts:229-245, 432-451): the string a
 * walk prints for a path, and the steps a lookup parses it into.
 */
module SchemaPaths {
  import opened Text

  // One step of a schema path: a named member or an array-element hop.
  datatype Step = Member(name: string) | Element

  // ----- printing -----

  // A member is printed after a dot and an array element as a pair of brackets.
  function Suffix(steps: seq<Step>): string {
    if steps == [] then ""
    else
      (match steps[0]
       case Member(name) => "." + name
       case Element => "[]") + Suffix(steps[1..])
  }

  // The first member is printed without its dot.
  function Print(steps: seq<Step>): string
    requires steps != [] && steps[0].Member?
  {
    steps[0].name + Suffix(steps[1..])
  }

  lemma {:induction false} SuffixAppend(a: seq<Step>, b: seq<Step>)
    ensures Suffix(a + b) == Suffix(a) + Suffix(b)
  {
    if a == [] {
      assert a + b == b;
    } else {
      assert (a + b)[1..] == a[1..] + b;
      SuffixAppend(a[1..], b);
    }
  }

  // ----- parsing -----

  predicate EndsWithBrackets(s: string) {
    |s| >= 2 && s[|s| - 2..] == "[]"
  }

  // The name of a segment, without the brackets it ends in.
  function NameOf(segment: string): (name: string)
    ensures !EndsWithBrackets(name)
    decreases |segment|
  {
    if EndsWithBrackets(segment) then NameOf(segment[..|segment| - 2]) else segment
  }

  function ArraysOf(segment: string): nat
    decreases |segment|
  {
    if EndsWithBrackets(segment) then ArraysOf(segment[..|segment| - 2]) + 1 else 0
  }

  function Elements(n: nat): (steps: seq<Step>)
    ensures |steps| == n && forall i :: 0 <= i < n ==> steps[i] == Element
  {
    if n == 0 then [] else [Element] + Elements(n - 1)
  }

  function SegmentSteps(segment: string): seq<Step> {
    [Member(NameOf(segment))] + Elements(ArraysOf(segment))
  }

  function StepsOf(segments: seq<string>): seq<Step> {
    if segments == [] then [] else SegmentSteps(segments[0]) + StepsOf(segments[1..])
  }

  lemma {:induction false} StepsAppend(segments: seq<string>, segment: string)
    ensures StepsOf(segments + [segment]) == StepsOf(segments) + SegmentSteps(segment)
  {
    var all := segments + [segment];
    if segments == [] {
      assert all[1..] == [];
    } else {
      assert all[1..] == segments[1..] + [segment];
      StepsAppend(segments[1..], segment);
    }
  }

  function Parse(path: string): seq<Step> {
    StepsOf(Split(path, '.'))
  }

  // Strips the brackets a segment ends in and counts them.
  method StripArrays(segment: string) returns (name: string, arrays: nat)
    ensures name == NameOf(segment) && arrays == ArraysOf(segment)
  {
    name, arrays := segment, 0;
    while |name| >= 2 && name[|name| - 2..] == "[]"
      invariant NameOf(name) == NameOf(segment)
      invariant ArraysOf(name) + arrays == ArraysOf(segment)
      decreases |name|
    {
      name := name[..|name| - 2];
      arrays := arrays + 1;
    }
  }

  method PushSegment(steps: seq<Step>, name: string, arrays: nat) returns (out: seq<Step>)
    ensures out == steps + ([Member(name)] + Elements(arrays))
  {
    out := steps + [Member(name)];
    for k := 0 to arrays
      invariant out == steps + ([Member(name)] + Elements(k))
    {
      ElementsGrow(k);
      out := out + [Element];
    }
  }

  method ParsePath(path: string) returns (steps: seq<Step>)
    ensures steps == Parse(path)
  {
    steps := [];
    var segments := Split(path, '.');
    for i := 0 to |segments|
      invariant steps == StepsOf(segments[..i])
    {
      var name, arrays := StripArrays(segments[i]);
      StepsAppend(segments[..i], segments[i]);
      assert segments[..i + 1] == segments[..i] + [segments[i]];
      steps := PushSegment(steps, name, arrays);
    }
    assert segments[..|segments|] == segments;
  }

  lemma {:induction false} ElementsGrow(n: nat)
    ensures Elements(n + 1) == Elements(n) + [Element]
  {
    if n > 0 {
      ElementsGrow(n - 1);
    }
  }

  // ----- printing what was parsed -----

  lemma {:induction false} BracketsOf(n: nat)
    ensures Suffix(Elements(n + 1)) == Suffix(Elements(n)) + "[]"
  {
    ElementsGrow(n);
    SuffixAppend(Elements(n), [Element]);
    var one: seq<Step> := [Element];
    assert one[1..] == [] && Suffix(one) == "[]";
  }

  lemma {:induction false} SegmentRebuilt(segment: string)
    ensures NameOf(segment) + Suffix(Elements(ArraysOf(segment))) == segment
    decreases |segment|
  {
    if EndsWithBrackets(segment) {
      var front := segment[..|segment| - 2];
      SegmentRebuilt(front);
      BracketsOf(ArraysOf(front));
      assert segment == front + "[]";
    }
  }

  lemma SegmentSuffix(segment: string)
    ensures Suffix(SegmentSteps(segment)) == "." + segment
  {
    var steps := SegmentSteps(segment);
    assert steps[1..] == Elements(ArraysOf(segment));
    SegmentRebuilt(segment);
    assert Suffix(steps) == "." + NameOf(segment) + Suffix(steps[1..]);
  }

  lemma DotAssoc(a: string, b: string)
    ensures ("." + a) + ("." + b) == "." + (a + ['.'] + b)
  {
  }

  lemma {:induction false} SegmentsSuffix(segments: seq<string>)
    requires segments != []
    ensures Suffix(StepsOf(segments)) == "." + Join(segments, '.')
    decreases |segments|
  {
    SegmentSuffix(segments[0]);
    SuffixAppend(SegmentSteps(segments[0]), StepsOf(segments[1..]));
    if |segments| == 1 {
      assert StepsOf(segments) == SegmentSteps(segments[0]);
    } else {
      SegmentsSuffix(segments[1..]);
      DotAssoc(segments[0], Join(segments[1..], '.'));
    }
  }

  lemma SuffixOfPath(steps: seq<Step>)
    requires steps != [] && steps[0].Member?
    ensures Suffix(steps) == "." + Print(steps)
  {
    assert ("." + steps[0].name) + Suffix(steps[1..]) == "." + (steps[0].name + Suffix(steps[1..]));
  }

  lemma DotInjective(a: string, b: string)
    requires "." + a == "." + b
    ensures a == b
  {
    assert ("." + a)[1..] == a && ("." + b)[1..] == b;
  }

  // Parsing loses nothing: any string is the print of its parse.
  lemma PrintsParsed(path: string)
    ensures Parse(path) != [] && Parse(path)[0].Member? && Print(Parse(path)) == path
  {
    SegmentsSuffix(Split(path, '.'));
    SplitJoins(path, '.');
    SuffixOfPath(Parse(path));
    DotInjective(Print(Parse(path)), path);
  }

  // ----- parsing what was printed -----

  // A key that no separator can split.
  predicate PlainKey(key: string) {
    Lacks(key, '.') && !EndsWithBrackets(key)
  }

  predicate PlainStep(step: Step) {
    step.Member? ==> PlainKey(step.name)
  }

  predicate Plain(steps: seq<Step>) {
    forall i :: 0 <= i < |steps| ==> PlainStep(steps[i])
  }

  lemma {:induction false} NameLacks(segment: string, c: char)
    requires Lacks(segment, c)
    ensures Lacks(NameOf(segment), c)
    decreases |segment|
  {
    if EndsWithBrackets(segment) {
      NameLacks(segment[..|segment| - 2], c);
    }
  }

  lemma {:induction false} StepsPlain(segments: seq<string>)
    requires AllLack(segments, '.')
    ensures Plain(StepsOf(segments))
  {
    if segments != [] {
      assert Lacks(segments[0], '.');
      NameLacks(segments[0], '.');
      StepsPlain(segments[1..]);
    }
  }

  lemma ParsesPlain(path: string)
    ensures Plain(Parse(path))
  {
    SplitJoins(path, '.');
    StepsPlain(Split(path, '.'));
  }

  // The last segment of a plain path carries its trailing elements.
  lemma {:induction false} SegmentParsed(name: string, n: nat)
    requires !EndsWithBrackets(name)
    ensures SegmentSteps(name + Suffix(Elements(n))) == [Member(name)] + Elements(n)
  {
    SegmentCounted(name, n);
  }

  lemma {:induction false} SegmentCounted(name: string, n: nat)
    requires !EndsWithBrackets(name)
    ensures NameOf(name + Suffix(Elements(n))) == name && ArraysOf(name + Suffix(Elements(n))) == n
  {
    if n == 0 {
      assert name + "" == name;
    } else {
      SegmentCounted(name, n - 1);
      BracketsOf(n - 1);
      var front := name + Suffix(Elements(n - 1));
      var segment := name + Suffix(Elements(n));
      assert segment == front + "[]";
      assert segment[..|segment| - 2] == front && segment[|segment| - 2..] == "[]";
    }
  }

  // How many elements a path starts with.
  function Leading(steps: seq<Step>): (n: nat)
    ensures n <= |steps| && steps[..n] == Elements(n) && (n < |steps| ==> steps[n].Member?)
  {
    if steps == [] || steps[0].Member? then 0
    else
      var n := Leading(steps[1..]);
      assert steps[..1 + n] == [steps[0]] + steps[1..][..n];
      1 + n
  }

  lemma {:induction false} ElementsLack(n: nat)
    ensures Lacks(Suffix(Elements(n)), '.')
  {
    if n > 0 {
      ElementsLack(n - 1);
      assert Elements(n)[1..] == Elements(n - 1);
    }
  }

  lemma {:induction false} PlainTail(steps: seq<Step>, k: nat)
    requires Plain(steps) && k <= |steps|
    ensures Plain(steps[k..])
  {
  }

  // A first segment in front of a printed path is parsed on its own.
  lemma SegmentInFront(segment: string, path: string)
    requires Lacks(segment, '.')
    ensures Split(segment + ("." + path), '.') == [segment] + Split(path, '.')
  {
    assert ("." + path)[1..] == path;
    SplitPrefix(segment, "." + path, '.');
    assert Split("." + path, '.') == [""] + Split(path, '.');
    assert segment + "" == segment;
  }

  lemma OnlySegment(segment: string)
    requires Lacks(segment, '.')
    ensures Split(segment, '.') == [segment]
  {
    assert segment + "" == segment;
    SplitPrefix(segment, "", '.');
    assert Split("", '.') == [""];
  }

  lemma PrintParts(steps: seq<Step>, n: nat)
    requires steps != [] && steps[0].Member? && n < |steps| && steps[1..1 + n] == Elements(n)
    ensures Print(steps) == (steps[0].name + Suffix(Elements(n))) + Suffix(steps[1 + n..])
    ensures steps == ([steps[0]] + Elements(n)) + steps[1 + n..]
  {
    assert steps[1..] == Elements(n) + steps[1 + n..];
    SuffixAppend(Elements(n), steps[1 + n..]);
    var a, b, c := steps[0].name, Suffix(Elements(n)), Suffix(steps[1 + n..]);
    assert a + (b + c) == (a + b) + c;
    assert steps == [steps[0]] + steps[1..];
  }

  lemma {:induction false} ParsesPrinted(steps: seq<Step>)
    requires steps != [] && steps[0].Member? && Plain(steps)
    ensures Parse(Print(steps)) == steps
    decreases |steps|
  {
    var name, n := steps[0].name, Leading(steps[1..]);
    var segment, more := name + Suffix(Elements(n)), steps[1 + n..];
    assert PlainStep(steps[0]);
    assert steps[1..1 + n] == steps[1..][..n];
    ElementsLack(n);
    SegmentParsed(name, n);
    PrintParts(steps, n);
    if more == [] {
      assert Print(steps) == segment;
      OnlySegment(segment);
      StepsAppend([], segment);
    } else {
      assert more[0] == steps[1..][n];
      PlainTail(steps, 1 + n);
      ParsesPrinted(more);
      SuffixOfPath(more);
      SegmentInFront(segment, Print(more));
      assert ([segment] + Split(Print(more), '.'))[1..] == Split(Print(more), '.');
    }
  }

  // Main result: a printed path parses back to its steps if and only if no key
  // holds a dot or ends in brackets.
  lemma RoundTripIff(steps: seq<Step>)
    requires steps != [] && steps[0].Member?
    ensures Parse(Print(steps)) == steps <==> Plain(steps)
  {
    if Plain(steps) {
      ParsesPrinted(steps);
    } else {
      ParsesPlain(Print(steps));
    }
  }

  // Different plain paths never print alike.
  lemma PrintInjective(a: seq<Step>, b: seq<Step>)
    requires a != [] && a[0].Member? && Plain(a)
    requires b != [] && b[0].Member? && Plain(b)
    ensures Print(a) == Print(b) <==> a == b
  {
    ParsesPrinted(a);
    ParsesPrinted(b);
  }
}
