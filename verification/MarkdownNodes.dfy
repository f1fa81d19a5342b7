/**
 * When the destination scanner is right: on the raw text of a node written from
 * its parts, it returns the range of the destination exactly when the label and
 * the destination are balanced (link destinations, section 6.3 of CommonMark 0.31.2).
 */
module MarkdownNodes {
  import opened Options
  import opened Text
  import opened MarkdownScan

  // One authored reference: `[label](pad dest tail)`, the same behind `!`, or
  // `[label]: pad dest tail`.  The tail is the optional title with its white space.
  datatype Ref = Ref(kind: Kind, text: string, pad: string, angle: bool, dest: string, tail: string)

  function Opening(kind: Kind): string {
    if kind == Image then "![" else "["
  }

  function Bridge(kind: Kind): string {
    if kind == Definition then "]:" else "]("
  }

  function Closing(kind: Kind): string {
    if kind == Definition then "" else ")"
  }

  // Between the label and the first character of the destination.
  function Before(r: Ref): string {
    Bridge(r.kind) + r.pad + (if r.angle then "<" else "")
  }

  // What follows the destination's last character.
  function After(r: Ref): string {
    (if r.angle then ">" else "") + r.tail + Closing(r.kind)
  }

  // What follows the label.
  function Rest(r: Ref): string {
    Before(r) + (r.dest + After(r))
  }

  function Raw(r: Ref): string {
    Opening(r.kind) + (r.text + Rest(r))
  }

  // What the grammar says of the parts: white space before the destination, and
  // a destination without angle brackets that starts and stops at white space.
  predicate Authored(r: Ref) {
    && AllSpace(r.pad)
    && (!r.angle ==> r.dest != [] && r.dest[0] != '<' && !IsSpace(r.dest[0]) && (r.tail == [] || IsSpace(r.tail[0])))
  }

  // The offset of the destination in the raw text.
  function TargetStart(r: Ref): nat {
    |Opening(r.kind)| + |r.text| + 2 + |r.pad|
  }

  function DestStart(r: Ref): nat {
    TargetStart(r) + if r.angle then 1 else 0
  }

  // The range of the authored destination.
  function Authentic(r: Ref): Range {
    Range(DestStart(r), DestStart(r) + |r.dest|)
  }

  // ----- cutting the raw text -----

  lemma Dropped(pre: string, post: string)
    ensures (pre + post)[|pre|..] == post
  {
  }

  lemma DroppedTwice(a: string, b: string, c: string)
    ensures (a + (b + c))[|a| + |b|..] == c
  {
    assert a + (b + c) == (a + b) + c;
  }

  lemma RawFromLabel(r: Ref)
    ensures Raw(r)[|Opening(r.kind)|..] == r.text + Rest(r)
  {
    Dropped(Opening(r.kind), r.text + Rest(r));
  }

  lemma RawFromRest(r: Ref)
    ensures |Opening(r.kind)| + |r.text| <= |Raw(r)|
    ensures Raw(r)[|Opening(r.kind)| + |r.text|..] == Rest(r)
  {
    DroppedTwice(Opening(r.kind), r.text, Rest(r));
  }

  lemma SuffixOfSuffix(s: string, i: nat, j: nat, suffix: string)
    requires i <= |s| && s[i..] == suffix && j <= |suffix|
    ensures i + j <= |s| && s[i + j..] == suffix[j..]
  {
  }

  lemma RestFromPad(r: Ref)
    ensures 2 <= |Rest(r)|
    ensures Rest(r)[2..] == r.pad + ((if r.angle then "<" else "") + r.dest + After(r))
  {
    assert Rest(r) == Bridge(r.kind) + (r.pad + ((if r.angle then "<" else "") + r.dest + After(r)));
  }

  lemma RawFromPad(r: Ref)
    ensures TargetStart(r) - |r.pad| <= |Raw(r)|
    ensures Raw(r)[TargetStart(r) - |r.pad|..] == r.pad + ((if r.angle then "<" else "") + r.dest + After(r))
  {
    RawFromRest(r);
    RestFromPad(r);
    SuffixOfSuffix(Raw(r), |Opening(r.kind)| + |r.text|, 2, Rest(r));
  }

  lemma RawFromDest(r: Ref)
    ensures DestStart(r) <= |Raw(r)|
    ensures Raw(r)[DestStart(r)..] == r.dest + After(r)
  {
  }

  // ----- the label -----

  lemma FirstBracket(r: Ref)
    ensures IndexOf(Raw(r), '[') == Some(|Opening(r.kind)| - 1)
  {
    var raw := Raw(r);
    if r.kind == Image {
      assert raw[0] == '!' && raw[1..][0] == '[';
      assert IndexOf(raw[1..], '[') == Some(0);
    } else {
      assert raw[0] == '[';
    }
  }

  lemma LabelFound(r: Ref)
    ensures LabelEndOf(Raw(r)) == Some(|Opening(r.kind)| + |r.text|) <==> Balanced(r.text, LABEL)
  {
    assert Rest(r)[0] == ']';
    FirstBracket(r);
    RawFromLabel(r);
    EndsAfterText(r.text, Rest(r), LABEL);
  }

  lemma {:induction false} LabelEndIsBracket(s: string, depth: nat)
    requires EndOf(s, depth, LABEL).Some?
    ensures s[EndOf(s, depth, LABEL).value] == ']'
    decreases |s|
  {
    if s[0] == '\\' {
      LabelEndIsBracket(s[2..], depth);
    } else if depth > 0 || s[0] != ']' {
      LabelEndIsBracket(s[1..], Nest(s[0], depth, LABEL));
    }
  }

  // ----- the destination -----

  lemma RawFromBridge(r: Ref)
    ensures var end := |Opening(r.kind)| + |r.text|;
            && end + 2 <= |Raw(r)|
            && Raw(r)[end] == ']' && Raw(r)[end + 1] == Bridge(r.kind)[1]
  {
    RawFromRest(r);
    var suffix := Raw(r)[|Opening(r.kind)| + |r.text|..];
    assert suffix[0] == Rest(r)[0] && suffix[1] == Rest(r)[1];
  }

  lemma SeparatorFound(r: Ref)
    ensures |Opening(r.kind)| + |r.text| < |Raw(r)|
    ensures SeparatorEndOf(Raw(r), |Opening(r.kind)| + |r.text|, r.kind) == Ok(TargetStart(r) - |r.pad|)
  {
    var raw, end := Raw(r), |Opening(r.kind)| + |r.text|;
    RawFromBridge(r);
    if r.kind == Definition {
      assert raw[end + 1..][0] == ':';
    }
  }

  lemma PadSkipped(r: Ref)
    requires Authored(r)
    ensures TargetStart(r) - |r.pad| <= |Raw(r)|
    ensures SpaceEnd(Raw(r)[TargetStart(r) - |r.pad|..]) == |r.pad|
  {
    RawFromPad(r);
    var rest := (if r.angle then "<" else "") + r.dest + After(r);
    assert rest[0] == if r.angle then '<' else r.dest[0];
    SpaceEndOfPad(r.pad, rest);
  }

  predicate StartsAt(raw: string, kind: Kind, end: nat, after: nat, target: nat) {
    && LabelEndOf(raw) == Some(end) && end < |raw| && SeparatorEndOf(raw, end, kind) == Ok(after)
    && after + SpaceEnd(raw[after..]) == target
  }

  lemma StartFrom(raw: string, kind: Kind, end: nat, after: nat, target: nat)
    requires StartsAt(raw, kind, end, after, target)
    ensures DestinationStartOf(raw, kind) == Ok(target)
  {
  }

  lemma StartReady(r: Ref)
    requires Authored(r) && LabelEndOf(Raw(r)) == Some(|Opening(r.kind)| + |r.text|)
    ensures StartsAt(Raw(r), r.kind, |Opening(r.kind)| + |r.text|, TargetStart(r) - |r.pad|, TargetStart(r))
  {
    SeparatorFound(r);
    PadSkipped(r);
  }

  lemma StartFound(r: Ref)
    requires Authored(r) && LabelEndOf(Raw(r)) == Some(|Opening(r.kind)| + |r.text|)
    ensures DestinationStartOf(Raw(r), r.kind) == Ok(TargetStart(r))
  {
    StartReady(r);
    StartFrom(Raw(r), r.kind, |Opening(r.kind)| + |r.text|, TargetStart(r) - |r.pad|, TargetStart(r));
  }

  lemma RawTarget(r: Ref)
    requires Authored(r)
    ensures TargetStart(r) < |Raw(r)|
    ensures Raw(r)[TargetStart(r)] == if r.angle then '<' else r.dest[0]
  {
    RawFromPad(r);
    var rest := (if r.angle then "<" else "") + r.dest + After(r);
    assert (r.pad + rest)[|r.pad|] == rest[0];
  }

  lemma AngleFound(raw: string, start: nat, dest: string, after: string)
    requires start < |raw| && raw[start] == '<' && raw[start + 1..] == dest + after
    requires after != [] && after[0] == '>'
    ensures RangeFrom(raw, start) == Ok(Range(start + 1, start + 1 + |dest|)) <==> Balanced(dest, ANGLE)
  {
    EndsAfterText(dest, after, ANGLE);
  }

  lemma BareFound(raw: string, start: nat, dest: string, after: string)
    requires start < |raw| && raw[start] != '<' && raw[start..] == dest + after
    requires after != [] && Ends(after[0], BARE)
    ensures RangeFrom(raw, start) == Ok(Range(start, start + |dest|)) <==> Balanced(dest, BARE)
  {
    EndsAfterText(dest, after, BARE);
    EndOfContinues(dest, after, 0, BARE);
  }

  // A definition without a title: the destination runs to the end of the node.
  lemma BareFoundAtEnd(raw: string, start: nat, dest: string)
    requires start < |raw| && raw[start] != '<' && raw[start..] == dest
    ensures RangeFrom(raw, start) == Ok(Range(start, start + |dest|)) <==> !Read(dest, 0, BARE).Ended?
  {
    assert dest + [] == dest;
    EndOfContinues(dest, [], 0, BARE);
  }

  predicate DestFits(r: Ref) {
    if r.angle then Balanced(r.dest, ANGLE)
    else if After(r) == [] then !Read(r.dest, 0, BARE).Ended?
    else Balanced(r.dest, BARE)
  }

  lemma RangeFound(r: Ref, raw: string)
    requires Authored(r) && TargetStart(r) < |raw| && DestStart(r) <= |raw|
    requires raw[TargetStart(r)] == if r.angle then '<' else r.dest[0]
    requires raw[DestStart(r)..] == r.dest + After(r)
    ensures RangeFrom(raw, TargetStart(r)) == Ok(Authentic(r)) <==> DestFits(r)
  {
    if r.angle {
      AngleFound(raw, TargetStart(r), r.dest, After(r));
    } else if After(r) == [] {
      BareFoundAtEnd(raw, TargetStart(r), r.dest);
    } else {
      BareFound(raw, TargetStart(r), r.dest, After(r));
    }
  }

  // Given a balanced label, the scanner is right exactly when the destination fits its form.
  lemma DestinationFound(r: Ref)
    requires Authored(r) && Balanced(r.text, LABEL)
    ensures DestinationRangeOf(Raw(r), r.kind) == Ok(Authentic(r)) <==> DestFits(r)
  {
    LabelFound(r);
    StartFound(r);
    RawFromDest(r);
    RawTarget(r);
    RangeFound(r, Raw(r));
  }

  lemma RangeStart(raw: string, start: nat)
    requires start <= |raw|
    ensures RangeFrom(raw, start).Ok? ==> start <= RangeFrom(raw, start).value.start <= start + 1
  {
  }

  lemma {:induction false} SpaceStops(s: string, i: nat)
    requires i < |s| && !IsSpace(s[i])
    ensures SpaceEnd(s) <= i
  {
    if i > 0 && IsSpace(s[0]) {
      SpaceStops(s[1..], i - 1);
    }
  }

  lemma PadIsSpace(r: Ref, i: nat)
    requires Authored(r) && i < |r.pad|
    ensures TargetStart(r) <= |Raw(r)|
    ensures IsSpace(Raw(r)[TargetStart(r) - |r.pad| + i])
  {
    RawFromPad(r);
    assert Raw(r)[TargetStart(r) - |r.pad|..][i] == r.pad[i];
  }

  // An early label end leads to a start that does not pass the next closing bracket.
  lemma EarlyLabelEnd(raw: string, kind: Kind, e: nat, end: nat)
    requires kind != Definition && LabelEndOf(raw) == Some(e)
    requires e < end < |raw| && raw[end] == ']'
    ensures DestinationStartOf(raw, kind).Ok? ==> DestinationStartOf(raw, kind).value <= end
  {
    if raw[e + 1] == '(' {
      assert raw[e + 2..][end - (e + 2)] == ']';
      SpaceStops(raw[e + 2..], end - (e + 2));
    }
  }

  lemma LabelEndBracket(raw: string, e: nat)
    requires LabelEndOf(raw) == Some(e)
    ensures e < |raw| && raw[e] == ']'
  {
    var first := IndexOf(raw, '[').value;
    LabelEndIsBracket(raw[first + 1..], 0);
  }

  // A closing bracket past the authored label lies past the start of the destination.
  lemma LateLabelEnd(r: Ref, e: nat)
    requires Authored(r) && r.kind != Definition
    requires LabelEndOf(Raw(r)) == Some(e) && |Opening(r.kind)| + |r.text| < e
    ensures TargetStart(r) <= e
    ensures var begin := DestinationStartOf(Raw(r), r.kind);
            begin.Ok? ==> TargetStart(r) + 2 <= begin.value
  {
    LabelEndBracket(Raw(r), e);
    RawFromBridge(r);
    var from := TargetStart(r) - |r.pad|;
    if from <= e < TargetStart(r) {
      PadIsSpace(r, e - from);
    }
  }

  // A label end other than the authored one never leads to the authored destination.
  lemma WrongLabelMisses(r: Ref)
    requires Authored(r) && r.kind != Definition
    requires LabelEndOf(Raw(r)) != Some(|Opening(r.kind)| + |r.text|)
    ensures DestinationRangeOf(Raw(r), r.kind) != Ok(Authentic(r))
  {
    var begin := DestinationStartOf(Raw(r), r.kind);
    if begin.Ok? {
      RangeStart(Raw(r), begin.value);
      var e := LabelEndOf(Raw(r)).value;
      if e < |Opening(r.kind)| + |r.text| {
        RawFromBridge(r);
        EarlyLabelEnd(Raw(r), r.kind, e, |Opening(r.kind)| + |r.text|);
      } else {
        LateLabelEnd(r, e);
      }
    }
  }

  // Main result: the scanner returns the range of the destination of a link or
  // an image if and only if the label and the destination are balanced.
  lemma InlineDestinationExact(r: Ref)
    requires Authored(r) && r.kind != Definition
    ensures DestinationRangeOf(Raw(r), r.kind) == Ok(Authentic(r))
            <==> Balanced(r.text, LABEL) && Balanced(r.dest, if r.angle then ANGLE else BARE)
  {
    LabelFound(r);
    if Balanced(r.text, LABEL) {
      DestinationFound(r);
    } else {
      WrongLabelMisses(r);
    }
  }

  // A balanced reference inside a label keeps the label balanced: references nest.
  lemma ReferenceBalanced(r: Ref)
    requires Balanced(r.text, LABEL) && Balanced(Rest(r)[1..], LABEL)
    ensures Balanced(Raw(r), LABEL)
  {
    var group, rest := ['['] + r.text + [']'], Rest(r)[1..];
    BalancedGroup(r.text, LABEL);
    BalancedAppend(group, rest, LABEL);
    RawGrouped(r);
    if r.kind == Image {
      assert "!"[1..] == [];
      assert Balanced("!", LABEL);
      BalancedAppend("!", group + rest, LABEL);
    }
  }

  lemma RawGrouped(r: Ref)
    ensures var rest := ['['] + r.text + [']'] + Rest(r)[1..];
            Raw(r) == if r.kind == Image then "!" + rest else rest
  {
    assert Rest(r) == "]" + Rest(r)[1..];
  }

  // Two inputs the grammar allows and the scanner misreads: a bracket inside a
  // code span of the label, and a backslash that ends the destination before a title.
  const CODE_SPAN := Ref(Link, "`]`", "", false, "a.md", "")
  const BACKSLASH := Ref(Link, "a", "", false, "b\\", " \"t\"")

  lemma CodeSpanUnbalanced()
    ensures !Balanced("`]`", LABEL)
  {
    assert "`]`"[1..] == "]`";
    assert Read("]`", 0, LABEL) == Ended(0);
  }

  lemma BackslashUnbalanced()
    ensures !Balanced("b\\", BARE)
  {
    assert "b\\"[1..] == "\\";
    assert Read("\\", 0, BARE) == Escaping(0);
  }

  lemma MisreadInputs(r: Ref)
    requires r == CODE_SPAN || r == BACKSLASH
    ensures Authored(r) && DestinationRangeOf(Raw(r), Link) != Ok(Authentic(r))
  {
    CodeSpanUnbalanced();
    BackslashUnbalanced();
    InlineDestinationExact(r);
  }
}
