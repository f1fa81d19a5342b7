/**
 * Locating an authored destination inside one Markdown node
 * (scripts/markdown.ts:84-141).
 *
 * The scanners are loops over an index and a nesting depth.  Each is proved to
 * return what the recursive reading of the remaining text returns, and that
 * reading is related to the text a node is made of: the scanner finds the
 * destination exactly when the label and the destination are balanced.
 */
module MarkdownScan {
  import opened Options
  import opened Text

  datatype Kind = Link | Image | Definition

  datatype Range = Range(start: nat, end: nat)

  datatype ScanError = NoLabelEnd | NoSeparator | NoInlineDestination | NoAngleEnd

  // ----- nesting -----

  // What opens, closes and (at depth zero) ends a stretch of text.
  datatype Brackets = Brackets(open: char, close: char, spaceEnds: bool)

  const LABEL := Brackets('[', ']', false)
  const BARE := Brackets('(', ')', true)
  // Nothing nests between angle brackets: the closing character is tested first.
  const ANGLE := Brackets('>', '>', false)

  predicate Ends(c: char, b: Brackets) {
    c == b.close || (c != '\\' && c != b.open && b.spaceEnds && IsSpace(c))
  }

  // The depth after one character that neither escapes nor ends the text.
  function Nest(c: char, depth: nat, b: Brackets): nat
    requires depth == 0 ==> !Ends(c, b)
  {
    if c == b.close then depth - 1 else if c == b.open then depth + 1 else depth
  }

  function Plus(k: nat, r: Option<nat>): Option<nat> {
    match r
    case None => None
    case Some(n) => Some(k + n)
  }

  // The offset of the first character that ends s, read from the given depth;
  // a backslash takes the next character with it.
  function EndOf(s: string, depth: nat, b: Brackets): (r: Option<nat>)
    ensures r.Some? ==> r.value < |s|
    decreases |s|
  {
    if s == [] then None
    else if s[0] == '\\' then
      if |s| == 1 then None else Plus(2, EndOf(s[2..], depth, b))
    else if depth == 0 && Ends(s[0], b) then Some(0)
    else Plus(1, EndOf(s[1..], Nest(s[0], depth, b), b))
  }

  // What is left of the depth after reading all of a text.
  datatype Reading = Open(depth: nat) | Escaping(depth: nat) | Ended(at: nat)

  function Later(k: nat, r: Reading): Reading {
    if r.Ended? then Ended(k + r.at) else r
  }

  function Read(t: string, depth: nat, b: Brackets): (r: Reading)
    ensures r.Ended? ==> r.at < |t|
    decreases |t|
  {
    if t == [] then Open(depth)
    else if t[0] == '\\' then
      if |t| == 1 then Escaping(depth) else Later(2, Read(t[2..], depth, b))
    else if depth == 0 && Ends(t[0], b) then Ended(0)
    else Later(1, Read(t[1..], Nest(t[0], depth, b), b))
  }

  // Every bracket of the text that is not escaped has its partner in the text,
  // nothing ends the text early, and its last character escapes nothing.
  predicate Balanced(t: string, b: Brackets) {
    Read(t, 0, b) == Open(0)
  }

  // Reading a text and then what follows it.
  function Continue(t: string, rest: string, depth: nat, b: Brackets): Option<nat> {
    match Read(t, depth, b)
    case Ended(k) => Some(k)
    case Open(n) => Plus(|t|, EndOf(rest, n, b))
    case Escaping(n) => if rest == [] then None else Plus(|t| + 1, EndOf(rest[1..], n, b))
  }

  lemma LastEscapes(t: string, rest: string, depth: nat, b: Brackets)
    requires |t| == 1 && t[0] == '\\'
    ensures EndOf(t + rest, depth, b) == Continue(t, rest, depth, b)
  {
    assert rest != [] ==> (t + rest)[2..] == rest[1..];
  }

  lemma {:induction false} EndOfContinues(t: string, rest: string, depth: nat, b: Brackets)
    ensures EndOf(t + rest, depth, b) == Continue(t, rest, depth, b)
    decreases |t|
  {
    if t == [] {
      assert t + rest == rest;
    } else if t[0] == '\\' {
      if |t| == 1 {
        LastEscapes(t, rest, depth, b);
      } else {
        assert (t + rest)[2..] == t[2..] + rest;
        EndOfContinues(t[2..], rest, depth, b);
      }
    } else {
      assert (t + rest)[1..] == t[1..] + rest;
      if depth > 0 || !Ends(t[0], b) {
        EndOfContinues(t[1..], rest, Nest(t[0], depth, b), b);
      }
    }
  }

  // A text followed by an ending character is found whole exactly when it is balanced.
  lemma EndsAfterText(t: string, rest: string, b: Brackets)
    requires rest != [] && rest[0] != '\\' && Ends(rest[0], b)
    ensures EndOf(t + rest, 0, b) == Some(|t|) <==> Balanced(t, b)
  {
    EndOfContinues(t, rest, 0, b);
  }

  // Texts in a row: the second is read from the depth the first left.
  lemma {:induction false} ReadAppend(t: string, u: string, depth: nat, b: Brackets)
    requires Read(t, depth, b).Open?
    ensures Read(t + u, depth, b) == Later(|t|, Read(u, Read(t, depth, b).depth, b))
    decreases |t|
  {
    if t == [] {
      assert t + u == u;
    } else if t[0] == '\\' {
      assert (t + u)[2..] == t[2..] + u;
      ReadAppend(t[2..], u, depth, b);
    } else {
      assert (t + u)[1..] == t[1..] + u;
      ReadAppend(t[1..], u, Nest(t[0], depth, b), b);
    }
  }

  // A text that is balanced at depth zero is balanced inside any nesting.
  lemma {:induction false} ReadDeeper(t: string, depth: nat, more: nat, b: Brackets)
    requires Read(t, depth, b).Open?
    ensures Read(t, depth + more, b) == Open(Read(t, depth, b).depth + more)
    decreases |t|
  {
    if t != [] {
      if t[0] == '\\' {
        ReadDeeper(t[2..], depth, more, b);
      } else {
        ReadDeeper(t[1..], Nest(t[0], depth, b), more, b);
      }
    }
  }

  lemma BalancedAppend(t: string, u: string, b: Brackets)
    requires Balanced(t, b) && Balanced(u, b)
    ensures Balanced(t + u, b)
  {
    ReadAppend(t, u, 0, b);
  }

  // A bracketed balanced text is balanced.
  lemma BalancedGroup(t: string, b: Brackets)
    requires Balanced(t, b) && b.open != b.close && b.open != '\\' && b.close != '\\'
             && !(b.spaceEnds && IsSpace(b.open))
    ensures Balanced([b.open] + t + [b.close], b)
  {
    var s := [b.open] + t + [b.close];
    assert s[1..] == t + [b.close];
    ReadDeeper(t, 0, 1, b);
    ReadAppend(t, [b.close], 1, b);
    assert Read([b.close], 1, b) == Open(0) by {
      assert [b.close][1..] == [];
    }
  }

  // ----- the loops -----

  predicate AllSpace(s: string) {
    forall i :: 0 <= i < |s| ==> IsSpace(s[i])
  }

  // A loop that started at `start` has reached `index` at this depth; a trailing
  // backslash takes it past the end.
  predicate Reached(s: string, start: nat, index: nat, depth: nat, b: Brackets) {
    && start <= index
    && start <= |s|
    && EndOf(s[start..], 0, b) == if index <= |s| then Plus(index - start, EndOf(s[index..], depth, b)) else None
  }

  lemma ReachedEscape(s: string, start: nat, index: nat, depth: nat, b: Brackets)
    requires Reached(s, start, index, depth, b) && index < |s| && s[index] == '\\'
    ensures Reached(s, start, index + 2, depth, b)
  {
    if index + 1 < |s| {
      assert s[index..][2..] == s[index + 2..];
    }
  }

  lemma ReachedNext(s: string, start: nat, index: nat, depth: nat, b: Brackets)
    requires Reached(s, start, index, depth, b) && index < |s| && s[index] != '\\'
    requires depth == 0 ==> !Ends(s[index], b)
    ensures Reached(s, start, index + 1, Nest(s[index], depth, b), b)
  {
    assert s[index..][1..] == s[index + 1..];
  }

  lemma ReachedEnd(s: string, start: nat, index: nat, b: Brackets)
    requires Reached(s, start, index, 0, b) && index < |s| && s[index] != '\\' && Ends(s[index], b)
    ensures EndOf(s[start..], 0, b) == Some(index - start)
  {
  }

  lemma ReachedLimit(s: string, start: nat, index: nat, depth: nat, b: Brackets)
    requires Reached(s, start, index, depth, b) && |s| <= index
    ensures EndOf(s[start..], 0, b) == None
  {
  }

  // How much white space a text starts with.
  function SpaceEnd(s: string): (k: nat)
    ensures k <= |s| && AllSpace(s[..k]) && (k < |s| ==> !IsSpace(s[k]))
  {
    if s == [] || !IsSpace(s[0]) then 0
    else
      var k := SpaceEnd(s[1..]);
      assert s[..1 + k] == [s[0]] + s[1..][..k];
      1 + k
  }

  lemma {:induction false} SpaceEndOfPad(pad: string, rest: string)
    requires AllSpace(pad) && (rest != [] ==> !IsSpace(rest[0]))
    ensures SpaceEnd(pad + rest) == |pad|
  {
    if pad == [] {
      assert pad + rest == rest;
    } else {
      assert (pad + rest)[1..] == pad[1..] + rest;
      SpaceEndOfPad(pad[1..], rest);
    }
  }

  // The first offset at or after start that holds no white space.
  method SkipWhitespace(source: string, start: nat) returns (index: nat)
    requires start <= |source|
    ensures index == start + SpaceEnd(source[start..])
  {
    index := start;
    while index < |source| && IsSpace(source[index])
      invariant start <= index <= |source|
      invariant SpaceEnd(source[start..]) == index - start + SpaceEnd(source[index..])
    {
      assert source[index..][1..] == source[index + 1..];
      index := index + 1;
    }
  }

  // The offset of the first occurrence of a character.
  function IndexOf(s: string, c: char): (r: Option<nat>)
    ensures r.Some? ==> r.value < |s| && s[r.value] == c
  {
    if s == [] then None else if s[0] == c then Some(0) else Plus(1, IndexOf(s[1..], c))
  }

  // The offset of the bracket that closes the first opening bracket.
  function LabelEndOf(s: string): (r: Option<nat>)
    ensures r.Some? ==> r.value < |s|
  {
    match IndexOf(s, '[')
    case None => None
    case Some(first) => Plus(first + 1, EndOf(s[first + 1..], 0, LABEL))
  }

  // What the label loop returns from an index and a depth.
  function LabelLoop(s: string, index: nat, depth: int): Option<nat>
    decreases |s| - index
  {
    if |s| <= index then None
    else if s[index] == '\\' then LabelLoop(s, index + 2, depth)
    else if s[index] == '[' then LabelLoop(s, index + 1, depth + 1)
    else if s[index] == ']' then if depth == 1 then Some(index) else LabelLoop(s, index + 1, depth - 1)
    else LabelLoop(s, index + 1, depth)
  }

  lemma {:induction false} LabelLoopReads(s: string, index: nat, depth: nat)
    requires index <= |s|
    ensures LabelLoop(s, index, depth + 1) == Plus(index, EndOf(s[index..], depth, LABEL))
    decreases |s| - index
  {
    if index < |s| {
      var rest := s[index..];
      assert rest[1..] == s[index + 1..];
      if s[index] == '\\' {
        if index + 2 <= |s| {
          assert rest[2..] == s[index + 2..];
          LabelLoopReads(s, index + 2, depth);
        }
      } else if depth > 0 || s[index] != ']' {
        LabelLoopReads(s, index + 1, Nest(s[index], depth, LABEL));
      }
    }
  }

  method LabelEnd(source: string) returns (r: Option<nat>)
    ensures r == LabelEndOf(source)
  {
    var first := IndexOf(source, '[');
    if first.None? {
      return None;
    }
    LabelLoopReads(source, first.value + 1, 0);
    var depth := 0;
    var index := first.value;
    while index < |source|
      invariant LabelLoop(source, index, depth) == LabelLoop(source, first.value, 0)
      decreases |source| - index
    {
      var c := source[index];
      if c == '\\' {
        index := index + 1;
      } else if c == '[' {
        depth := depth + 1;
      } else if c == ']' {
        depth := depth - 1;
        if depth == 0 {
          return Some(index);
        }
      }
      index := index + 1;
    }
    return None;
  }

  // ----- the destination -----

  function BareRange(raw: string, start: nat): Range
    requires start <= |raw|
  {
    match EndOf(raw[start..], 0, BARE)
    case None => Range(start, |raw|)
    case Some(k) => Range(start, start + k)
  }

  function AngleRange(raw: string, start: nat): Result<Range, ScanError>
    requires start <= |raw|
  {
    match EndOf(raw[start..], 0, ANGLE)
    case None => Err(NoAngleEnd)
    case Some(k) => Ok(Range(start, start + k))
  }

  function RangeFrom(raw: string, start: nat): Result<Range, ScanError>
    requires start <= |raw|
  {
    if start < |raw| && raw[start] == '<' then AngleRange(raw, start + 1) else Ok(BareRange(raw, start))
  }

  // Just past what separates the label from the destination.
  function SeparatorEndOf(raw: string, endOfLabel: nat, kind: Kind): (r: Result<nat, ScanError>)
    requires endOfLabel < |raw|
    ensures r.Ok? ==> r.value <= |raw|
  {
    if kind == Definition then
      match IndexOf(raw[endOfLabel + 1..], ':')
      case None => Err(NoSeparator)
      case Some(k) => Ok(endOfLabel + 1 + k + 1)
    else if endOfLabel + 1 < |raw| && raw[endOfLabel + 1] == '(' then Ok(endOfLabel + 2)
    else Err(NoInlineDestination)
  }

  function DestinationStartOf(raw: string, kind: Kind): (r: Result<nat, ScanError>)
    ensures r.Ok? ==> r.value <= |raw|
  {
    match LabelEndOf(raw)
    case None => Err(NoLabelEnd)
    case Some(end) =>
      match SeparatorEndOf(raw, end, kind)
      case Err(e) => Err(e)
      case Ok(after) => Ok(after + SpaceEnd(raw[after..]))
  }

  // The scanner's answer for the raw text of one node.
  function DestinationRangeOf(raw: string, kind: Kind): Result<Range, ScanError> {
    match DestinationStartOf(raw, kind)
    case Err(e) => Err(e)
    case Ok(start) => RangeFrom(raw, start)
  }

  lemma {:induction false} IndexIsFirst(s: string, c: char)
    ensures IndexOf(s, c).None? <==> c !in s
    ensures IndexOf(s, c).Some? ==> c !in s[..IndexOf(s, c).value]
  {
    if s != [] && s[0] != c {
      IndexIsFirst(s[1..], c);
      assert s == [s[0]] + s[1..];
      if IndexOf(s[1..], c).Some? {
        var k := IndexOf(s[1..], c).value;
        assert s[..k + 1] == [s[0]] + s[1..][..k];
      }
    }
  }

  // Where the separator ends: at the colon of a definition, wherever it is, and right
  // after the label of a link or an image.
  lemma SeparatorIff(raw: string, end: nat, kind: Kind)
    requires end < |raw|
    ensures kind == Definition ==>
              (SeparatorEndOf(raw, end, kind) == Err(NoSeparator) <==> ':' !in raw[end + 1..])
    ensures kind == Definition ==> forall after: nat :: end + 1 < after <= |raw| ==>
              (SeparatorEndOf(raw, end, kind) == Ok(after) <==>
                 raw[after - 1] == ':' && ':' !in raw[end + 1..after - 1])
    ensures kind != Definition ==>
              SeparatorEndOf(raw, end, kind)
              == if end + 1 < |raw| && raw[end + 1] == '(' then Ok(end + 2) else Err(NoInlineDestination)
  {
    if kind == Definition {
      var rest := raw[end + 1..];
      IndexIsFirst(rest, ':');
      forall after: nat | end + 1 < after <= |raw|
        ensures SeparatorEndOf(raw, end, kind) == Ok(after) <==>
                  raw[after - 1] == ':' && ':' !in raw[end + 1..after - 1]
      {
        var k := after - 1 - (end + 1);
        assert rest[k] == raw[after - 1] && rest[..k] == raw[end + 1..after - 1];
        if IndexOf(rest, ':').Some? {
          var first := IndexOf(rest, ':').value;
          assert k < first ==> rest[..first][k] == rest[k];
          assert first < k ==> rest[..k][first] == ':';
        }
      }
    }
  }

  // Which error the scanner answers.
  lemma ErrorsIff(raw: string, kind: Kind)
    ensures DestinationRangeOf(raw, kind) == Err(NoLabelEnd) <==> LabelEndOf(raw).None?
    ensures DestinationRangeOf(raw, kind) == Err(NoAngleEnd) <==>
              exists start: nat :: DestinationStartOf(raw, kind) == Ok(start) && start < |raw| && raw[start] == '<'
                && EndOf(raw[start + 1..], 0, ANGLE).None?
    ensures DestinationRangeOf(raw, kind).Err? && LabelEndOf(raw).Some?
            && SeparatorEndOf(raw, LabelEndOf(raw).value, kind).Err? ==>
              DestinationRangeOf(raw, kind).error == SeparatorEndOf(raw, LabelEndOf(raw).value, kind).error
  {
    var begin := DestinationStartOf(raw, kind);
    if begin.Ok? {
      assert DestinationRangeOf(raw, kind) == RangeFrom(raw, begin.value);
    }
  }

  method ScanAngle(raw: string, start: nat) returns (r: Result<Range, ScanError>)
    requires start <= |raw|
    ensures r == AngleRange(raw, start)
  {
    var index := start;
    while index < |raw|
      invariant Reached(raw, start, index, 0, ANGLE)
      decreases |raw| - index
    {
      if raw[index] == '\\' {
        ReachedEscape(raw, start, index, 0, ANGLE);
        index := index + 1;
      } else if raw[index] == '>' {
        ReachedEnd(raw, start, index, ANGLE);
        return Ok(Range(start, index));
      } else {
        ReachedNext(raw, start, index, 0, ANGLE);
      }
      index := index + 1;
    }
    ReachedLimit(raw, start, index, 0, ANGLE);
    return Err(NoAngleEnd);
  }

  method ScanBare(raw: string, start: nat) returns (r: Range)
    requires start <= |raw|
    ensures r == BareRange(raw, start)
  {
    var depth: nat := 0;
    var index := start;
    while index < |raw|
      invariant Reached(raw, start, index, depth, BARE)
      decreases |raw| - index
    {
      var c := raw[index];
      if c == '\\' {
        ReachedEscape(raw, start, index, depth, BARE);
        index := index + 1;
      } else if c == '(' {
        ReachedNext(raw, start, index, depth, BARE);
        depth := depth + 1;
      } else if c == ')' {
        if depth == 0 {
          ReachedEnd(raw, start, index, BARE);
          return Range(start, index);
        }
        ReachedNext(raw, start, index, depth, BARE);
        depth := depth - 1;
      } else if IsSpace(c) && depth == 0 {
        ReachedEnd(raw, start, index, BARE);
        return Range(start, index);
      } else {
        ReachedNext(raw, start, index, depth, BARE);
      }
      index := index + 1;
    }
    ReachedLimit(raw, start, index, depth, BARE);
    return Range(start, |raw|);
  }

  // Where the destination of a node starts.
  method DestinationStart(raw: string, kind: Kind) returns (r: Result<nat, ScanError>)
    ensures r == DestinationStartOf(raw, kind)
  {
    var labelEnd := LabelEnd(raw);
    if labelEnd.None? {
      return Err(NoLabelEnd);
    }
    var separator := SeparatorEndOf(raw, labelEnd.value, kind);
    if separator.Err? {
      return Err(separator.error);
    }
    var start := SkipWhitespace(raw, separator.value);
    return Ok(start);
  }

  method DestinationRange(raw: string, kind: Kind) returns (r: Result<Range, ScanError>)
    ensures r == DestinationRangeOf(raw, kind)
  {
    var begin := DestinationStart(raw, kind);
    if begin.Err? {
      return Err(begin.error);
    }
    var start := begin.value;
    if start < |raw| && raw[start] == '<' {
      r := ScanAngle(raw, start + 1);
    } else {
      var range := ScanBare(raw, start);
      r := Ok(range);
    }
  }
}
