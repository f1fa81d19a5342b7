/** Strings cut at a separator, and the white space class of the scripts' patterns. */
module Text {
  /** The white space class `\s`. */
  predicate IsSpace(c: char) {
    c == ' ' || c == '\t' || c == '\n' || c == '\r' || c == '\U{000B}' || c == '\U{000C}'
    || c == '\U{00A0}' || c == '\U{FEFF}'
    || c == '\U{1680}' || '\U{2000}' <= c <= '\U{200A}' || c == '\U{2028}' || c == '\U{2029}'
    || c == '\U{202F}' || c == '\U{205F}' || c == '\U{3000}'
  }

  /** The same class, listed. */
  const WHITE_SPACE := [
    '\t', '\n', '\U{000B}', '\U{000C}', '\r', ' ', '\U{00A0}', '\U{1680}', '\U{2000}', '\U{2001}', '\U{2002}',
    '\U{2003}', '\U{2004}', '\U{2005}', '\U{2006}', '\U{2007}', '\U{2008}', '\U{2009}', '\U{200A}', '\U{2028}',
    '\U{2029}', '\U{202F}', '\U{205F}', '\U{3000}', '\U{FEFF}'
  ]

  lemma WhiteSpaceListed(c: char)
    ensures IsSpace(c) <==> c in WHITE_SPACE
  {
    if '\U{2000}' <= c <= '\U{200A}' {
      var k := c as int - 0x2000;
      assert c == WHITE_SPACE[8 + k];
    } else if IsSpace(c) {
      assert c in WHITE_SPACE;
    }
  }

  predicate Free(s: string, chars: seq<char>) {
    forall c :: c in s ==> c !in chars
  }

  predicate OnlyOf(s: string, chars: seq<char>) {
    forall c :: c in s ==> c in chars
  }

  lemma Regroup<T>(a: seq<T>, b: seq<T>, c: seq<T>)
    ensures (a + b) + c == a + (b + c)
  {
  }

  function Split(s: string, sep: char): (parts: seq<string>)
    ensures parts != []
  {
    if s == [] then [[]]
    else if s[0] == sep then [[]] + Split(s[1..], sep)
    else LengthenFirst(s[0], Split(s[1..], sep))
  }

  function LengthenFirst(c: char, parts: seq<string>): (longer: seq<string>)
    ensures longer != []
  {
    if parts == [] then [[c]] else [[c] + parts[0]] + parts[1..]
  }

  function Join(parts: seq<string>, sep: char): string {
    if parts == [] then [] else if |parts| == 1 then parts[0] else parts[0] + [sep] + Join(parts[1..], sep)
  }

  predicate Lacks(s: string, sep: char) {
    sep !in s
  }

  predicate AllLack(parts: seq<string>, sep: char) {
    forall k :: 0 <= k < |parts| ==> Lacks(parts[k], sep)
  }

  lemma {:induction false} SplitJoins(s: string, sep: char)
    ensures Join(Split(s, sep), sep) == s && AllLack(Split(s, sep), sep)
  {
    if s != [] {
      SplitJoins(s[1..], sep);
      var rest, parts := Split(s[1..], sep), Split(s, sep);
      assert s == [s[0]] + s[1..];
      if s[0] == sep {
        assert parts[1..] == rest;
      } else {
        assert parts[1..] == rest[1..];
        assert Lacks(rest[0], sep);
      }
    }
  }

  lemma {:induction false} JoinSplits(parts: seq<string>, sep: char)
    requires parts != [] && AllLack(parts, sep)
    ensures Split(Join(parts, sep), sep) == parts
    decreases |parts|
  {
    if |parts| == 1 {
      SplitPrefix(parts[0], [], sep);
      assert parts[0] + [] == parts[0];
      assert Split([], sep) == [[]];
    } else {
      JoinSplits(parts[1..], sep);
      var tail := [sep] + Join(parts[1..], sep);
      assert tail[1..] == Join(parts[1..], sep);
      assert Split(tail, sep) == [[]] + parts[1..];
      SplitPrefix(parts[0], tail, sep);
      assert parts[0] + tail == Join(parts, sep);
      assert parts[0] + [] == parts[0] && parts == [parts[0]] + parts[1..];
    }
  }

  lemma {:induction false} SplitPrefix(part: string, tail: string, sep: char)
    requires Lacks(part, sep)
    ensures Split(part + tail, sep) == [part + Split(tail, sep)[0]] + Split(tail, sep)[1..]
  {
    if part == [] {
      assert part + tail == tail;
      assert part + Split(tail, sep)[0] == Split(tail, sep)[0];
    } else {
      assert part[0] in part;
      assert (part + tail)[1..] == part[1..] + tail;
      SplitPrefix(part[1..], tail, sep);
      assert [part[0]] + (part[1..] + Split(tail, sep)[0]) == part + Split(tail, sep)[0];
    }
  }
}
