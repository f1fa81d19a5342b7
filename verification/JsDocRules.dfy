/**
 * The kinds of lines of a JSDoc block and what cleaning leaves of them, said of
 * their characters (scripts/jsdoc.ts:32-77).
 */
module JsDocRules {
  import opened Options
  import opened Text
  import opened Words
  import opened JsDoc
  import opened JsDocParser

  predicate White(s: string) {
    OnlyOf(s, WHITE_SPACE)
  }

  // Text that neither starts nor ends with white space.
  predicate Bare(s: string) {
    s == "" || (s[0] !in WHITE_SPACE && s[|s| - 1] !in WHITE_SPACE)
  }

  lemma {:induction false} StartTrimmed(indent: string, s: string)
    requires White(indent) && (s == "" || s[0] !in WHITE_SPACE)
    ensures TrimStart(indent + s) == s
  {
    if indent == "" {
      assert indent + s == s;
      if s != "" {
        WhiteSpaceListed(s[0]);
      }
    } else {
      WhiteSpaceListed(indent[0]);
      assert (indent + s)[0] == indent[0] && (indent + s)[1..] == indent[1..] + s;
      StartTrimmed(indent[1..], s);
    }
  }

  lemma {:induction false} StartSplits(s: string) returns (indent: string)
    ensures s == indent + TrimStart(s) && White(indent)
    ensures TrimStart(s) == "" || TrimStart(s)[0] !in WHITE_SPACE
  {
    indent := "";
    if s != "" {
      WhiteSpaceListed(s[0]);
      if IsSpace(s[0]) {
        var rest := StartSplits(s[1..]);
        indent := [s[0]] + rest;
      }
    }
  }

  lemma {:induction false} EndTrimmed(s: string, trail: string)
    requires White(trail) && (s == "" || s[|s| - 1] !in WHITE_SPACE)
    ensures TrimEnd(s + trail) == s
    decreases |trail|
  {
    if trail == "" {
      assert s + trail == s;
      if s != "" {
        WhiteSpaceListed(s[|s| - 1]);
      }
    } else {
      var k := |trail| - 1;
      WhiteSpaceListed(trail[k]);
      assert (s + trail)[..|s + trail| - 1] == s + trail[..k] && (s + trail)[|s + trail| - 1] == trail[k];
      EndTrimmed(s, trail[..k]);
    }
  }

  lemma {:induction false} EndSplits(s: string) returns (trail: string)
    ensures s == TrimEnd(s) + trail && White(trail)
    ensures TrimEnd(s) == "" || TrimEnd(s)[|TrimEnd(s)| - 1] !in WHITE_SPACE
    decreases |s|
  {
    trail := "";
    if s != "" {
      WhiteSpaceListed(s[|s| - 1]);
      if IsSpace(s[|s| - 1]) {
        var front, last := s[..|s| - 1], s[|s| - 1];
        var rest := EndSplits(front);
        trail := rest + [last];
        assert s == front + [last];
        Regroup(TrimEnd(front), rest, [last]);
      }
    }
  }

  // ----- cleaning -----

  // A starred line is what stands after its star and one white space.
  lemma StarredLineCleaned(indent: string, gap: string, body: string, trail: string)
    requires White(indent) && White(trail) && Bare(body)
    requires |gap| <= 1 && White(gap)
    ensures CleanLine(indent + ("*" + (gap + (body + trail)))) == body
  {
    StarGoes(indent, gap + (body + trail));
    AfterGap(gap, body, trail);
  }

  lemma StarGoes(indent: string, rest: string)
    requires White(indent)
    ensures AfterStar(indent + ("*" + rest)) == if rest != [] && IsSpace(rest[0]) then rest[1..] else rest
  {
    assert ("*" + rest)[0] == '*' && ("*" + rest)[1..] == rest;
    StartTrimmed(indent, "*" + rest);
  }

  // What follows the star loses one white space, if any, and its end.
  lemma AfterGap(gap: string, body: string, trail: string)
    requires |gap| <= 1 && White(gap) && White(trail) && Bare(body)
    ensures var u := gap + (body + trail);
            TrimEnd(if u != [] && IsSpace(u[0]) then u[1..] else u) == body
  {
    var u := gap + (body + trail);
    if gap != "" {
      WhiteSpaceListed(gap[0]);
      assert u[0] == gap[0] && u[1..] == body + trail;
      EndTrimmed(body, trail);
    } else {
      assert u == body + trail;
      if body != "" {
        WhiteSpaceListed(body[0]);
        assert u[0] == body[0];
        EndTrimmed(body, trail);
      } else {
        OnlyTrail(trail);
      }
    }
  }

  lemma OnlyTrail(trail: string)
    requires White(trail)
    ensures TrimEnd(if trail != [] && IsSpace(trail[0]) then trail[1..] else trail) == ""
    ensures "" + trail == trail
  {
    var u := if trail != [] && IsSpace(trail[0]) then trail[1..] else trail;
    assert "" + u == u && White(u);
    EndTrimmed("", u);
  }

  // A line without a star is its text.
  lemma PlainLineCleaned(indent: string, body: string, trail: string)
    requires White(indent) && White(trail) && Bare(body) && body != "" && body[0] != '*'
    ensures CleanLine(indent + (body + trail)) == body
  {
    StartTrimmed(indent, body + trail);
    WhiteSpaceListed(body[0]);
    assert (body + trail)[0] == body[0];
    EndTrimmed(body, trail);
  }

  // The delimiters go; the lines between are cleaned one by one.
  lemma CommentLines(inner: string)
    ensures LinesOf("/**" + (inner + "*/")) == CleanLines(Split(inner, '\n'))
    ensures |CleanLines(Split(inner, '\n'))| == |Split(inner, '\n')|
  {
    var raw := "/**" + (inner + "*/");
    assert raw[3..] == inner + "*/" && "/**" <= raw;
    assert (inner + "*/")[|inner|..] == "*/" && (inner + "*/")[..|inner|] == inner;
  }

  // Without delimiters nothing goes.
  lemma UndelimitedLines(inner: string)
    requires !("/**" <= inner) && (|inner| < 2 || inner[|inner| - 2..] != "*/")
    ensures LinesOf(inner) == CleanLines(Split(inner, '\n'))
  {
  }

  lemma {:induction false} CleanLinesAt(lines: seq<string>, k: nat)
    requires k < |lines|
    ensures CleanLines(lines)[k] == CleanLine(lines[k])
  {
    if k > 0 {
      CleanLinesAt(lines[1..], k - 1);
    }
  }

  // ----- kinds of lines -----

  lemma BlankIff(line: string)
    ensures IsBlank(line) <==> White(line)
  {
    var indent := StartSplits(line);
    var trail := EndSplits(TrimStart(line));
    if White(line) {
      StartTrimmed(line, "");
      assert line + "" == line;
      EndTrimmed("", "");
    }
  }

  lemma BulletIff(line: string)
    ensures IsBullet(line) <==> |line| > 1 && line[0] == '-' && line[1] in WHITE_SPACE
  {
    if |line| > 1 {
      WhiteSpaceListed(line[1]);
    }
  }

  ghost predicate Starts(line: string, tag: string, rest: string) {
    exists indent :: line == indent + (tag + rest) && White(indent)
  }

  lemma StartsIff(line: string, tag: string, rest: string)
    requires tag != "" && tag[0] !in WHITE_SPACE
    ensures Starts(line, tag, rest) <==> TrimStart(line) == tag + rest
  {
    assert (tag + rest)[0] == tag[0];
    if indent :| line == indent + (tag + rest) && White(indent) {
      StartTrimmed(indent, tag + rest);
    }
    var indent := StartSplits(line);
  }

  lemma TagIff(line: string)
    ensures IsTag(line) <==> exists rest :: Starts(line, "@", rest)
  {
    forall rest
      ensures Starts(line, "@", rest) <==> TrimStart(line) == "@" + rest
    {
      StartsIff(line, "@", rest);
    }
    if IsTag(line) {
      assert TrimStart(line) == "@" + TrimStart(line)[1..];
    }
  }

  // No letter, digit, or underscore follows.
  predicate EndsWord(rest: string) {
    rest == "" || !('a' <= rest[0] <= 'z' || 'A' <= rest[0] <= 'Z' || '0' <= rest[0] <= '9' || rest[0] == '_')
  }

  // `@mode`, up to the end of the word.
  lemma ModeTagIff(line: string)
    ensures IsModeTag(line) <==> exists rest :: Starts(line, "@mode", rest) && EndsWord(rest)
  {
    forall rest
      ensures Starts(line, "@mode", rest) <==> TrimStart(line) == "@mode" + rest
    {
      StartsIff(line, "@mode", rest);
    }
    var tag := TrimStart(line);
    if "@mode" <= tag {
      assert tag == "@mode" + tag[5..];
    }
  }

  function Spelled(mode: Mode): string {
    match mode
    case Emit => "emit"
    case Waterfall => "waterfall"
    case Parallel => "parallel"
    case Serial => "serial"
    case Bail => "bail"
  }

  lemma NamedIff(name: string, mode: Mode)
    ensures ModeNamed(name) == Some(mode) <==> name == Spelled(mode)
  {
    assert "emit"[0] == 'e' && "waterfall"[0] == 'w' && "parallel"[0] == 'p' && "serial"[0] == 's' && "bail"[0] == 'b';
  }

  // `@mode`, white space, and the name alone.
  ghost predicate Names(line: string, mode: Mode, gap: string, trail: string) {
    Starts(line, "@mode", gap + (Spelled(mode) + trail)) && gap != "" && White(gap) && White(trail)
  }

  lemma ModeIff(line: string, mode: Mode)
    ensures ModeOf(line) == Some(mode) <==> exists gap, trail :: Names(line, mode, gap, trail)
  {
    if gap, trail :| Names(line, mode, gap, trail) {
      NamedMode(line, mode, gap, trail);
    }
    if ModeOf(line) == Some(mode) {
      ModeNames(line, mode);
    }
  }

  lemma LetterNotWhite(c: char)
    requires 'a' <= c <= 'z'
    ensures c !in WHITE_SPACE
  {
    WhiteSpaceListed(c);
  }

  lemma SpelledBare(mode: Mode)
    ensures Spelled(mode) != "" && Bare(Spelled(mode))
  {
    var s := Spelled(mode);
    assert 'a' <= s[0] <= 'z' && 'a' <= s[|s| - 1] <= 'z';
    LetterNotWhite(s[0]);
    LetterNotWhite(s[|s| - 1]);
  }

  lemma TrimmedBetween(gap: string, name: string, trail: string)
    requires White(gap) && White(trail) && Bare(name) && name != ""
    ensures Trim(gap + (name + trail)) == name
  {
    assert (name + trail)[0] == name[0];
    StartTrimmed(gap, name + trail);
    EndTrimmed(name, trail);
  }

  lemma NamedMode(line: string, mode: Mode, gap: string, trail: string)
    requires Names(line, mode, gap, trail)
    ensures ModeOf(line) == Some(mode)
  {
    var name := Spelled(mode);
    var rest := gap + (name + trail);
    StartsIff(line, "@mode", rest);
    SpelledBare(mode);
    NamedIff(name, mode);
    TrimmedBetween(gap, name, trail);
    ModeAfter(line, rest, gap[0]);
  }

  lemma ModeAfter(line: string, rest: string, c: char)
    requires TrimStart(line) == "@mode" + rest && rest != "" && rest[0] == c && c in WHITE_SPACE
    ensures ModeOf(line) == ModeNamed(Trim(rest))
  {
    WhiteSpaceListed(c);
    assert ("@mode" + rest)[5..] == rest && ("@mode" + rest)[5] == c;
  }

  lemma ModeNames(line: string, mode: Mode)
    requires ModeOf(line) == Some(mode)
    ensures exists gap, trail :: Names(line, mode, gap, trail)
  {
    var tag := TrimStart(line);
    var rest := tag[5..];
    var gap := StartSplits(rest);
    var trail := EndSplits(TrimStart(rest));
    NamedIff(Trim(rest), mode);
    assert tag == "@mode" + rest;
    StartsIff(line, "@mode", rest);
    WhiteSpaceListed(rest[0]);
    assert gap != "";
    assert Names(line, mode, gap, trail);
  }

  // ----- words -----

  // White space goes, and a stretch without any is a word.
  lemma WordsBySpace(gap: string, word: string, rest: string)
    requires White(gap) && word != "" && Free(word, WHITE_SPACE) && (rest == "" || rest[0] in WHITE_SPACE)
    ensures WordsOf(gap) == [] && WordsOf(gap + (word + rest)) == [word] + WordsOf(rest)
  {
    var s := word + rest;
    forall c
      ensures IsSpace(c) <==> c in WHITE_SPACE
    {
      WhiteSpaceListed(c);
    }
    assert AllSpaces(gap);
    LeadingSpace(gap, s);
    LeadingSpace(gap, "");
    assert gap + "" == gap;
    assert word[0] in word && s[0] == word[0];
    RunOfWord(word, rest);
    assert s[..|word|] == word && s[|word|..] == rest;
  }

  lemma {:induction false} RunOfWord(word: string, rest: string)
    requires Free(word, WHITE_SPACE) && (rest == "" || rest[0] in WHITE_SPACE)
    ensures RunLength(word + rest) == |word|
  {
    if word == "" {
      assert word + rest == rest;
      if rest != "" {
        WhiteSpaceListed(rest[0]);
      }
    } else {
      assert word[0] in word;
      WhiteSpaceListed(word[0]);
      assert (word + rest)[0] == word[0] && (word + rest)[1..] == word[1..] + rest;
      RunOfWord(word[1..], rest);
    }
  }
}
