/** What the rescope does to the lines of a file that hold no quotes, and to the lines
    of a file one by one, said on their characters alone. */
module RescopeLines {
  import opened Options
  import opened Text
  import opened RescopePieces
  import opened RescopeLaws
  import opened RescopeLine
  import opened RescopeHead
  import opened RescopeText
  import opened RescopeSegments
  import opened RescopeFile
  import opened RescopeTokens

  // ---- A YAML name ----

  /** Optional white space, an optional list dash with white space, `name:`, and blanks. */
  ghost predicate IsKey(p: string) {
    exists indent, dash, gap :: p == indent + (dash + ("name:" + gap)) && KeyParts(indent, dash, gap)
  }

  predicate KeyParts(indent: string, dash: string, gap: string) {
    && OnlyOf(indent, WHITE_SPACE)
    && (dash == "" || (dash[0] == '-' && OnlyOf(dash[1..], WHITE_SPACE)))
    && gap != "" && OnlyOf(gap, [' ', '\t'])
  }

  /** Blanks up to the end, or to a comment. */
  ghost predicate IsTrail(t: string) {
    exists gap, comment :: t == gap + comment && OnlyOf(gap, [' ', '\t']) && (comment == "" || comment[0] == '#')
  }

  lemma {:induction false} SpaceStripped(w: string, x: string)
    requires OnlyOf(w, WHITE_SPACE) && (x == "" || x[0] !in WHITE_SPACE)
    ensures StripSpace(w + x) == x
  {
    if w == "" {
      assert w + x == x;
      if x != "" {
        WhiteSpaceListed(x[0]);
      }
    } else {
      WhiteSpaceListed(w[0]);
      assert (w + x)[0] == w[0] && (w + x)[1..] == w[1..] + x;
      SpaceStripped(w[1..], x);
    }
  }

  lemma {:induction false} SpaceSplits(s: string) returns (w: string)
    ensures s == w + StripSpace(s) && OnlyOf(w, WHITE_SPACE)
  {
    w := "";
    if s != "" && IsSpace(s[0]) {
      WhiteSpaceListed(s[0]);
      var rest := SpaceSplits(s[1..]);
      w := [s[0]] + rest;
    }
  }

  lemma {:induction false} BlankStripped(w: string, x: string)
    requires OnlyOf(w, [' ', '\t']) && (x == "" || x[0] !in [' ', '\t'])
    ensures StripBlank(w + x) == x
  {
    if w == "" {
      assert w + x == x;
    } else {
      assert w[0] in w;
      assert (w + x)[0] == w[0] && (w + x)[1..] == w[1..] + x;
      BlankStripped(w[1..], x);
    }
  }

  lemma {:induction false} BlankSplits(s: string) returns (w: string)
    ensures s == w + StripBlank(s) && OnlyOf(w, [' ', '\t'])
  {
    w := "";
    if s != "" && IsBlank(s[0]) {
      var rest := BlankSplits(s[1..]);
      w := [s[0]] + rest;
    }
  }

  lemma DashIsRead(indent: string, dash: string, key: string)
    requires OnlyOf(indent, WHITE_SPACE) && key != "" && key[0] == 'n'
    requires dash == "" || (dash[0] == '-' && OnlyOf(dash[1..], WHITE_SPACE))
    ensures AfterDash(indent + (dash + key)) == key
  {
    SpaceStripped(indent, dash + key);
    if dash != "" {
      assert (dash + key)[0] == '-' && (dash + key)[1..] == dash[1..] + key;
      SpaceStripped(dash[1..], key);
    } else {
      assert dash + key == key;
    }
  }

  lemma KeyIsRead(p: string)
    requires IsKey(p)
    ensures YamlRest(p) == Some("")
  {
    var indent, dash, gap :| p == indent + (dash + ("name:" + gap)) && KeyParts(indent, dash, gap);
    var key := "name:" + gap;
    assert gap[0] in gap;
    assert key[0] == 'n' && key[5] == gap[0] && key[5..] == gap && IsBlank(key[5]);
    DashIsRead(indent, dash, key);
    BlankStripped(gap, "");
    assert gap + "" == gap;
  }

  lemma ReadIsKey(p: string)
    requires YamlRest(p) == Some("")
    ensures IsKey(p)
  {
    var indent := SpaceSplits(p);
    var t := StripSpace(p);
    var key, dash := AfterDash(p), "";
    if t != "" && t[0] == '-' {
      var rest := SpaceSplits(t[1..]);
      dash := "-" + rest;
      assert t == dash + key;
    } else {
      assert t == dash + key;
    }
    var gap := BlankSplits(key[5..]);
    assert gap + "" == gap && key == "name:" + gap;
    assert p == indent + (dash + ("name:" + gap)) && KeyParts(indent, dash, gap);
  }

  lemma TrailIff(t: string)
    ensures HeadSuffixOk(t, true) <==> IsTrail(t)
  {
    var gap := BlankSplits(t);
    if HeadSuffixOk(t, true) {
      assert t == gap + StripBlank(t);
    }
    if IsTrail(t) {
      var own, comment :| t == own + comment && OnlyOf(own, [' ', '\t']) && (comment == "" || comment[0] == '#');
      BlankStripped(own, comment);
    }
  }

  lemma ScalarMatches(key: string, trail: string, name: string)
    requires IsKey(key) && IsTrail(trail) && Clean(name)
    ensures HeadMatches(key + (name + trail), true, name)
  {
    KeyIsRead(key);
    SwappedScalar(key, trail, name);
    TrailIff(trail);
    assert (name + trail)[|name|..] == trail;
  }

  lemma MatchIsScalar(line: string, name: string) returns (key: string, trail: string)
    requires HeadMatches(line, true, name)
    ensures line == key + (name + trail) && IsKey(key) && IsTrail(trail)
  {
    key := YamlRestSplits(line);
    trail := YamlRest(line).value[|name|..];
    ReadIsKey(key);
    TrailIff(trail);
    assert YamlRest(line).value == name + trail;
  }

  lemma LineWithoutQuotes(line: string, file: File, renames: seq<Rename>)
    requires !file.markdown && WellFormed(renames) && Plain(line)
    ensures RewriteText(line, file, renames) == RewriteHeadAll(line, true, renames)
  {
    PlainText(line);
    LineAlone(line, file, renames);
    LineOnCut(line, [], renames);
    var none: string := [];
    assert line + none == line && RewriteHeadAll(line, true, renames) + none == RewriteHeadAll(line, true, renames);
  }

  /** A bare name of the table after a `name:` key is replaced, up to a comment. */
  lemma ScalarRewritten(key: string, trail: string, file: File, renames: seq<Rename>, i: nat)
    requires !file.markdown && WellFormed(renames) && i < |renames|
    requires IsKey(key) && IsTrail(trail) && Plain(key) && Plain(trail)
    ensures RewriteText(key + (renames[i].from + trail), file, renames) == key + (renames[i].to + trail)
  {
    var line := key + (renames[i].from + trail);
    NamesDiffer(renames, i, i);
    CleanPlain(renames[i].from);
    LineWithoutQuotes(line, file, renames);
    ScalarMatches(key, trail, renames[i].from);
    HeadReplaced(line, true, renames, i);
    KeyIsRead(key);
    ScalarSwap(key, trail, renames[i]);
  }

  /** A line without quotes is kept unless it is such a scalar. */
  lemma OtherLineKept(line: string, file: File, renames: seq<Rename>)
    requires !file.markdown && WellFormed(renames) && Plain(line)
    requires forall i, key, trail :: 0 <= i < |renames| && IsKey(key) && IsTrail(trail) ==>
               line != key + (renames[i].from + trail)
    ensures RewriteText(line, file, renames) == line
  {
    LineWithoutQuotes(line, file, renames);
    forall i | 0 <= i < |renames|
      ensures !HeadMatches(line, true, renames[i].from)
    {
      if HeadMatches(line, true, renames[i].from) {
        var key, trail := MatchIsScalar(line, renames[i].from);
      }
    }
    HeadUntouched(line, true, renames);
  }

  // ---- Lines ----

  lemma SplitsAtFirst(a: string, b: string)
    requires Lacks(a, '\n')
    ensures Split(a + ['\n'] + b, '\n') == [a] + Split(b, '\n')
  {
    var tail := ['\n'] + b;
    assert tail[1..] == b && a + ['\n'] + b == a + tail;
    SplitPrefix(a, tail, '\n');
    assert Split(tail, '\n') == [[]] + Split(b, '\n');
    var none: string := [];
    assert a + none == a;
  }

  lemma TerminatorIs(t: char)
    ensures t in TERMINATORS <==> t == '\n' || IsTerminator(t)
  {
  }

  /** A line terminator of any kind keeps what is before it from what is after it. */
  lemma LinesApart(a: string, t: char, b: string, file: File, renames: seq<Rename>)
    requires !file.markdown && WellFormed(renames)
    requires Free(a, TERMINATORS) && t in ['\n', '\r', '\U{2028}', '\U{2029}']
    ensures RewriteText(a + [t] + b, file, renames)
            == RewriteText(a, file, renames) + [t] + RewriteText(b, file, renames)
  {
    assert OneSegment(a) && Lacks(a, '\n') by {
      forall c | c in a
        ensures !IsTerminator(c) && c != '\n'
      {
        TerminatorIs(c);
      }
    }
    LineAlone(a, file, renames);
    var lines := Split(b, '\n');
    if t == '\n' {
      SplitsAtFirst(a, b);
      WholeOfSegment(a, renames);
      var rest := RewriteLines(lines, file, false, renames);
      assert ([a] + lines)[1..] == lines;
      assert ([RewriteLineSpec(a, renames)] + rest)[1..] == rest;
      LinesAsMany(lines, file, renames);
    } else {
      TerminatorIs(t);
      SplitPrefix(a + [t], b, '\n');
      WholeBySegments(a, t, lines[0], renames);
      JoinLonger(RewriteLineSpec(a, renames) + [t], RewriteWhole(lines[0], renames),
                 RewriteLines(lines[1..], file, false, renames));
      assert ([a + [t] + lines[0]] + lines[1..])[1..] == lines[1..];
    }
  }

  lemma {:induction false} LinesAsMany(lines: seq<string>, file: File, renames: seq<Rename>)
    requires !file.markdown
    ensures |RewriteLines(lines, file, false, renames)| == |lines|
    decreases |lines|
  {
    if lines != [] {
      LinesAsMany(lines[1..], file, renames);
    }
  }

  lemma JoinLonger(a: string, line: string, rest: seq<string>)
    ensures Join([a + line] + rest, '\n') == a + Join([line] + rest, '\n')
  {
    assert ([a + line] + rest)[1..] == rest && ([line] + rest)[1..] == rest;
  }

  // ---- Markdown ----

  ghost predicate OpensFence(line: string) {
    exists indent, rest :: line == indent + ("```" + rest) && OnlyOf(indent, WHITE_SPACE)
  }

  ghost function Fences(lines: seq<string>): nat {
    if lines == [] then 0
    else Fences(lines[..|lines| - 1]) + (if OpensFence(lines[|lines| - 1]) then 1 else 0)
  }

  lemma FenceIff(line: string)
    ensures IsFence(line) <==> OpensFence(line)
  {
    if IsFence(line) {
      var indent := SpaceSplits(line);
      FenceAfter(line, indent, StripSpace(line));
    }
    if OpensFence(line) {
      var own, rest :| line == own + ("```" + rest) && OnlyOf(own, WHITE_SPACE);
      FenceStripped(own, rest);
    }
  }

  lemma FenceAfter(line: string, indent: string, stripped: string)
    requires line == indent + stripped && OnlyOf(indent, WHITE_SPACE) && "```" <= stripped
    ensures OpensFence(line)
  {
    assert stripped == "```" + stripped[3..];
  }

  lemma FenceStripped(own: string, rest: string)
    requires OnlyOf(own, WHITE_SPACE)
    ensures StripSpace(own + ("```" + rest)) == "```" + rest
  {
    var fence := "```" + rest;
    assert fence[0] == '`';
    SpaceStripped(own, fence);
  }

  lemma {:induction false} FencesFromFirst(lines: seq<string>)
    requires lines != []
    ensures Fences(lines) == (if OpensFence(lines[0]) then 1 else 0) + Fences(lines[1..])
  {
    var k := |lines| - 1;
    if k > 0 {
      FencesFromFirst(lines[..k]);
      assert lines[..k][1..] == lines[1..][..k - 1];
      assert lines[1..][k - 1] == lines[k];
    }
  }

  /** The line stays as it is: a fence line, or Markdown prose that does not follow
      the rename, which is outside of every fence. */
  ghost predicate Stays(lines: seq<string>, k: nat, file: File)
    requires k < |lines|
  {
    file.markdown && (OpensFence(lines[k]) || (!file.prose && Fences(lines[..k]) % 2 == 0))
  }

  ghost predicate StaysFrom(lines: seq<string>, k: nat, file: File, insideFence: bool)
    requires k < |lines|
  {
    && file.markdown
    && (OpensFence(lines[k]) || (!file.prose && (Fences(lines[..k]) % 2 == 0 <==> !insideFence)))
  }

  lemma {:induction false} LinesAt(lines: seq<string>, file: File, insideFence: bool, renames: seq<Rename>, k: nat)
    requires k < |lines|
    ensures |RewriteLines(lines, file, insideFence, renames)| == |lines|
    ensures RewriteLines(lines, file, insideFence, renames)[k]
            == if StaysFrom(lines, k, file, insideFence) then lines[k] else RewriteWhole(lines[k], renames)
    decreases |lines|
  {
    FenceIff(lines[0]);
    var inside := if file.markdown && IsFence(lines[0]) then !insideFence else insideFence;
    var first := if StaysFrom(lines, 0, file, insideFence) then lines[0] else RewriteWhole(lines[0], renames);
    var rest := RewriteLines(lines[1..], file, inside, renames);
    assert lines[..0] == [];
    assert RewriteLines(lines, file, insideFence, renames) == [first] + rest;
    if |lines| > 1 {
      LinesAt(lines[1..], file, inside, renames, if k > 0 then k - 1 else 0);
    }
    if k > 0 {
      StaysInRest(lines, k, file, insideFence, inside);
    }
  }

  lemma StaysInRest(lines: seq<string>, k: nat, file: File, insideFence: bool, inside: bool)
    requires 0 < k < |lines|
    requires inside == if file.markdown && OpensFence(lines[0]) then !insideFence else insideFence
    ensures StaysFrom(lines, k, file, insideFence) == StaysFrom(lines[1..], k - 1, file, inside)
  {
    FencesFromFirst(lines[..k]);
    assert lines[..k][1..] == lines[1..][..k - 1];
  }

  lemma LineWhole(line: string, renames: seq<Rename>)
    requires WellFormed(renames) && Lacks(line, '\n')
    ensures RewriteText(line, File(false, false), renames) == RewriteWhole(line, renames)
  {
    assert Join([line], '\n') == line;
    JoinSplits([line], '\n');
    var none: seq<string> := [];
    assert [line][1..] == [] && [RewriteWhole(line, renames)] + none == [RewriteWhole(line, renames)];
    assert RewriteLines([line], File(false, false), false, renames) == [RewriteWhole(line, renames)];
  }

  /** A file keeps its number of lines. Each line that does not stay becomes what it
      becomes by itself. */
  lemma LineByLine(text: string, file: File, renames: seq<Rename>, k: nat)
    requires WellFormed(renames) && k < |Split(text, '\n')|
    ensures var lines, out := Split(text, '\n'), Split(RewriteText(text, file, renames), '\n');
            && |out| == |lines|
            && out[k] == if Stays(lines, k, file) then lines[k]
                         else RewriteText(lines[k], File(false, false), renames)
  {
    var lines := Split(text, '\n');
    RewriteTextLines(text, file, renames);
    SplitJoins(text, '\n');
    LinesAt(lines, file, false, renames, k);
    LineWhole(lines[k], renames);
  }
}
