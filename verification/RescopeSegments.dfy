/** A line of a file as the two expressions see it. The file is split at newlines only,
    while `^` and `$` of the multi-line YAML expression also stand at the other line
    terminators, such as the carriage return before a newline. The line is a list of
    segments between those terminators, and the rewrite works on each by itself. */
module RescopeSegments {
  import opened Options
  import opened Text
  import opened RescopePieces
  import opened RescopeLaws
  import opened RescopeLine
  import opened RescopeHead
  import opened RescopeText

  predicate IsTerminator(c: char) {
    c == '\r' || c == '\U{2028}' || c == '\U{2029}'
  }

  predicate OneSegment(s: string) {
    forall c :: c in s ==> !IsTerminator(c)
  }

  /** Where the first segment ends. */
  function SegmentEnd(s: string): (n: nat)
    ensures n <= |s| && OneSegment(s[..n]) && (n < |s| ==> IsTerminator(s[n]))
  {
    if s == [] || IsTerminator(s[0]) then 0
    else
      assert s[..1 + SegmentEnd(s[1..])] == [s[0]] + s[1..][..SegmentEnd(s[1..])];
      1 + SegmentEnd(s[1..])
  }

  // ---- The multi-line YAML expression ----

  /** Only blanks, or a comment, up to the end of the segment. */
  predicate EndsSegment(t: string) {
    var u := StripBlank(t);
    u == [] || u[0] == '#' || IsTerminator(u[0])
  }

  /** The expression matches at the start of a segment; its leading white space may
      reach over terminators. */
  predicate YamlMatches(s: string, name: string) {
    match YamlRest(s)
    case None => false
    case Some(rest) => |rest| < |s| && name <= rest && EndsSegment(rest[|name|..])
  }

  /** `out.replace(pattern.yamlName, …)`, from a position that is a segment's start or not. */
  function RewriteYamlFrom(s: string, atStart: bool, rename: Rename): string
    decreases |s|
  {
    if s == [] then []
    else if atStart && YamlMatches(s, rename.from) then
      var rest := YamlRest(s).value;
      var after := rest[|rename.from|..];
      var n := SegmentEnd(after);
      s[..|s| - |rest|] + rename.to + after[..n] + RewriteYamlFrom(after[n..], false, rename)
    else [s[0]] + RewriteYamlFrom(s[1..], IsTerminator(s[0]), rename)
  }

  function Pass(s: string, rename: Rename): string {
    RewriteYamlFrom(RewriteTokens(s, rename), true, rename)
  }

  function RewriteWhole(s: string, renames: seq<Rename>): string
    decreases renames
  {
    if renames == [] then s else RewriteWhole(Pass(s, renames[0]), renames[1..])
  }

  /** `rewriteLine`, over the patterns that are not skipped in the file. */
  method RewriteLine(line: string, renames: seq<Rename>) returns (out: string)
    ensures out == RewriteWhole(line, renames)
  {
    out := line;
    for i := 0 to |renames|
      invariant RewriteWhole(out, renames[i..]) == RewriteWhole(line, renames)
    {
      assert renames[i..][1..] == renames[i + 1..];
      out := RewriteTokens(out, renames[i]);
      out := RewriteYamlFrom(out, true, renames[i]);
    }
  }

  // ---- The YAML expression works segment by segment ----

  lemma {:induction false} SegmentEndAt(a: string, t: char, b: string)
    requires OneSegment(a) && IsTerminator(t)
    ensures SegmentEnd(a + [t] + b) == |a|
  {
    var s := a + [t] + b;
    if a != [] {
      assert s[1..] == a[1..] + [t] + b && s[0] == a[0] && a[0] in a;
      SegmentEndAt(a[1..], t, b);
    }
  }

  lemma {:induction false} WholeSegmentEnd(a: string)
    requires OneSegment(a)
    ensures SegmentEnd(a) == |a|
  {
    if a != [] {
      assert a[0] in a;
      WholeSegmentEnd(a[1..]);
    }
  }

  lemma {:induction false} PassesOver(a: string, t: char, b: string, rename: Rename)
    requires OneSegment(a) && IsTerminator(t)
    ensures RewriteYamlFrom(a + [t] + b, false, rename) == a + [t] + RewriteYamlFrom(b, true, rename)
  {
    var s := a + [t] + b;
    if a == [] {
      assert s[1..] == b;
    } else {
      assert s[1..] == a[1..] + [t] + b && s[0] == a[0] && a[0] in a;
      PassesOver(a[1..], t, b, rename);
    }
  }

  lemma {:induction false} PassesToEnd(a: string, rename: Rename)
    requires OneSegment(a)
    ensures RewriteYamlFrom(a, false, rename) == a
  {
    if a != [] {
      assert a[0] in a;
      PassesToEnd(a[1..], rename);
    }
  }

  lemma YamlRestShorter(s: string)
    requires YamlRest(s).Some?
    ensures |YamlRest(s).value| < |s| && s[|s| - |YamlRest(s).value|..] == YamlRest(s).value
  {
    AfterDashSuffix(s);
    var t := AfterDash(s);
    StripBlankSplit(t[5..]);
    assert IsBlank(t[5..][0]);
  }

  lemma {:induction false} SpacesSkipped(w: string, x: string)
    requires StripSpace(w) == []
    ensures StripSpace(w + x) == StripSpace(x)
  {
    if w == [] {
      assert w + x == x;
    } else {
      assert (w + x)[1..] == w[1..] + x;
      SpacesSkipped(w[1..], x);
    }
  }

  /** Leading white space over a segment without the key adds nothing. */
  lemma CrossingRest(a: string, x: string)
    requires AfterDash(a) == [] && YamlRest(a + x).Some?
    ensures YamlRest(x) == YamlRest(a + x)
  {
    var u := StripSpace(a);
    if u == [] {
      SpacesSkipped(a, x);
    } else {
      StripSpaceExtends(a, x);
      assert (u + x)[0] == '-' && (u + x)[1..] == u[1..] + x;
      SpacesSkipped(u[1..], x);
    }
  }

  lemma KeyExtendsOver(k: string, x: string)
    requires x != [] && IsTerminator(x[0])
    ensures ("name:" <= k + x && 5 < |k + x| && IsBlank((k + x)[5])) <==> ("name:" <= k && 5 < |k| && IsBlank(k[5]))
  {
    if 5 < |k| {
      assert (k + x)[..5] == k[..5] && (k + x)[5] == k[5];
    } else {
      assert (k + x)[|k|] == x[0];
    }
  }

  lemma OwnRest(a: string, x: string)
    requires AfterDash(a) != [] && x != [] && IsTerminator(x[0])
    ensures YamlRest(a + x) == match YamlRest(a) case None => None case Some(rest) => Some(rest + x)
  {
    var k := AfterDash(a);
    AfterDashExtends(a, x);
    KeyExtendsOver(k, x);
    if "name:" <= k && 5 < |k| && IsBlank(k[5]) {
      assert (k + x)[5..] == k[5..] + x;
      StripBlankExtends(k[5..], x);
    }
  }

  lemma SuffixInSegment(t: string, x: string)
    requires OneSegment(t) && x != [] && IsTerminator(x[0])
    ensures EndsSegment(t + x) <==> SuffixOk(t)
  {
    StripBlankExtends(t, x);
    StripBlankSplit(t);
    var u := StripBlank(t);
    if u != [] {
      assert u[0] == t[|t| - |u|];
      assert (u + x)[0] == u[0];
    }
  }

  lemma NameInSegment(name: string, rest: string, x: string)
    requires OneSegment(name) && x != [] && IsTerminator(x[0])
    ensures name <= rest + x <==> name <= rest
  {
    assert |rest| < |name| ==> name[|rest|] in name;
  }

  lemma PassesUnmatched(a: string, t: char, b: string, rename: Rename)
    requires OneSegment(a) && IsTerminator(t) && !YamlMatches(a + [t] + b, rename.from)
    ensures RewriteYamlFrom(a + [t] + b, true, rename) == a + [t] + RewriteYamlFrom(b, true, rename)
  {
    var s := a + [t] + b;
    if a == [] {
      assert s[1..] == b;
    } else {
      assert s[1..] == a[1..] + [t] + b && s[0] == a[0] && a[0] in a;
      PassesOver(a[1..], t, b, rename);
      FirstApart(a, t, RewriteYamlFrom(b, true, rename));
    }
  }

  lemma FirstApart(a: string, t: char, y: string)
    requires a != []
    ensures [a[0]] + (a[1..] + [t] + y) == a + [t] + y
  {
  }

  /** A segment with text of its own before the key decides the match alone. */
  lemma OwnMatchIff(a: string, x: string, rename: Rename)
    requires OneSegment(a) && OneSegment(rename.from) && AfterDash(a) != [] && x != [] && IsTerminator(x[0])
    ensures YamlMatches(a + x, rename.from) <==> RewritesYaml(a, rename)
    ensures RewritesYaml(a, rename) ==>
              YamlRest(a + x) == Some(YamlRest(a).value + x) && OneSegment(YamlRest(a).value[|rename.from|..])
  {
    OwnRest(a, x);
    if YamlRest(a).Some? {
      var rest := YamlRest(a).value;
      YamlRestShorter(a);
      NameInSegment(rename.from, rest, x);
      if rename.from <= rest {
        SegmentSuffix(a, rest, |rename.from|);
        AfterName(rest, x, |rename.from|);
        SuffixInSegment(rest[|rename.from|..], x);
      }
    }
  }

  predicate RewritesYaml(a: string, rename: Rename) {
    match YamlRest(a)
    case None => false
    case Some(rest) => |rest| <= |a| && rename.from <= rest && SuffixOk(rest[|rename.from|..])
  }

  lemma OwnMatch(a: string, t: char, b: string, rename: Rename)
    requires OneSegment(a) && OneSegment(rename.from) && IsTerminator(t) && AfterDash(a) != []
    ensures RewriteYamlFrom(a + [t] + b, true, rename)
         == RewriteYaml(a, rename) + [t] + RewriteYamlFrom(b, true, rename)
  {
    Regroup(a, [t], b);
    OwnMatchIff(a, [t] + b, rename);
    if RewritesYaml(a, rename) {
      OwnFound(a, t, b, rename);
      PassesTerminator(t, b, rename);
      Regroup(RewriteYaml(a, rename), [t], RewriteYamlFrom(b, true, rename));
    } else {
      PassesUnmatched(a, t, b, rename);
    }
  }

  lemma OwnFound(a: string, t: char, b: string, rename: Rename)
    requires OneSegment(a) && OneSegment(rename.from) && IsTerminator(t) && AfterDash(a) != []
    requires RewritesYaml(a, rename)
    ensures RewriteYamlFrom(a + ([t] + b), true, rename)
            == RewriteYaml(a, rename) + RewriteYamlFrom([t] + b, false, rename)
  {
    OwnMatchIff(a, [t] + b, rename);
    var rest := YamlRest(a).value;
    var after := rest[|rename.from|..];
    Regroup(after, [t], b);
    SegmentEndAt(after, t, b);
    OwnReplaced(a, [t] + b, rename, rest, after);
  }

  lemma SegmentSuffix(a: string, rest: string, k: nat)
    requires OneSegment(a) && |rest| <= |a| && a[|a| - |rest|..] == rest && k <= |rest|
    ensures OneSegment(rest[k..])
  {
    forall c | c in rest[k..]
      ensures c in a
    {
    }
  }

  lemma OwnReplaced(a: string, x: string, rename: Rename, rest: string, after: string)
    requires |rest| <= |a| && |rename.from| <= |rest| && after == rest[|rename.from|..]
    requires YamlRest(a + x) == Some(rest + x) && YamlMatches(a + x, rename.from)
    requires SegmentEnd(after + x) == |after|
    requires RewriteYaml(a, rename) == a[..|a| - |rest|] + rename.to + after
    ensures RewriteYamlFrom(a + x, true, rename) == RewriteYaml(a, rename) + RewriteYamlFrom(x, false, rename)
  {
    BeforeRest(a, rest, x);
    AfterName(rest, x, |rename.from|);
    TakeBack(after, x);
    MatchReplaced(a + x, rename, rest + x, after + x, |after|);
  }

  lemma MatchReplaced(s: string, rename: Rename, rest: string, after: string, n: nat)
    requires YamlMatches(s, rename.from) && YamlRest(s) == Some(rest) && after == rest[|rename.from|..]
    requires n == SegmentEnd(after)
    ensures RewriteYamlFrom(s, true, rename)
            == s[..|s| - |rest|] + rename.to + after[..n] + RewriteYamlFrom(after[n..], false, rename)
  {
  }

  lemma BeforeRest(a: string, rest: string, x: string)
    requires |rest| <= |a|
    ensures (a + x)[..|a + x| - |rest + x|] == a[..|a| - |rest|]
  {
  }

  lemma AfterName(rest: string, x: string, k: nat)
    requires k <= |rest|
    ensures (rest + x)[k..] == rest[k..] + x
  {
  }

  lemma TakeBack(after: string, x: string)
    ensures (after + x)[..|after|] == after && (after + x)[|after|..] == x
  {
  }

  lemma PassesTerminator(t: char, b: string, rename: Rename)
    requires IsTerminator(t)
    ensures RewriteYamlFrom([t] + b, false, rename) == [t] + RewriteYamlFrom(b, true, rename)
  {
    assert ([t] + b)[1..] == b;
  }

  lemma CrossingMatch(a: string, t: char, b: string, rename: Rename)
    requires OneSegment(a) && IsTerminator(t) && AfterDash(a) == []
    ensures RewriteYamlFrom(a + [t] + b, true, rename) == a + [t] + RewriteYamlFrom(b, true, rename)
  {
    var s, x := a + [t] + b, [t] + b;
    assert s == a + x;
    if YamlMatches(s, rename.from) {
      CrossingRest(a, x);
      TerminatorRest(t, b);
      CrossingReplaced(a, t, b, rename);
    } else {
      PassesUnmatched(a, t, b, rename);
    }
  }

  lemma TerminatorRest(t: char, b: string)
    requires IsTerminator(t)
    ensures YamlRest([t] + b) == YamlRest(b)
  {
    assert ([t] + b)[1..] == b;
  }

  lemma CrossingReplaced(a: string, t: char, b: string, rename: Rename)
    requires YamlMatches(a + [t] + b, rename.from) && YamlRest(b) == YamlRest(a + [t] + b)
    ensures RewriteYamlFrom(a + [t] + b, true, rename) == a + [t] + RewriteYamlFrom(b, true, rename)
  {
    YamlRestShorter(b);
    var rest := YamlRest(b).value;
    BeforeSuffix(a + [t], b, |rest|);
    var after := rest[|rename.from|..];
    var n := SegmentEnd(after);
    var tail := RewriteYamlFrom(after[n..], false, rename);
    FourAfter(a + [t], b[..|b| - |rest|], rename.to, after[..n], tail);
  }

  lemma BeforeSuffix(p: string, b: string, k: nat)
    requires k <= |b|
    ensures (p + b)[..|p + b| - k] == p + b[..|b| - k]
  {
  }

  lemma FourAfter(p: string, q: string, r: string, u: string, v: string)
    ensures (p + q) + r + u + v == p + (q + r + u + v)
  {
  }

  lemma YamlBySegments(a: string, t: char, b: string, rename: Rename)
    requires OneSegment(a) && OneSegment(rename.from) && IsTerminator(t)
    ensures RewriteYamlFrom(a + [t] + b, true, rename)
         == RewriteYaml(a, rename) + [t] + RewriteYamlFrom(b, true, rename)
  {
    if AfterDash(a) == [] {
      CrossingMatch(a, t, b, rename);
    } else {
      OwnMatch(a, t, b, rename);
    }
  }

  lemma SuffixOfSegment(t: string)
    requires OneSegment(t)
    ensures EndsSegment(t) <==> SuffixOk(t)
  {
    StripBlankSplit(t);
    var u := StripBlank(t);
    assert u != [] ==> u[0] == t[|t| - |u|];
  }

  lemma YamlOfSegment(a: string, rename: Rename)
    requires OneSegment(a) && OneSegment(rename.from)
    ensures RewriteYamlFrom(a, true, rename) == RewriteYaml(a, rename)
  {
    if YamlRest(a).Some? {
      var rest := YamlRest(a).value;
      YamlRestShorter(a);
      if rename.from <= rest {
        var after := rest[|rename.from|..];
        SegmentSuffix(a, rest, |rename.from|);
        SuffixOfSegment(after);
        WholeSegmentEnd(after);
        assert after[..|after|] == after && after[|after|..] == [];
      }
    }
    if a != [] && !YamlMatches(a, rename.from) {
      assert a[0] in a;
      PassesToEnd(a[1..], rename);
    }
  }

  // ---- So does the token expression ----

  lemma {:induction false} RunInSegment(a: string, x: string)
    requires x != [] && IsTerminator(x[0])
    ensures RunLength(a + x) == RunLength(a) && RunLength(a) <= |a|
  {
    if a == [] {
      assert a + x == x;
    } else {
      assert (a + x)[0] == a[0] && (a + x)[1..] == a[1..] + x;
      RunInSegment(a[1..], x);
    }
  }

  lemma TokenInSegment(a: string, x: string, name: string)
    requires OneSegment(name) && a != [] && x != [] && IsTerminator(x[0])
    ensures TokenLength(a + x, name) == TokenLength(a, name)
    ensures TokenLength(a, name).Some? ==> TokenLength(a, name).value <= |a|
  {
    assert (a + x)[0] == a[0] && (a + x)[1..] == a[1..] + x;
    NameInSegment(name, a[1..], x);
    if name <= a[1..] {
      var rest := a[1 + |name|..];
      assert (a + x)[1 + |name|..] == rest + x;
      if rest != [] {
        assert (rest + x)[0] == rest[0] && (rest + x)[1..] == rest[1..] + x;
        RunInSegment(rest[1..], x);
      }
      var n := if rest != [] && rest[0] == '/' then 1 + RunLength(rest[1..]) else 0;
      assert n <= |rest| && (rest + x)[n] == if n < |rest| then rest[n] else x[0];
    }
  }

  lemma {:induction false} TokensBySegments(a: string, t: char, b: string, rename: Rename)
    requires OneSegment(rename.from) && IsTerminator(t)
    ensures RewriteTokens(a + [t] + b, rename) == RewriteTokens(a, rename) + [t] + RewriteTokens(b, rename)
    decreases |a|
  {
    var s, x := a + [t] + b, [t] + b;
    Regroup(a, [t], b);
    var y := RewriteTokens(b, rename);
    if a == [] {
      assert s[0] == t && s[1..] == b;
      assert RewriteTokens(a, rename) + [t] + y == [t] + y;
    } else {
      TokenInSegment(a, x, rename.from);
      match TokenLength(a, rename.from)
      case Some(n) =>
        TokensBySegments(a[n..], t, b, rename);
        SliceOver(a, t, b, 1 + |rename.from|, n);
        ThreeBefore([s[0]] + rename.to + a[1 + |rename.from|..n], RewriteTokens(a[n..], rename), [t], y);
      case None =>
        TokensBySegments(a[1..], t, b, rename);
        SliceOver(a, t, b, 1, 1);
        ThreeBefore([s[0]], RewriteTokens(a[1..], rename), [t], y);
    }
  }

  lemma SliceOver(a: string, t: char, b: string, i: nat, n: nat)
    requires i <= n <= |a|
    ensures (a + [t] + b)[i..n] == a[i..n] && (a + [t] + b)[n..] == a[n..] + [t] + b
  {
  }

  lemma ThreeBefore(p: string, q: string, r: string, y: string)
    ensures p + (q + r + y) == (p + q) + r + y
  {
  }

  // ---- The whole line is rewritten segment by segment ----

  lemma CleanIsSegment(name: string)
    requires Clean(name)
    ensures OneSegment(name)
  {
  }

  lemma {:induction false} TokensKeepSegment(a: string, rename: Rename)
    requires OneSegment(a) && OneSegment(rename.to)
    ensures OneSegment(RewriteTokens(a, rename))
    decreases |a|
  {
    if a != [] {
      match TokenLength(a, rename.from)
      case Some(n) => TokensKeepSegment(a[n..], rename);
      case None => TokensKeepSegment(a[1..], rename);
    }
  }

  lemma OnceKeepsSegment(a: string, rename: Rename)
    requires OneSegment(a) && OneSegment(rename.to)
    ensures OneSegment(RewriteOnce(a, rename))
  {
    TokensKeepSegment(a, rename);
    var s := RewriteTokens(a, rename);
    if YamlRest(s).Some? {
      YamlRestShorter(s);
      assert forall c :: c in YamlRest(s).value ==> c in s;
    }
  }

  lemma {:induction false} LineKeepsSegment(a: string, renames: seq<Rename>)
    requires OneSegment(a) && WellFormed(renames)
    ensures OneSegment(RewriteLineSpec(a, renames))
    decreases renames
  {
    if renames != [] {
      CleanIsSegment(renames[0].to);
      OnceKeepsSegment(a, renames[0]);
      TailWellFormed(renames);
      LineKeepsSegment(RewriteOnce(a, renames[0]), renames[1..]);
    }
  }

  lemma PassBySegments(a: string, t: char, b: string, rename: Rename)
    requires OneSegment(a) && Clean(rename.from) && Clean(rename.to) && IsTerminator(t)
    ensures Pass(a + [t] + b, rename) == RewriteOnce(a, rename) + [t] + Pass(b, rename)
  {
    CleanIsSegment(rename.from);
    CleanIsSegment(rename.to);
    TokensBySegments(a, t, b, rename);
    TokensKeepSegment(a, rename);
    YamlBySegments(RewriteTokens(a, rename), t, RewriteTokens(b, rename), rename);
  }

  lemma {:induction false} WholeBySegments(a: string, t: char, b: string, renames: seq<Rename>)
    requires OneSegment(a) && IsTerminator(t) && WellFormed(renames)
    ensures RewriteWhole(a + [t] + b, renames) == RewriteLineSpec(a, renames) + [t] + RewriteWhole(b, renames)
    decreases renames
  {
    if renames != [] {
      NamesDiffer(renames, 0, 0);
      CleanIsSegment(renames[0].to);
      PassBySegments(a, t, b, renames[0]);
      OnceKeepsSegment(a, renames[0]);
      TailWellFormed(renames);
      WholeBySegments(RewriteOnce(a, renames[0]), t, Pass(b, renames[0]), renames[1..]);
    }
  }

  lemma {:induction false} WholeOfSegment(a: string, renames: seq<Rename>)
    requires OneSegment(a) && WellFormed(renames)
    ensures RewriteWhole(a, renames) == RewriteLineSpec(a, renames)
    decreases renames
  {
    if renames != [] {
      NamesDiffer(renames, 0, 0);
      CleanIsSegment(renames[0].from);
      CleanIsSegment(renames[0].to);
      TokensKeepSegment(a, renames[0]);
      YamlOfSegment(RewriteTokens(a, renames[0]), renames[0]);
      OnceKeepsSegment(a, renames[0]);
      TailWellFormed(renames);
      WholeOfSegment(RewriteOnce(a, renames[0]), renames[1..]);
    }
  }

  /** Every segment of the line satisfies `ok`. */
  ghost predicate AllSegments(s: string, ok: string -> bool)
    decreases |s|
  {
    var n := SegmentEnd(s);
    ok(s[..n]) && (n < |s| ==> AllSegments(s[n + 1..], ok))
  }

  lemma SegmentsAt(a: string, t: char, b: string, ok: string -> bool)
    requires OneSegment(a) && IsTerminator(t)
    ensures AllSegments(a + [t] + b, ok) <==> ok(a) && AllSegments(b, ok)
  {
    var s := a + [t] + b;
    SegmentEndAt(a, t, b);
    assert s[..|a|] == a && s[|a| + 1..] == b;
  }

  lemma SegmentAt(a: string, ok: string -> bool)
    requires OneSegment(a)
    ensures AllSegments(a, ok) <==> ok(a)
  {
    WholeSegmentEnd(a);
    assert a[..|a|] == a;
  }

  /** No two tokens of one name in a segment share a quote. */
  ghost predicate AllUnshared(line: string, renames: seq<Rename>) {
    AllSegments(line, segment => QuotesUnshared(segment, renames))
  }

  ghost predicate AllTargetFree(line: string, renames: seq<Rename>) {
    AllSegments(line, segment => TargetFree(segment, renames))
  }

  lemma JoinedEqual(a: string, t: char, b: string, a': string, b': string)
    requires OneSegment(a) && OneSegment(a') && IsTerminator(t)
    ensures a + [t] + b == a' + [t] + b' <==> a == a' && b == b'
  {
    SegmentEndAt(a, t, b);
    SegmentEndAt(a', t, b');
    assert (a + [t] + b)[..|a|] == a && (a + [t] + b)[|a| + 1..] == b;
    assert (a' + [t] + b')[..|a'|] == a' && (a' + [t] + b')[|a'| + 1..] == b';
  }

  lemma FirstSegment(s: string) returns (a: string, t: char, b: string)
    requires !OneSegment(s)
    ensures OneSegment(a) && IsTerminator(t) && s == a + [t] + b && |b| < |s|
  {
    var n := SegmentEnd(s);
    assert s[..|s|] == s;
    a, t, b := s[..n], s[n], s[n + 1..];
  }

  lemma {:induction false} WholeIdempotentIff(line: string, renames: seq<Rename>)
    requires WellFormed(renames)
    ensures RewriteWhole(RewriteWhole(line, renames), renames) == RewriteWhole(line, renames) <==>
              AllUnshared(line, renames)
    decreases |line|
  {
    if OneSegment(line) {
      WholeOfSegment(line, renames);
      LineKeepsSegment(line, renames);
      WholeOfSegment(RewriteLineSpec(line, renames), renames);
      LineIdempotentIff(line, renames);
      SegmentAt(line, segment => QuotesUnshared(segment, renames));
    } else {
      var a, t, b := FirstSegment(line);
      var a', b' := RewriteLineSpec(a, renames), RewriteWhole(b, renames);
      WholeBySegments(a, t, b, renames);
      LineKeepsSegment(a, renames);
      LineKeepsSegment(a', renames);
      WholeBySegments(a', t, b', renames);
      LineIdempotentIff(a, renames);
      WholeIdempotentIff(b, renames);
      SegmentsAt(a, t, b, segment => QuotesUnshared(segment, renames));
      JoinedEqual(RewriteLineSpec(a', renames), t, RewriteWhole(b', renames), a', b');
    }
  }

  lemma {:induction false} WholeUndoIff(line: string, renames: seq<Rename>)
    requires WellFormed(renames)
    ensures RewriteWhole(RewriteWhole(line, renames), Reversed(renames)) == line <==> AllTargetFree(line, renames)
    decreases |line|
  {
    ReversedWellFormed(renames);
    if OneSegment(line) {
      WholeOfSegment(line, renames);
      LineKeepsSegment(line, renames);
      WholeOfSegment(RewriteLineSpec(line, renames), Reversed(renames));
      LineUndoIff(line, renames);
      SegmentAt(line, segment => TargetFree(segment, renames));
    } else {
      var a, t, b := FirstSegment(line);
      var a', b' := RewriteLineSpec(a, renames), RewriteWhole(b, renames);
      WholeBySegments(a, t, b, renames);
      LineKeepsSegment(a, renames);
      LineKeepsSegment(a', Reversed(renames));
      WholeBySegments(a', t, b', Reversed(renames));
      LineUndoIff(a, renames);
      WholeUndoIff(b, renames);
      SegmentsAt(a, t, b, segment => TargetFree(segment, renames));
      JoinedEqual(RewriteLineSpec(a', Reversed(renames)), t, RewriteWhole(b', Reversed(renames)), a, b);
    }
  }

  // ---- Fences of whole lines ----

  lemma BlankKept(a: string, renames: seq<Rename>)
    requires WellFormed(renames)
    ensures StripSpace(RewriteLineSpec(a, renames)) == [] <==> StripSpace(a) == []
  {
    BlankOnCut(a);
    BlankOnCut(RewriteLineSpec(a, renames));
    RewriteLineCut(a, renames);
    HeadShapeKept(Cut(a).head, Cut(a).pieces == [], renames);
  }

  lemma BlankOnCut(a: string)
    ensures StripSpace(a) == [] <==> StripSpace(Cut(a).head) == [] && Cut(a).pieces == []
  {
    CutJoins(a);
    JoinStartsAtQuote(Cut(a).pieces);
    StripSpaceExtends(Cut(a).head, JoinPieces(Cut(a).pieces));
  }

  lemma FenceBySegments(a: string, t: char, b: string)
    requires OneSegment(a) && IsTerminator(t)
    ensures IsFence(a + [t] + b) <==> if StripSpace(a) == [] then IsFence(b) else IsFence(a)
  {
    var x := [t] + b;
    assert a + [t] + b == a + x;
    if StripSpace(a) == [] {
      SpacesSkipped(a, x);
      assert x[1..] == b;
    } else {
      StripSpaceExtends(a, x);
      NameInSegment("```", StripSpace(a), x);
    }
  }

  /** The rewrite neither makes nor breaks a fence line. */
  lemma {:induction false} WholeFencesKept(line: string, renames: seq<Rename>)
    requires WellFormed(renames)
    ensures IsFence(RewriteWhole(line, renames)) <==> IsFence(line)
    decreases |line|
  {
    if OneSegment(line) {
      WholeOfSegment(line, renames);
      FencesKept(line, renames);
    } else {
      var a, t, b := FirstSegment(line);
      WholeBySegments(a, t, b, renames);
      LineKeepsSegment(a, renames);
      FenceBySegments(a, t, b);
      FenceBySegments(RewriteLineSpec(a, renames), t, RewriteWhole(b, renames));
      BlankKept(a, renames);
      FencesKept(a, renames);
      WholeFencesKept(b, renames);
    }
  }

  // ---- Files as lines ----

  /** The two facts about the path that decide which lines follow the rename. */
  datatype File = File(markdown: bool, prose: bool)

  function RewriteLines(lines: seq<string>, file: File, insideFence: bool, renames: seq<Rename>): seq<string> {
    if lines == [] then []
    else if file.markdown && IsFence(lines[0]) then [lines[0]] + RewriteLines(lines[1..], file, !insideFence, renames)
    else if file.markdown && !insideFence && !file.prose then
      [lines[0]] + RewriteLines(lines[1..], file, insideFence, renames)
    else [RewriteWhole(lines[0], renames)] + RewriteLines(lines[1..], file, insideFence, renames)
  }

  /** Every line that follows the rename satisfies `ok`. */
  ghost predicate EligibleLines(lines: seq<string>, file: File, insideFence: bool, ok: string -> bool) {
    lines == [] || (
      if file.markdown && IsFence(lines[0]) then EligibleLines(lines[1..], file, !insideFence, ok)
      else ((file.markdown && !insideFence && !file.prose) || ok(lines[0]))
           && EligibleLines(lines[1..], file, insideFence, ok))
  }

  lemma {:induction false} LinesIdempotentIff(lines: seq<string>, file: File, insideFence: bool, renames: seq<Rename>)
    requires WellFormed(renames)
    ensures var once := RewriteLines(lines, file, insideFence, renames);
            RewriteLines(once, file, insideFence, renames) == once <==>
            EligibleLines(lines, file, insideFence, line => AllUnshared(line, renames))
    decreases lines
  {
    if lines != [] {
      var once := RewriteLines(lines, file, insideFence, renames);
      var fence := file.markdown && IsFence(lines[0]);
      LinesIdempotentIff(lines[1..], file, if fence then !insideFence else insideFence, renames);
      assert once[1..] == RewriteLines(lines[1..], file, if fence then !insideFence else insideFence, renames);
      WholeFencesKept(lines[0], renames);
      WholeIdempotentIff(lines[0], renames);
      HeadTailEqual(RewriteLines(once, file, insideFence, renames), once);
    }
  }

  lemma {:induction false} LinesUndoIff(lines: seq<string>, file: File, insideFence: bool, renames: seq<Rename>)
    requires WellFormed(renames)
    ensures RewriteLines(RewriteLines(lines, file, insideFence, renames), file, insideFence, Reversed(renames))
            == lines <==>
            EligibleLines(lines, file, insideFence, line => AllTargetFree(line, renames))
    decreases lines
  {
    if lines != [] {
      var once := RewriteLines(lines, file, insideFence, renames);
      var fence := file.markdown && IsFence(lines[0]);
      LinesUndoIff(lines[1..], file, if fence then !insideFence else insideFence, renames);
      assert once[1..] == RewriteLines(lines[1..], file, if fence then !insideFence else insideFence, renames);
      WholeFencesKept(lines[0], renames);
      WholeUndoIff(lines[0], renames);
      HeadTailEqual(RewriteLines(once, file, insideFence, Reversed(renames)), lines);
    }
  }

  lemma HeadTailEqual(a: seq<string>, b: seq<string>)
    requires a != [] && b != []
    ensures a == b <==> a[0] == b[0] && a[1..] == b[1..]
  {
    assert a == [a[0]] + a[1..] && b == [b[0]] + b[1..];
  }
}
