/** The YAML `name:` rewrite, which touches a line only before its first quote. */
module RescopeHead {
  import opened Options
  import opened Text
  import opened RescopePieces
  import opened RescopeLaws
  import opened RescopeLine

  // ---- The scanner stops at a quote ----

  lemma {:induction false} StripSpaceExtends(t: string, x: string)
    requires StripSpace(t) != [] || x == [] || !IsSpace(x[0])
    ensures StripSpace(t + x) == StripSpace(t) + x
  {
    if t == [] {
      assert t + x == x;
    } else {
      assert (t + x)[1..] == t[1..] + x && (t + x)[0] == t[0];
      if IsSpace(t[0]) {
        StripSpaceExtends(t[1..], x);
      }
    }
  }

  lemma {:induction false} StripBlankExtends(t: string, x: string)
    requires StripBlank(t) != [] || x == [] || !IsBlank(x[0])
    ensures StripBlank(t + x) == StripBlank(t) + x
  {
    if t == [] {
      assert t + x == x;
    } else {
      assert (t + x)[1..] == t[1..] + x && (t + x)[0] == t[0];
      if IsBlank(t[0]) {
        StripBlankExtends(t[1..], x);
      }
    }
  }

  lemma AfterDashExtends(t: string, x: string)
    requires AfterDash(t) != [] || AtQuote(x)
    ensures AfterDash(t + x) == AfterDash(t) + x
  {
    var u := StripSpace(t);
    if u == [] {
      StripSpaceExtends(t, x);
      assert [] + x == x;
    } else {
      StripSpaceExtends(t, x);
      assert (u + x)[0] == u[0];
      if u[0] == '-' {
        assert (u + x)[1..] == u[1..] + x;
        StripSpaceExtends(u[1..], x);
      }
    }
  }

  lemma KeyExtends(t: string, x: string)
    requires AtQuote(x) || 5 < |t|
    ensures ("name:" <= t + x && 5 < |t + x| && IsBlank((t + x)[5])) <==> ("name:" <= t && 5 < |t| && IsBlank(t[5]))
  {
    if 5 < |t| {
      assert (t + x)[..5] == t[..5] && (t + x)[5] == t[5];
    } else if x != [] {
      assert (t + x)[|t|] == x[0];
    }
  }

  /** Text after the first quote never decides whether a line is a `name:` scalar. */
  lemma YamlRestExtends(h: string, x: string)
    requires AtQuote(x)
    ensures YamlRest(h + x) == match YamlRest(h) case None => None case Some(rest) => Some(rest + x)
  {
    var t := AfterDash(h);
    AfterDashExtends(h, x);
    KeyExtends(t, x);
    if "name:" <= t && 5 < |t| && IsBlank(t[5]) {
      assert (t + x)[5..] == t[5..] + x;
      StripBlankExtends(t[5..], x);
    }
  }

  /** The head before a replaced name, and what may follow it. */
  lemma YamlRestReplaced(p: string, x: string)
    requires YamlRest(p) == Some([]) && (x == [] || !IsBlank(x[0]))
    ensures YamlRest(p + x) == Some(x)
  {
    var t := AfterDash(p);
    AfterDashExtends(p, x);
    KeyExtends(t, x);
    assert (t + x)[5..] == t[5..] + x;
    StripBlankExtends(t[5..], x);
    assert [] + x == x;
  }

  lemma {:induction false} StripSpaceSuffix(s: string)
    ensures |StripSpace(s)| <= |s| && s[|s| - |StripSpace(s)|..] == StripSpace(s)
  {
    if s != [] && IsSpace(s[0]) {
      StripSpaceSuffix(s[1..]);
    }
  }

  lemma {:induction false} StripBlankSplit(s: string)
    ensures |StripBlank(s)| <= |s| && s[|s| - |StripBlank(s)|..] == StripBlank(s)
    ensures StripBlank(s[..|s| - |StripBlank(s)|]) == []
    ensures StripBlank(s) == [] || !IsBlank(StripBlank(s)[0])
  {
    if s != [] && IsBlank(s[0]) {
      StripBlankSplit(s[1..]);
      var k := |s| - |StripBlank(s)|;
      assert s[..k][1..] == s[1..][..k - 1];
    }
  }

  lemma AfterDashSuffix(s: string)
    ensures |AfterDash(s)| <= |s| && s[|s| - |AfterDash(s)|..] == AfterDash(s)
  {
    StripSpaceSuffix(s);
    var t := StripSpace(s);
    if t != [] && t[0] == '-' {
      StripSpaceSuffix(t[1..]);
      assert s[|s| - |t| + 1..] == t[1..];
    }
  }

  /** A `name:` line splits into its key, which alone is a key, and its scalar. */
  lemma YamlRestSplits(s: string) returns (p: string)
    requires YamlRest(s).Some?
    ensures s == p + YamlRest(s).value && YamlRest(p) == Some([])
    ensures YamlRest(s).value == [] || !IsBlank(YamlRest(s).value[0])
  {
    var t := AfterDash(s);
    AfterDashSuffix(s);
    StripBlankSplit(t[5..]);
    var rest := StripBlank(t[5..]);
    SuffixesCut(s, t, t[5..], rest);
    p := s[..|s| - |rest|];
    KeyAlone(s, p, t, t[..|t| - |rest|], rest);
  }

  lemma SuffixesCut(s: string, t: string, u: string, rest: string)
    requires |rest| <= |u| <= |t| <= |s|
    requires s[|s| - |t|..] == t && t[|t| - |u|..] == u && u[|u| - |rest|..] == rest
    ensures s == s[..|s| - |rest|] + rest && t == t[..|t| - |rest|] + rest
  {
    assert t[|t| - |rest|..] == rest;
    assert s[|s| - |rest|..] == rest;
  }

  lemma KeyAlone(s: string, p: string, t: string, key: string, rest: string)
    requires t == AfterDash(s) && "name:" <= t && 5 < |t| && IsBlank(t[5]) && rest == StripBlank(t[5..])
    requires s == p + rest && t == key + rest
    ensures YamlRest(p) == Some([])
  {
    StripBlankSplit(t[5..]);
    assert 5 < |key|;
    AfterDashSuffix(s);
    DashOfPrefix(s, p, key, rest);
    assert key[..5] == t[..5] && key[5] == t[5];
    assert key[5..] == t[5..][..|t[5..]| - |rest|];
  }

  lemma DashOfPrefix(s: string, p: string, key: string, rest: string)
    requires s == p + rest && AfterDash(s) == key + rest && key != []
    ensures AfterDash(p) == key
  {
    var u, v := StripSpace(s), StripSpace(p);
    StripSpaceSuffix(s);
    StripSpaceSuffix(if u != [] then u[1..] else u);
    StripSpaceOfPrefix(p, rest);
    assert u == v + rest && v != [] && v[0] == u[0];
    if u[0] == '-' {
      assert u[1..] == v[1..] + rest;
      StripSpaceOfPrefix(v[1..], rest);
      assert (StripSpace(v[1..]) + rest)[..|key|] == (key + rest)[..|key|] == key;
    } else {
      assert (v + rest)[..|key|] == (key + rest)[..|key|] == key;
    }
  }

  /** If the scan of the whole stops within the prefix, it stops there on the prefix. */
  lemma {:induction false} StripSpaceOfPrefix(p: string, rest: string)
    ensures |StripSpace(p + rest)| > |rest| ==> StripSpace(p + rest) == StripSpace(p) + rest && StripSpace(p) != []
  {
    if p == [] {
      assert p + rest == rest;
      StripSpaceSuffix(rest);
    } else {
      assert (p + rest)[1..] == p[1..] + rest && (p + rest)[0] == p[0];
      if IsSpace(p[0]) {
        StripSpaceOfPrefix(p[1..], rest);
      }
    }
  }

  // ---- The rewrite on the head ----

  /** What may follow the name: blanks to the end of the line, or a comment. */
  predicate HeadSuffixOk(t: string, last: bool) {
    var u := StripBlank(t);
    if u == [] then last else u[0] == '#'
  }

  /** The head is a `name:` scalar of this name; `last` says no quote follows. */
  predicate HeadMatches(h: string, last: bool, name: string) {
    YamlRest(h).Some? && name <= YamlRest(h).value && HeadSuffixOk(YamlRest(h).value[|name|..], last)
  }

  function HeadSwap(h: string, rename: Rename): string
    requires YamlRest(h).Some? && rename.from <= YamlRest(h).value
  {
    var rest := YamlRest(h).value;
    if |rest| <= |h| then h[..|h| - |rest|] + rename.to + rest[|rename.from|..] else h
  }

  function RewriteHead(h: string, last: bool, rename: Rename): string {
    if HeadMatches(h, last, rename.from) then HeadSwap(h, rename) else h
  }

  lemma YamlIsHead(h: string, x: string, rename: Rename)
    requires NoQuotes(h) && AtQuote(x) && Clean(rename.from)
    ensures RewriteYaml(h + x, rename) == RewriteHead(h, x == [], rename) + x
  {
    YamlRestExtends(h, x);
    if YamlRest(h).Some? {
      var rest := YamlRest(h).value;
      var p := YamlRestSplits(h);
      RestNoQuotes(p, rest);
      NameWithinText(rename.from, rest, x);
      if rename.from <= rest {
        var tail := rest[|rename.from|..];
        SuffixExtends(tail, x);
        SplitOver(h, rest, x, |rename.from|);
      }
    }
  }

  lemma SplitOver(h: string, rest: string, x: string, k: nat)
    requires k <= |rest| <= |h|
    ensures (rest + x)[k..] == rest[k..] + x && (h + x)[..|h + x| - |rest + x|] == h[..|h| - |rest|]
  {
  }

  lemma RestNoQuotes(p: string, rest: string)
    requires NoQuotes(p + rest)
    ensures NoQuotes(rest)
  {
    assert forall c :: c in rest ==> c in p + rest;
  }

  lemma SuffixExtends(t: string, x: string)
    requires AtQuote(x)
    ensures SuffixOk(t + x) == HeadSuffixOk(t, x == [])
  {
    StripBlankExtends(t, x);
    var u := StripBlank(t);
    if u == [] {
      assert u + x == x;
    } else {
      assert (u + x)[0] == u[0];
    }
  }

  lemma HeadSwapMatches(h: string, last: bool, rename: Rename)
    requires HeadMatches(h, last, rename.from) && Clean(rename.from) && Clean(rename.to)
    ensures HeadMatches(HeadSwap(h, rename), last, rename.to)
    ensures HeadSwap(HeadSwap(h, rename), Rename(rename.to, rename.from)) == h
    ensures NoQuotes(h) ==> NoQuotes(HeadSwap(h, rename))
  {
    var rest := YamlRest(h).value;
    var p := YamlRestSplits(h);
    var tail := rest[|rename.from|..];
    assert rest == rename.from + tail;
    ScalarSwap(p, tail, rename);
    ScalarSwap(p, tail, Rename(rename.to, rename.from));
    SwapKeepsQuotes(p, tail, rename);
  }

  /** Swapping the name of a scalar cut into prefix, name and tail. */
  lemma ScalarSwap(p: string, tail: string, rename: Rename)
    requires YamlRest(p) == Some([]) && Clean(rename.from) && Clean(rename.to)
    ensures YamlRest(p + (rename.from + tail)) == Some(rename.from + tail)
    ensures YamlRest(p + (rename.to + tail)) == Some(rename.to + tail)
    ensures (rename.to + tail)[|rename.to|..] == tail
    ensures HeadSwap(p + (rename.from + tail), rename) == p + (rename.to + tail)
  {
    SwappedScalar(p, tail, rename.from);
    SwappedScalar(p, tail, rename.to);
    var h := p + (rename.from + tail);
    assert h[..|h| - |rename.from + tail|] == p;
    assert (rename.from + tail)[|rename.from|..] == tail;
    Regroup(p, rename.to, tail);
  }

  lemma SwapKeepsQuotes(p: string, tail: string, rename: Rename)
    requires Clean(rename.to)
    ensures NoQuotes(p + (rename.from + tail)) ==> NoQuotes(p + (rename.to + tail))
  {
    if NoQuotes(p + (rename.from + tail)) {
      assert forall c :: c in p || c in tail ==> c in p + (rename.from + tail);
    }
  }

  lemma SwappedScalar(p: string, tail: string, name: string)
    requires YamlRest(p) == Some([]) && Clean(name)
    ensures YamlRest(p + (name + tail)) == Some(name + tail)
  {
    assert name[0] in name;
    assert (name + tail)[0] == name[0] && !IsBlank(name[0]);
    YamlRestReplaced(p, name + tail);
  }

  /** No head is a scalar of two names. */
  lemma HeadMatchesOne(h: string, last: bool, x: string, y: string)
    requires Clean(x) && Clean(y) && x != y && HeadMatches(h, last, x)
    ensures !HeadMatches(h, last, y)
  {
    var rest := YamlRest(h).value;
    if HeadMatches(h, last, y) {
      HeadMatchesBoth(rest, last, x, y);
    }
  }

  lemma HeadMatchesBoth(rest: string, last: bool, x: string, y: string)
    requires Clean(x) && Clean(y) && x <= rest && y <= rest
    requires HeadSuffixOk(rest[|x|..], last) && HeadSuffixOk(rest[|y|..], last)
    ensures x == y
  {
    if |x| < |y| {
      NameStops(rest, last, x, y);
    } else if |y| < |x| {
      NameStops(rest, last, y, x);
    }
  }

  lemma NameStops(rest: string, last: bool, x: string, y: string)
    requires Clean(y) && x <= rest && y <= rest && HeadSuffixOk(rest[|x|..], last)
    ensures |y| <= |x|
  {
    if |x| < |rest| {
      var tail, c := rest[|x|..], rest[|x|];
      assert tail[0] == c;
      assert IsBlank(c) || c == '#';
      assert c !in y;
      assert |y| <= |rest| && y == rest[..|y|];
    }
  }

  // ---- All renames on the head ----

  function RewriteHeadAll(h: string, last: bool, renames: seq<Rename>): string
    decreases renames
  {
    if renames == [] then h else RewriteHeadAll(RewriteHead(h, last, renames[0]), last, renames[1..])
  }

  lemma NamesDiffer(renames: seq<Rename>, i: nat, j: nat)
    requires WellFormed(renames) && i < |renames| && j < |renames|
    ensures Clean(renames[i].from) && Clean(renames[i].to) && renames[i].from != renames[j].to
    ensures i != j ==> renames[i].from != renames[j].from && renames[i].to != renames[j].to
  {
  }

  lemma {:induction false} HeadUntouched(h: string, last: bool, renames: seq<Rename>)
    requires forall i :: 0 <= i < |renames| ==> !HeadMatches(h, last, renames[i].from)
    ensures RewriteHeadAll(h, last, renames) == h
    decreases renames
  {
    if renames != [] {
      HeadUntouched(h, last, renames[1..]);
    }
  }

  lemma {:induction false} HeadReplaced(h: string, last: bool, renames: seq<Rename>, i: nat)
    requires WellFormed(renames) && i < |renames| && HeadMatches(h, last, renames[i].from)
    ensures RewriteHeadAll(h, last, renames) == HeadSwap(h, renames[i])
    decreases renames
  {
    NamesDiffer(renames, i, i);
    if i == 0 {
      var after := HeadSwap(h, renames[0]);
      HeadSwapMatches(h, last, renames[0]);
      forall j | 0 <= j < |renames[1..]|
        ensures !HeadMatches(after, last, renames[1..][j].from)
      {
        NamesDiffer(renames, j + 1, 0);
        HeadMatchesOne(after, last, renames[0].to, renames[j + 1].from);
      }
      HeadUntouched(after, last, renames[1..]);
    } else {
      NamesDiffer(renames, 0, i);
      HeadMatchesOne(h, last, renames[i].from, renames[0].from);
      TailWellFormed(renames);
      HeadReplaced(h, last, renames[1..], i - 1);
    }
  }

  lemma HeadSettled(h: string, last: bool, renames: seq<Rename>)
    requires WellFormed(renames)
    ensures forall i :: 0 <= i < |renames| ==> !HeadMatches(RewriteHeadAll(h, last, renames), last, renames[i].from)
    ensures NoQuotes(h) ==> NoQuotes(RewriteHeadAll(h, last, renames))
  {
    if i :| 0 <= i < |renames| && HeadMatches(h, last, renames[i].from) {
      NamesDiffer(renames, i, i);
      HeadReplaced(h, last, renames, i);
      HeadSwapMatches(h, last, renames[i]);
      forall j | 0 <= j < |renames|
        ensures !HeadMatches(HeadSwap(h, renames[i]), last, renames[j].from)
      {
        NamesDiffer(renames, j, i);
        HeadMatchesOne(HeadSwap(h, renames[i]), last, renames[i].to, renames[j].from);
      }
    } else {
      HeadUntouched(h, last, renames);
    }
  }

  /** A second pass never changes a head. */
  lemma HeadIdempotent(h: string, last: bool, renames: seq<Rename>)
    requires WellFormed(renames)
    ensures RewriteHeadAll(RewriteHeadAll(h, last, renames), last, renames) == RewriteHeadAll(h, last, renames)
  {
    HeadSettled(h, last, renames);
    HeadUntouched(RewriteHeadAll(h, last, renames), last, renames);
  }

  ghost predicate HeadHasTarget(h: string, last: bool, renames: seq<Rename>) {
    exists i :: 0 <= i < |renames| && HeadMatches(h, last, renames[i].to)
  }

  /** The reverse table undoes a head exactly when it did not name a target already. */
  lemma HeadUndoIff(h: string, last: bool, renames: seq<Rename>)
    requires WellFormed(renames)
    ensures RewriteHeadAll(RewriteHeadAll(h, last, renames), last, Reversed(renames)) == h <==>
              !HeadHasTarget(h, last, renames)
  {
    ReversedWellFormed(renames);
    var r := Reversed(renames);
    if i :| 0 <= i < |renames| && HeadMatches(h, last, renames[i].from) {
      NamesDiffer(renames, i, i);
      HeadReplaced(h, last, renames, i);
      HeadSwapMatches(h, last, renames[i]);
      HeadReplaced(HeadSwap(h, renames[i]), last, r, i);
      forall j | 0 <= j < |renames|
        ensures !HeadMatches(h, last, renames[j].to)
      {
        NamesDiffer(renames, j, j);
        NamesDiffer(renames, i, j);
        HeadMatchesOne(h, last, renames[i].from, renames[j].to);
      }
    } else {
      HeadUntouched(h, last, renames);
      HeadUndoUnchanged(h, last, renames);
    }
  }

  lemma HeadUndoUnchanged(h: string, last: bool, renames: seq<Rename>)
    requires WellFormed(renames)
    ensures RewriteHeadAll(h, last, Reversed(renames)) == h <==> !HeadHasTarget(h, last, renames)
  {
    ReversedWellFormed(renames);
    var r := Reversed(renames);
    if i :| 0 <= i < |renames| && HeadMatches(h, last, renames[i].to) {
      NamesDiffer(renames, i, i);
      assert r[i] == Rename(renames[i].to, renames[i].from);
      HeadReplaced(h, last, r, i);
      HeadSwapMatches(h, last, r[i]);
      HeadMatchesOne(HeadSwap(h, r[i]), last, renames[i].from, renames[i].to);
    } else {
      HeadUntouched(h, last, r);
    }
  }
}
