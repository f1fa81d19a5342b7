/** The words of a text: its maximal runs without white space. */
module Words {
  import opened Text

  lemma CutAt<T>(s: seq<T>, k: nat)
    requires k <= |s|
    ensures s == s[..k] + s[k..]
  {
  }

  lemma EmptyEnds<T>(s: seq<T>)
    ensures s + [] == s && [] + s == s
  {
  }

  // How many characters a text starts with before its first white space.
  function RunLength(s: string): (n: nat)
    ensures n <= |s|
    ensures s != [] && !IsSpace(s[0]) ==> n > 0
  {
    if s == [] || IsSpace(s[0]) then 0 else 1 + RunLength(s[1..])
  }

  function WordsOf(s: string): seq<string>
    decreases |s|
  {
    if s == [] then []
    else if IsSpace(s[0]) then WordsOf(s[1..])
    else [s[..RunLength(s)]] + WordsOf(s[RunLength(s)..])
  }

  function AllWords(texts: seq<string>): seq<string> {
    if texts == [] then [] else WordsOf(texts[0]) + AllWords(texts[1..])
  }

  lemma {:induction false} AllWordsAppend(a: seq<string>, b: seq<string>)
    ensures AllWords(a + b) == AllWords(a) + AllWords(b)
  {
    if a == [] {
      assert a + b == b;
    } else {
      assert (a + b)[1..] == a[1..] + b;
      AllWordsAppend(a[1..], b);
    }
  }

  lemma AllWordsOne(text: string)
    ensures AllWords([text]) == WordsOf(text)
  {
    assert [text][1..] == [];
  }

  predicate IsWord(w: string) {
    w != [] && forall i :: 0 <= i < |w| ==> !IsSpace(w[i])
  }

  lemma {:induction false} RunIsWord(s: string, i: nat)
    requires i < RunLength(s)
    ensures !IsSpace(s[i])
  {
    if i > 0 {
      RunIsWord(s[1..], i - 1);
    }
  }

  lemma {:induction false} WordsAreWords(s: string)
    ensures forall k :: 0 <= k < |WordsOf(s)| ==> IsWord(WordsOf(s)[k])
    decreases |s|
  {
    if s != [] {
      if IsSpace(s[0]) {
        WordsAreWords(s[1..]);
      } else {
        var n := RunLength(s);
        WordsAreWords(s[n..]);
        forall i | 0 <= i < n ensures !IsSpace(s[..n][i]) {
          RunIsWord(s, i);
        }
      }
    }
  }

  // White space separates: a run ends where white space follows it.
  lemma {:induction false} RunBeforeSpace(a: string, space: char, b: string)
    requires IsSpace(space)
    ensures RunLength(a + ([space] + b)) == RunLength(a)
  {
    var s := a + ([space] + b);
    if a == [] {
      assert s[0] == space;
    } else {
      assert s[1..] == a[1..] + ([space] + b);
      RunBeforeSpace(a[1..], space, b);
    }
  }

  lemma {:induction false} WordsSeparate(a: string, space: char, b: string)
    requires IsSpace(space)
    ensures WordsOf(a + ([space] + b)) == WordsOf(a) + WordsOf(b)
    decreases |a|
  {
    var s := a + ([space] + b);
    if a == [] {
      assert s[0] == space && s[1..] == b;
    } else if IsSpace(a[0]) {
      assert s[1..] == a[1..] + ([space] + b);
      WordsSeparate(a[1..], space, b);
    } else {
      var n := RunLength(a);
      RunBeforeSpace(a, space, b);
      assert s[..n] == a[..n] && s[n..] == a[n..] + ([space] + b);
      WordsSeparate(a[n..], space, b);
    }
  }

  // ----- joining -----

  function JoinWith(parts: seq<string>, space: char, extra: string): string {
    if parts == [] then ""
    else if |parts| == 1 then parts[0]
    else parts[0] + ([space] + extra + JoinWith(parts[1..], space, extra))
  }

  predicate AllSpaces(s: string) {
    forall i :: 0 <= i < |s| ==> IsSpace(s[i])
  }

  lemma {:induction false} LeadingSpace(spaces: string, s: string)
    requires AllSpaces(spaces)
    ensures WordsOf(spaces + s) == WordsOf(s)
  {
    if spaces == [] {
      assert spaces + s == s;
    } else {
      assert (spaces + s)[1..] == spaces[1..] + s;
      LeadingSpace(spaces[1..], s);
    }
  }

  // Joining with white space keeps all words in order.
  lemma {:induction false} WordsOfJoin(parts: seq<string>, space: char, extra: string)
    requires IsSpace(space) && AllSpaces(extra)
    ensures WordsOf(JoinWith(parts, space, extra)) == AllWords(parts)
    decreases |parts|
  {
    if |parts| == 1 {
      AllWordsOne(parts[0]);
      assert parts == [parts[0]];
    } else if |parts| > 1 {
      var rest := JoinWith(parts[1..], space, extra);
      WordsOfJoin(parts[1..], space, extra);
      assert [space] + extra + rest == [space] + (extra + rest);
      WordsSeparate(parts[0], space, extra + rest);
      LeadingSpace(extra, rest);
    }
  }

  // ----- collapsing -----

  // Words separated by single spaces.
  function Spaced(words: seq<string>): string {
    JoinWith(words, ' ', "")
  }

  function TrimStart(s: string): (t: string)
    ensures |t| <= |s|
    ensures t != [] ==> !IsSpace(t[0])
  {
    if s == [] || !IsSpace(s[0]) then s else TrimStart(s[1..])
  }

  function TrimEnd(s: string): (t: string)
    ensures t <= s
    ensures t != [] ==> !IsSpace(t[|t| - 1])
    decreases |s|
  {
    if s == [] || !IsSpace(s[|s| - 1]) then s else TrimEnd(s[..|s| - 1])
  }

  function Trim(s: string): string {
    TrimEnd(TrimStart(s))
  }

  // Every run of white space becomes one space.
  function Collapse(s: string): string
    decreases |s|
  {
    if s == [] then ""
    else if IsSpace(s[0]) then " " + Collapse(TrimStart(s))
    else [s[0]] + Collapse(s[1..])
  }

  lemma {:induction false} TrimStartWords(s: string)
    ensures WordsOf(TrimStart(s)) == WordsOf(s)
  {
    if s != [] && IsSpace(s[0]) {
      TrimStartWords(s[1..]);
    }
  }

  lemma {:induction false} TrimEndWords(s: string)
    ensures WordsOf(TrimEnd(s)) == WordsOf(s)
    decreases |s|
  {
    if s != [] && IsSpace(s[|s| - 1]) {
      var front, last := s[..|s| - 1], s[|s| - 1];
      TrimEndWords(front);
      WordsSeparate(front, last, "");
      assert s == front + ([last] + "");
    }
  }

  lemma {:induction false} CollapseRun(s: string)
    ensures Collapse(s) == s[..RunLength(s)] + Collapse(s[RunLength(s)..])
  {
    if s == [] || IsSpace(s[0]) {
      assert s[..0] == "" && s[0..] == s;
    } else {
      CollapseRun(s[1..]);
      assert s[..RunLength(s)] == [s[0]] + s[1..][..RunLength(s[1..])];
      assert s[RunLength(s)..] == s[1..][RunLength(s[1..])..];
    }
  }

  // Collapsed text is its words with single spaces, but for the two ends.
  lemma {:induction false} CollapseIsSpaced(s: string)
    requires s == [] || !IsSpace(s[0])
    ensures TrimEnd(Collapse(s)) == Spaced(WordsOf(s))
    decreases |s|
  {
    if s != [] {
      var n := RunLength(s);
      var word, rest := s[..n], s[n..];
      CollapseRun(s);
      if rest == [] {
        RunTrimmed(s);
        assert word + "" == word;
        assert WordsOf(s) == [word];
      } else {
        RunEnds(s);
        var more := TrimStart(rest);
        CollapseIsSpaced(more);
        TrimStartWords(rest);
        assert Collapse(rest) == " " + Collapse(more);
        RunIsWord(s, n - 1);
        TrimEndWord(word, Collapse(more));
        JoinCons(word, WordsOf(more));
        SpacedEmpty(WordsOf(more));
      }
    }
  }

  lemma {:induction false} RunEnds(s: string)
    requires RunLength(s) < |s|
    ensures IsSpace(s[RunLength(s)])
  {
    if !IsSpace(s[0]) {
      RunEnds(s[1..]);
    }
  }

  lemma RunTrimmed(s: string)
    requires s != [] && RunLength(s) == |s|
    ensures TrimEnd(s) == s
  {
    RunIsWord(s, |s| - 1);
  }

  lemma {:induction false} TrimEndAppend(a: string, b: string)
    ensures TrimEnd(a + b) == if TrimEnd(b) == "" then TrimEnd(a) else a + TrimEnd(b)
    decreases |b|
  {
    if b == [] {
      assert a + b == a;
    } else {
      var front := b[..|b| - 1];
      assert (a + b)[..|a + b| - 1] == a + front;
      if IsSpace(b[|b| - 1]) {
        TrimEndAppend(a, front);
      }
    }
  }

  lemma TrimOneSpace(word: string)
    requires word != [] && !IsSpace(word[|word| - 1])
    ensures TrimEnd(word + " ") == word
  {
    var s := word + " ";
    assert s[|s| - 1] == ' ' && s[..|s| - 1] == word;
  }

  lemma TrimEndWord(word: string, more: string)
    requires word != [] && !IsSpace(word[|word| - 1])
    ensures TrimEnd(word + (" " + more)) == if TrimEnd(more) == "" then word else word + (" " + TrimEnd(more))
  {
    Regroup(word, " ", more);
    TrimEndAppend(word + " ", more);
    TrimOneSpace(word);
    Regroup(word, " ", TrimEnd(more));
  }

  lemma JoinCons(word: string, words: seq<string>)
    ensures Spaced([word] + words) == if words == [] then word else word + (" " + Spaced(words))
  {
    var all := [word] + words;
    assert all[1..] == words;
    assert [' '] + "" + Spaced(words) == " " + Spaced(words);
  }

  lemma SpacedEmpty(words: seq<string>)
    ensures words == [] ==> Spaced(words) == ""
    ensures words != [] && IsWord(words[0]) ==> Spaced(words) != ""
  {
  }

  lemma CollapseStart(s: string)
    requires s == [] || !IsSpace(s[0])
    ensures TrimStart(Collapse(s)) == Collapse(s)
  {
  }

  // Collapsing and trimming leave the words, separated by single spaces.
  lemma TrimCollapse(s: string)
    ensures Trim(Collapse(s)) == Spaced(WordsOf(s))
  {
    if s == [] || !IsSpace(s[0]) {
      CollapseStart(s);
      CollapseIsSpaced(s);
    } else {
      var more := TrimStart(s);
      assert Collapse(s)[1..] == Collapse(more);
      CollapseStart(more);
      CollapseIsSpaced(more);
      TrimStartWords(s);
    }
  }
}
