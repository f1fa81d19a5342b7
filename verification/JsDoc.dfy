/**
 * The prose of a JSDoc block (scripts/jsdoc.ts:32-82).
 *
 * A loop over the lines fills a paragraph buffer or a list with its current
 * item, and flushes them into blocks.  It is proved to compute the blocks of
 * the lines before the first tag, and those blocks to hold exactly the words of
 * those lines, in order.
 */
module JsDoc {
  import opened Options
  import opened Text
  import opened Words

  datatype Mode = Emit | Waterfall | Parallel | Serial | Bail

  // ----- kinds of lines -----

  predicate IsBlank(line: string) {
    Trim(line) == ""
  }

  predicate IsBullet(line: string) {
    |line| > 1 && line[0] == '-' && IsSpace(line[1])
  }

  predicate IsTag(line: string) {
    "@" <= TrimStart(line)
  }

  predicate IsWordChar(c: char) {
    'a' <= c <= 'z' || 'A' <= c <= 'Z' || '0' <= c <= '9' || c == '_'
  }

  // `@mode` as a whole word.
  predicate IsModeTag(line: string) {
    var tag := TrimStart(line);
    "@mode" <= tag && (|tag| == 5 || !IsWordChar(tag[5]))
  }

  function ModeNamed(name: string): Option<Mode> {
    if name == "emit" then Some(Emit)
    else if name == "waterfall" then Some(Waterfall)
    else if name == "parallel" then Some(Parallel)
    else if name == "serial" then Some(Serial)
    else if name == "bail" then Some(Bail)
    else None
  }

  // The mode a line names: `@mode`, white space, one of the five names, nothing else.
  function ModeOf(line: string): Option<Mode> {
    var tag := TrimStart(line);
    if "@mode" <= tag && |tag| > 5 && IsSpace(tag[5]) then ModeNamed(Trim(tag[5..])) else None
  }

  // ----- what the blocks are -----

  // The lines before the first tag.
  function Prose(lines: seq<string>): seq<string> {
    if lines == [] || IsTag(lines[0]) then [] else [lines[0]] + Prose(lines[1..])
  }

  // The words of some lines on one line.
  function Joined(parts: seq<string>): string {
    Spaced(AllWords(parts))
  }

  // How many lines come before the first bullet, or before the first blank line.
  function UntilBullet(lines: seq<string>): (n: nat)
    ensures n <= |lines|
  {
    if lines == [] || IsBullet(lines[0]) then 0 else 1 + UntilBullet(lines[1..])
  }

  function UntilBlank(lines: seq<string>): (n: nat)
    ensures n <= |lines|
    ensures lines != [] && !IsBlank(lines[0]) ==> n > 0
  {
    if lines == [] || IsBlank(lines[0]) then 0 else 1 + UntilBlank(lines[1..])
  }

  // A bullet and the lines that continue it, then the next bullet.
  function Items(lines: seq<string>): seq<string>
    decreases |lines|
  {
    if lines == [] then []
    else
      var k := 1 + UntilBullet(lines[1..]);
      [Joined(lines[..k])] + Items(lines[k..])
  }

  // A stretch without blank lines: its paragraph, then its list with an item a line.
  function GroupBlocks(group: seq<string>): seq<string> {
    var m := UntilBullet(group);
    (if m > 0 then [Joined(group[..m])] else [])
    + (if m < |group| then [JoinWith(Items(group[m..]), '\n', "")] else [])
  }

  function Blocks(lines: seq<string>): seq<string>
    decreases |lines|
  {
    if lines == [] then []
    else if IsBlank(lines[0]) then Blocks(lines[1..])
    else
      var n := UntilBlank(lines);
      GroupBlocks(lines[..n]) + Blocks(lines[n..])
  }

  // ----- the blocks keep the words -----

  lemma JoinedWords(parts: seq<string>)
    ensures WordsOf(Joined(parts)) == AllWords(parts)
  {
    AllWordsAreWords(parts);
    WordsOfSpaced(AllWords(parts));
  }

  predicate Worded(words: seq<string>) {
    forall k :: 0 <= k < |words| ==> IsWord(words[k])
  }

  lemma {:induction false} AllWordsAreWords(parts: seq<string>)
    ensures Worded(AllWords(parts))
  {
    if parts != [] {
      WordsAreWords(parts[0]);
      AllWordsAreWords(parts[1..]);
    }
  }

  lemma {:induction false} OneWord(w: string)
    requires IsWord(w)
    ensures RunLength(w) == |w| && WordsOf(w) == [w]
  {
    WholeRun(w);
    assert w[|w|..] == "" && w[..|w|] == w;
  }

  lemma {:induction false} WholeRun(w: string)
    requires forall i :: 0 <= i < |w| ==> !IsSpace(w[i])
    ensures RunLength(w) == |w|
  {
    if w != [] {
      WholeRun(w[1..]);
    }
  }

  lemma {:induction false} AllWordsOfWords(words: seq<string>)
    requires Worded(words)
    ensures AllWords(words) == words
  {
    if words != [] {
      OneWord(words[0]);
      AllWordsOfWords(words[1..]);
      assert words == [words[0]] + words[1..];
    }
  }

  lemma WordsOfSpaced(words: seq<string>)
    requires Worded(words)
    ensures WordsOf(Spaced(words)) == words
  {
    WordsOfJoin(words, ' ', "");
    AllWordsOfWords(words);
  }

  lemma {:induction false} ItemsWords(lines: seq<string>)
    ensures AllWords(Items(lines)) == AllWords(lines)
    decreases |lines|
  {
    if lines != [] {
      var k := 1 + UntilBullet(lines[1..]);
      ItemsWords(lines[k..]);
      JoinedWords(lines[..k]);
      AllWordsOne(Joined(lines[..k]));
      AllWordsAppend([Joined(lines[..k])], Items(lines[k..]));
      AllWordsAppend(lines[..k], lines[k..]);
      CutAt(lines, k);
    }
  }

  lemma GroupWords(group: seq<string>)
    ensures AllWords(GroupBlocks(group)) == AllWords(group)
  {
    var m := UntilBullet(group);
    var para, list := group[..m], group[m..];
    CutAt(group, m);
    AllWordsAppend(para, list);
    JoinedWords(para);
    AllWordsOne(Joined(para));
    ItemsWords(list);
    WordsOfJoin(Items(list), '\n', "");
    AllWordsOne(JoinWith(Items(list), '\n', ""));
    AllWordsAppend(if m > 0 then [Joined(para)] else [], if m < |group| then [JoinWith(Items(list), '\n', "")] else []);
  }

  lemma BlankHasNoWords(line: string)
    requires IsBlank(line)
    ensures WordsOf(line) == []
  {
    TrimStartWords(line);
    TrimEndWords(TrimStart(line));
  }

  // Main result: the blocks hold the words of the lines, in order.
  lemma {:induction false} BlocksWords(lines: seq<string>)
    ensures AllWords(Blocks(lines)) == AllWords(lines)
    decreases |lines|
  {
    if lines != [] {
      if IsBlank(lines[0]) {
        BlankHasNoWords(lines[0]);
        BlocksWords(lines[1..]);
      } else {
        var n := UntilBlank(lines);
        GroupWords(lines[..n]);
        BlocksWords(lines[n..]);
        AllWordsAppend(GroupBlocks(lines[..n]), Blocks(lines[n..]));
        AllWordsAppend(lines[..n], lines[n..]);
        CutAt(lines, n);
      }
    }
  }

  // The text of the blocks, before links are unwrapped.
  function Doc(lines: seq<string>): string {
    Trim(JoinWith(Blocks(Prose(lines)), '\n', "\n"))
  }

  lemma DocKeepsWords(lines: seq<string>)
    ensures WordsOf(Doc(lines)) == AllWords(Prose(lines))
  {
    var joined := JoinWith(Blocks(Prose(lines)), '\n', "\n");
    TrimStartWords(joined);
    TrimEndWords(TrimStart(joined));
    WordsOfJoin(Blocks(Prose(lines)), '\n', "\n");
    BlocksWords(Prose(lines));
  }
}
