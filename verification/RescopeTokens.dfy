/** What the rescope does to the quoted texts of a line, said on its characters alone:
    the quotes and the line terminators are listed here, and a token is described by the
    text it is made of. */
module RescopeTokens {
  import opened Text
  import opened RescopePieces
  import opened RescopeLaws
  import opened RescopeLine
  import opened RescopeHead
  import opened RescopeText
  import opened RescopeSegments
  import opened RescopeFile

  const QUOTES := ['\'', '"', '`']
  const TERMINATORS := ['\n', '\r', '\U{2028}', '\U{2029}']

  /** Text without quotes, on one line. */
  predicate Plain(s: string) {
    Free(s, QUOTES) && Free(s, TERMINATORS)
  }

  ghost predicate Occurs(part: string, s: string) {
    exists k :: 0 <= k <= |s| && part <= s[k..]
  }

  /** The text before a token does not hold both a `name:` and a name of the table. */
  ghost predicate NoScalar(s: string, renames: seq<Rename>) {
    forall i :: 0 <= i < |renames| ==> !(Occurs("name:", s) && Occurs(renames[i].from, s))
  }

  predicate IsSubpath(tail: string) {
    tail == "" || (tail[0] == '/' && Free(tail, WHITE_SPACE))
  }

  // ---- One line ----

  lemma QuotesListed(c: char)
    ensures IsQuote(c) <==> c in QUOTES
  {
  }

  lemma PlainText(s: string)
    requires Plain(s)
    ensures NoQuotes(s) && OneSegment(s) && Lacks(s, '\n')
  {
    forall c | c in s
      ensures !IsQuote(c) && !IsTerminator(c) && c != '\n'
    {
      QuotesListed(c);
    }
  }

  lemma LineAlone(line: string, file: File, renames: seq<Rename>)
    requires !file.markdown && WellFormed(renames) && OneSegment(line) && Lacks(line, '\n')
    ensures RewriteText(line, file, renames) == RewriteLineSpec(line, renames)
  {
    assert Join([line], '\n') == line;
    JoinSplits([line], '\n');
    assert [line][1..] == [];
    WholeOfSegment(line, renames);
    var none: seq<string> := [];
    assert [RewriteWhole(line, renames)] + none == [RewriteWhole(line, renames)];
    assert RewriteLines([line], file, false, renames) == [RewriteWhole(line, renames)];
  }

  lemma MatchesIff(text: string, name: string)
    ensures Matches(text, name) <==> name <= text && IsSubpath(text[|name|..])
  {
    if name <= text && text != name {
      var tail := text[|name|..];
      assert text[..|name|] == name;
      assert (name + "/")[|name|] == '/' && text[|name|] == tail[0] && tail[1..] == text[|name| + 1..];
      assert name + "/" <= text <==> tail[0] == '/';
      SubpathIff(tail);
    } else if Matches(text, name) {
      MatchPrefix(text, name);
    }
  }

  lemma SubpathIff(tail: string)
    requires tail != ""
    ensures IsSubpath(tail) <==> tail[0] == '/' && NoSpace(tail[1..])
  {
    forall c
      ensures IsSpace(c) <==> c in WHITE_SPACE
    {
      WhiteSpaceListed(c);
    }
    assert tail == [tail[0]] + tail[1..];
    assert !IsSpace('/');
  }

  lemma {:induction false} HeadOccurs(head: string, last: bool, name: string)
    requires HeadMatches(head, last, name)
    ensures Occurs("name:", head) && Occurs(name, head)
  {
    AfterDashSuffix(head);
    var p := YamlRestSplits(head);
    assert head[|p|..] == YamlRest(head).value;
  }

  lemma HeadKept(head: string, renames: seq<Rename>)
    requires NoScalar(head, renames)
    ensures RewriteHeadAll(head, false, renames) == head
  {
    forall i | 0 <= i < |renames|
      ensures !HeadMatches(head, false, renames[i].from)
    {
      if HeadMatches(head, false, renames[i].from) {
        HeadOccurs(head, false, renames[i].from);
      }
    }
    HeadUntouched(head, false, renames);
  }

  function TwoPieces(q: char, text: string, q': char, post: string): seq<Piece> {
    [Piece(q, text), Piece(q', post)]
  }

  lemma LinePieces(pre: string, q: char, text: string, q': char, post: string)
    ensures pre + [q] + text + [q'] + post == pre + JoinPieces(TwoPieces(q, text, q', post))
  {
    JoinOnlyTwo(Piece(q, text), Piece(q', post));
    Regroup(pre, [q], text);
    Regroup(pre, [q] + text, [q']);
    Regroup(pre, [q] + text + [q'], post);
  }

  /** Around a pair of quotes, the line is rewritten as its two pieces are. */
  lemma LineOfTwo(pre: string, q: char, text: string, q': char, post: string, file: File, renames: seq<Rename>)
    requires !file.markdown && WellFormed(renames) && NoScalar(pre, renames)
    requires Plain(pre) && Plain(text) && Plain(post) && q in QUOTES && q' in QUOTES
    ensures RewriteText(pre + [q] + text + [q'] + post, file, renames)
            == pre + JoinPieces(RewriteAll(TwoPieces(q, text, q', post), renames))
  {
    var pieces, line := TwoPieces(q, text, q', post), pre + [q] + text + [q'] + post;
    PlainText(pre);
    PlainText(text);
    PlainText(post);
    QuotesListed(q);
    QuotesListed(q');
    LineAlone(line, file, renames);
    LinePieces(pre, q, text, q', post);
    LineOnCut(pre, pieces, renames);
    HeadKept(pre, renames);
  }

  lemma CandidatesOfTwo(q: char, text: string, q': char, post: string, name: string)
    ensures var pieces := TwoPieces(q, text, q', post);
            && (Selected(pieces, name, 0) <==> q == q' && name <= text && IsSubpath(text[|name|..]))
            && !Selected(pieces, name, 1)
  {
    MatchesIff(text, name);
  }

  /** A quoted name of the table, or such a name with a subpath, has its name replaced,
      whichever the quote; the text around it is kept. */
  lemma TokenRewritten(pre: string, q: char, tail: string, post: string, file: File, renames: seq<Rename>, i: nat)
    requires !file.markdown && WellFormed(renames) && i < |renames|
    requires Plain(pre) && Plain(tail) && Plain(post) && NoScalar(pre, renames)
    requires q in ['\'', '"', '`'] && IsSubpath(tail)
    ensures RewriteText(pre + [q] + (renames[i].from + tail) + [q] + post, file, renames)
            == pre + [q] + (renames[i].to + tail) + [q] + post
  {
    var text := renames[i].from + tail;
    var pieces := TwoPieces(q, text, q, post);
    NamesDiffer(renames, i, i);
    CleanPlain(renames[i].from);
    LineOfTwo(pre, q, text, q, post, file, renames);
    RewriteAllReplaces(pieces, renames);
    CandidatesOfTwo(q, text, q, post, renames[i].from);
    assert text[|renames[i].from|..] == tail;
    var after := RewriteAll(pieces, renames);
    assert after[0] == Swap(pieces[0], renames[i]);
    forall k | 0 <= k < |renames|
      ensures !Selected(pieces, renames[k].from, 1)
    {
      CandidatesOfTwo(q, text, q, post, renames[k].from);
    }
    assert after == TwoPieces(q, renames[i].to + tail, q, post);
    LinePieces(pre, q, renames[i].to + tail, q, post);
  }

  lemma CleanPlain(name: string)
    requires Clean(name)
    ensures Plain(name)
  {
    forall c | c in name
      ensures c !in QUOTES && c !in TERMINATORS
    {
      QuotesListed(c);
      WhiteSpaceListed(c);
    }
  }

  /** Any other text between two quotes is kept: the quotes differ, or it is no name of
      the table with or without a subpath. */
  lemma OtherTextKept(pre: string, q: char, text: string, q': char, post: string, file: File, renames: seq<Rename>)
    requires !file.markdown && WellFormed(renames)
    requires Plain(pre) && Plain(text) && Plain(post) && NoScalar(pre, renames)
    requires q in ['\'', '"', '`'] && q' in ['\'', '"', '`']
    requires q != q' || forall i, tail :: 0 <= i < |renames| && IsSubpath(tail) ==> text != renames[i].from + tail
    ensures var line := pre + [q] + text + [q'] + post; RewriteText(line, file, renames) == line
  {
    var pieces := TwoPieces(q, text, q', post);
    LineOfTwo(pre, q, text, q', post, file, renames);
    forall i | 0 <= i < |renames|
      ensures !(q == q' && renames[i].from <= text && IsSubpath(text[|renames[i].from|..]))
    {
      if renames[i].from <= text {
        assert text == renames[i].from + text[|renames[i].from|..];
      }
    }
    PiecesKept(q, text, q', post, renames);
    LinePieces(pre, q, text, q', post);
  }

  lemma PiecesKept(q: char, text: string, q': char, post: string, renames: seq<Rename>)
    requires WellFormed(renames)
    requires forall i :: 0 <= i < |renames| ==>
               !(q == q' && renames[i].from <= text && IsSubpath(text[|renames[i].from|..]))
    ensures RewriteAll(TwoPieces(q, text, q', post), renames) == TwoPieces(q, text, q', post)
  {
    var pieces := TwoPieces(q, text, q', post);
    RewriteAllReplaces(pieces, renames);
    forall i | 0 <= i < |renames|
      ensures !Selected(pieces, renames[i].from, 0) && !Selected(pieces, renames[i].from, 1)
    {
      CandidatesOfTwo(q, text, q', post, renames[i].from);
    }
  }

  // ---- A line of quoted texts ----

  /** A text in quotes, and what follows it up to the next one. */
  datatype Token = Token(quote: char, text: string, gap: string)

  function Written(tokens: seq<Token>): string {
    if tokens == [] then []
    else [tokens[0].quote] + tokens[0].text + [tokens[0].quote] + tokens[0].gap + Written(tokens[1..])
  }

  predicate Names(text: string, rename: Rename) {
    rename.from <= text && IsSubpath(text[|rename.from|..])
  }

  ghost predicate PlainToken(token: Token, renames: seq<Rename>) {
    && token.quote in ['\'', '"', '`'] && Plain(token.text) && Plain(token.gap)
    && forall i :: 0 <= i < |renames| ==> !Names(token.gap, renames[i])
  }

  ghost predicate AllPlain(tokens: seq<Token>, renames: seq<Rename>) {
    forall k :: 0 <= k < |tokens| ==> PlainToken(tokens[k], renames)
  }

  /** A name of the table, with its subpath kept, becomes its target; any other text stays. */
  ghost predicate TextRenamed(before: string, after: string, renames: seq<Rename>) {
    && (forall i :: 0 <= i < |renames| && Names(before, renames[i]) ==>
          after == renames[i].to + before[|renames[i].from|..])
    && ((forall i :: 0 <= i < |renames| ==> !Names(before, renames[i])) ==> after == before)
  }

  ghost predicate Renamed(before: Token, after: Token, renames: seq<Rename>) {
    after.quote == before.quote && after.gap == before.gap && TextRenamed(before.text, after.text, renames)
  }

  // ---- Its pieces, rename by rename ----

  function RenameOne(text: string, rename: Rename): string {
    if Names(text, rename) then rename.to + text[|rename.from|..] else text
  }

  function RenameText(text: string, renames: seq<Rename>): string
    decreases renames
  {
    if renames == [] then text else RenameText(RenameOne(text, renames[0]), renames[1..])
  }

  lemma RenamedMatches(text: string, rename: Rename)
    requires Names(text, rename)
    ensures Matches(RenameOne(text, rename), rename.to)
  {
    MatchesIff(text, rename.from);
    SwapMatches(Piece(' ', text), rename);
  }

  lemma {:induction false} TextStays(text: string, renames: seq<Rename>)
    requires forall i :: 0 <= i < |renames| ==> !Names(text, renames[i])
    ensures RenameText(text, renames) == text
    decreases renames
  {
    if renames != [] {
      TextStays(text, renames[1..]);
    }
  }

  lemma NamesOne(text: string, x: Rename, y: Rename)
    requires Names(text, x) && Separate(x.from, y.from)
    ensures !Names(text, y)
  {
    MatchesIff(text, x.from);
    MatchesIff(text, y.from);
    MatchesOne(text, x.from, y.from);
  }

  lemma TargetNoName(text: string, x: Rename, y: Rename)
    requires Names(text, x) && Separate(x.to, y.from)
    ensures !Names(RenameOne(text, x), y)
  {
    RenamedMatches(text, x);
    MatchesIff(RenameOne(text, x), y.from);
    MatchesOne(RenameOne(text, x), x.to, y.from);
  }

  lemma {:induction false} NameReplaced(text: string, renames: seq<Rename>, i: nat)
    requires WellFormed(renames) && i < |renames| && Names(text, renames[i])
    ensures RenameText(text, renames) == RenameOne(text, renames[i])
    decreases renames
  {
    if i == 0 {
      forall j | 0 <= j < |renames[1..]|
        ensures !Names(RenameOne(text, renames[0]), renames[1..][j])
      {
        SeparateFrom(renames, j + 1, 0);
        TargetNoName(text, renames[0], renames[j + 1]);
      }
      TextStays(RenameOne(text, renames[0]), renames[1..]);
    } else {
      SeparateFrom(renames, 0, i);
      NamesOne(text, renames[i], renames[0]);
      TailWellFormed(renames);
      NameReplaced(text, renames[1..], i - 1);
    }
  }

  lemma TextIsRenamed(text: string, renames: seq<Rename>)
    requires WellFormed(renames)
    ensures TextRenamed(text, RenameText(text, renames), renames)
  {
    forall i | 0 <= i < |renames| && Names(text, renames[i])
      ensures RenameText(text, renames) == renames[i].to + text[|renames[i].from|..]
    {
      NameReplaced(text, renames, i);
    }
    if forall i :: 0 <= i < |renames| ==> !Names(text, renames[i]) {
      TextStays(text, renames);
    }
  }

  function PiecesOf(tokens: seq<Token>): seq<Piece> {
    if tokens == [] then []
    else [Piece(tokens[0].quote, tokens[0].text), Piece(tokens[0].quote, tokens[0].gap)] + PiecesOf(tokens[1..])
  }

  lemma {:induction false} WrittenPieces(tokens: seq<Token>)
    ensures Written(tokens) == JoinPieces(PiecesOf(tokens))
  {
    if tokens != [] {
      WrittenPieces(tokens[1..]);
      JoinTwo(Piece(tokens[0].quote, tokens[0].text), Piece(tokens[0].quote, tokens[0].gap), PiecesOf(tokens[1..]));
    }
  }

  function RenameTokens(tokens: seq<Token>, renames: seq<Rename>): (after: seq<Token>)
    ensures |after| == |tokens|
  {
    if tokens == [] then []
    else [tokens[0].(text := RenameText(tokens[0].text, renames))] + RenameTokens(tokens[1..], renames)
  }

  lemma {:induction false} RenameTokensAt(tokens: seq<Token>, renames: seq<Rename>, k: nat)
    requires k < |tokens|
    ensures RenameTokens(tokens, renames)[k] == tokens[k].(text := RenameText(tokens[k].text, renames))
  {
    if k > 0 {
      RenameTokensAt(tokens[1..], renames, k - 1);
    }
  }

  ghost predicate GapsUnnamed(tokens: seq<Token>, rename: Rename) {
    forall k :: 0 <= k < |tokens| ==> !Names(tokens[k].gap, rename)
  }

  /** The first two pieces are a text between its quotes, and a gap that is no name. */
  lemma PairRewritten(token: Token, rest: seq<Piece>, rename: Rename)
    requires !Names(token.gap, rename)
    ensures RewritePieces([Piece(token.quote, token.text), Piece(token.quote, token.gap)] + rest, rename)
            == [Piece(token.quote, RenameOne(token.text, rename)), Piece(token.quote, token.gap)]
               + RewritePieces(rest, rename)
  {
    var a, b := Piece(token.quote, token.text), Piece(token.quote, token.gap);
    MatchesIff(token.text, rename.from);
    MatchesIff(token.gap, rename.from);
    var pieces := [a, b] + rest;
    assert pieces[1..] == [b] + rest && pieces[2..] == rest && ([b] + rest)[1..] == rest;
    if !Names(token.text, rename) {
      assert RewritePieces([b] + rest, rename) == [b] + RewritePieces(rest, rename);
      assert [a] + ([b] + RewritePieces(rest, rename)) == [a, b] + RewritePieces(rest, rename);
    }
  }

  lemma {:induction false} OnceRenamed(tokens: seq<Token>, rename: Rename)
    requires GapsUnnamed(tokens, rename)
    ensures RewritePieces(PiecesOf(tokens), rename) == PiecesOf(RenameTokens(tokens, [rename]))
  {
    if tokens != [] {
      var first, rest := tokens[0], tokens[1..];
      OnceRenamed(rest, rename);
      PairRewritten(first, PiecesOf(rest), rename);
      assert [rename][1..] == [];
      assert RenameText(first.text, [rename]) == RenameOne(first.text, rename);
    }
  }

  lemma {:induction false} RenamedInTurn(tokens: seq<Token>, renames: seq<Rename>)
    requires renames != []
    ensures RenameTokens(RenameTokens(tokens, [renames[0]]), renames[1..]) == RenameTokens(tokens, renames)
  {
    if tokens != [] {
      RenamedInTurn(tokens[1..], renames);
      assert [renames[0]][1..] == [];
      assert RenameText(tokens[0].text, [renames[0]]) == RenameOne(tokens[0].text, renames[0]);
    }
  }

  lemma {:induction false} NoRenames(tokens: seq<Token>)
    ensures RenameTokens(tokens, []) == tokens
  {
    if tokens != [] {
      NoRenames(tokens[1..]);
    }
  }

  lemma {:induction false} AllRenamed(tokens: seq<Token>, renames: seq<Rename>)
    requires forall i :: 0 <= i < |renames| ==> GapsUnnamed(tokens, renames[i])
    ensures RewriteAll(PiecesOf(tokens), renames) == PiecesOf(RenameTokens(tokens, renames))
    decreases renames
  {
    if renames == [] {
      NoRenames(tokens);
    } else {
      var once := RenameTokens(tokens, [renames[0]]);
      OnceRenamed(tokens, renames[0]);
      forall i | 0 <= i < |renames[1..]|
        ensures GapsUnnamed(once, renames[1..][i])
      {
        GapsKept(tokens, [renames[0]], renames[i + 1]);
      }
      AllRenamed(once, renames[1..]);
      RenamedInTurn(tokens, renames);
    }
  }

  lemma GapsKept(tokens: seq<Token>, renames: seq<Rename>, rename: Rename)
    requires GapsUnnamed(tokens, rename)
    ensures GapsUnnamed(RenameTokens(tokens, renames), rename)
  {
    forall k | 0 <= k < |tokens|
      ensures !Names(RenameTokens(tokens, renames)[k].gap, rename)
    {
      RenameTokensAt(tokens, renames, k);
    }
  }

  /** On a line of quoted texts whose gaps are no names, every text is renamed by itself. */
  lemma LineOfTokens(pre: string, tokens: seq<Token>, file: File, renames: seq<Rename>) returns (after: seq<Token>)
    requires !file.markdown && WellFormed(renames) && tokens != []
    requires Plain(pre) && NoScalar(pre, renames) && AllPlain(tokens, renames)
    ensures |after| == |tokens| && forall k :: 0 <= k < |tokens| ==> Renamed(tokens[k], after[k], renames)
    ensures RewriteText(pre + Written(tokens), file, renames) == pre + Written(after)
  {
    after := RenameTokens(tokens, renames);
    LineOfPieces(pre, tokens, file, renames);
    forall i | 0 <= i < |renames|
      ensures GapsUnnamed(tokens, renames[i])
    {
      PlainGaps(tokens, renames, i);
    }
    AllRenamed(tokens, renames);
    WrittenPieces(after);
    forall k | 0 <= k < |tokens|
      ensures Renamed(tokens[k], after[k], renames)
    {
      RenameTokensAt(tokens, renames, k);
      TextIsRenamed(tokens[k].text, renames);
    }
  }

  lemma PlainGaps(tokens: seq<Token>, renames: seq<Rename>, i: nat)
    requires AllPlain(tokens, renames) && i < |renames|
    ensures GapsUnnamed(tokens, renames[i])
  {
    forall k | 0 <= k < |tokens|
      ensures !Names(tokens[k].gap, renames[i])
    {
      assert PlainToken(tokens[k], renames);
    }
  }

  lemma LineOfPieces(pre: string, tokens: seq<Token>, file: File, renames: seq<Rename>)
    requires !file.markdown && WellFormed(renames) && tokens != []
    requires Plain(pre) && NoScalar(pre, renames) && AllPlain(tokens, renames)
    ensures RewriteText(pre + Written(tokens), file, renames) == pre + JoinPieces(RewriteAll(PiecesOf(tokens), renames))
  {
    WrittenPieces(tokens);
    PlainText(pre);
    PlainPieces(tokens, renames);
    PlainLine(pre, tokens, renames);
    LineAlone(pre + Written(tokens), file, renames);
    LineOnCut(pre, PiecesOf(tokens), renames);
    HeadKept(pre, renames);
  }

  lemma {:induction false} PlainPieces(tokens: seq<Token>, renames: seq<Rename>)
    requires AllPlain(tokens, renames)
    ensures ValidPieces(PiecesOf(tokens))
  {
    if tokens != [] {
      PlainRest(tokens, renames);
      PlainPieces(tokens[1..], renames);
      PlainText(tokens[0].text);
      PlainText(tokens[0].gap);
      QuotesListed(tokens[0].quote);
    }
  }

  lemma PlainRest(tokens: seq<Token>, renames: seq<Rename>)
    requires AllPlain(tokens, renames) && tokens != []
    ensures PlainToken(tokens[0], renames) && AllPlain(tokens[1..], renames)
  {
    forall k | 0 <= k < |tokens[1..]|
      ensures PlainToken(tokens[1..][k], renames)
    {
      assert tokens[1..][k] == tokens[k + 1];
    }
  }

  lemma {:induction false} PlainLine(pre: string, tokens: seq<Token>, renames: seq<Rename>)
    requires Plain(pre) && AllPlain(tokens, renames)
    ensures OneSegment(pre + Written(tokens)) && Lacks(pre + Written(tokens), '\n')
    decreases |tokens|
  {
    PlainText(pre);
    if tokens != [] {
      PlainRest(tokens, renames);
      PlainLine([], tokens[1..], renames);
      PlainText(tokens[0].text);
      PlainText(tokens[0].gap);
      assert [] + Written(tokens[1..]) == Written(tokens[1..]);
    }
  }

  // ---- The shipped names ----

  /** The shipped table does so for each of its names, in any of the three quotes. */
  lemma ShippedTokenRewritten(pre: string, q: char, tail: string, post: string, file: File, i: nat)
    requires !file.markdown && i < |RENAMES|
    requires Plain(pre) && Plain(tail) && Plain(post) && NoScalar(pre, RENAMES)
    requires q in ['\'', '"', '`'] && IsSubpath(tail)
    ensures RewriteText(pre + [q] + (RENAMES[i].from + tail) + [q] + post, file, RENAMES)
            == pre + [q] + (RENAMES[i].to + tail) + [q] + post
  {
    RenamesWellFormed();
    TokenRewritten(pre, q, tail, post, file, RENAMES, i);
  }

  lemma QuotedAlone(q: char, name: string)
    ensures [] + [q] + (name + []) + [q] + [] == [q] + name + [q]
  {
    assert name + [] == name;
  }

  /** A name in double quotes, as a manifest has it, is rewritten. */
  lemma ManifestNameRewritten(file: File, i: nat)
    requires !file.markdown && i < |RENAMES|
    ensures RewriteText(['"'] + RENAMES[i].from + ['"'], file, RENAMES) == ['"'] + RENAMES[i].to + ['"']
  {
    ShippedTokenRewritten([], '"', [], [], file, i);
    QuotedAlone('"', RENAMES[i].from);
    QuotedAlone('"', RENAMES[i].to);
  }
}
