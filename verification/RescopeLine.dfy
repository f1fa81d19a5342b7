/** `rewriteLine`: the two regular expressions of each rename, read as scanners over
    the characters of a line, and the same rewrite on the line cut at its quotes. */
module RescopeLine {
  import opened Options
  import opened Text
  import opened RescopePieces
  import opened RescopeLaws

  // ---- The token expression ----

  /** Length of the leading run of characters that are neither quotes nor white space. */
  function RunLength(s: string): nat {
    if s == [] || IsQuote(s[0]) || IsSpace(s[0]) then 0 else 1 + RunLength(s[1..])
  }

  /** Length of a token of `name` at the start of `s`: a quote, the name, an optional
      `/subpath`, and the same quote. */
  function TokenLength(s: string, name: string): Option<nat> {
    if s == [] || !IsQuote(s[0]) || !(name <= s[1..]) then None
    else
      var rest := s[1 + |name|..];
      var n := if rest != [] && rest[0] == '/' then 1 + RunLength(rest[1..]) else 0;
      if n < |rest| && rest[n] == s[0] then Some(1 + |name| + n + 1) else None
  }

  /** `out.replace(pattern.token, …)`. */
  function RewriteTokens(s: string, rename: Rename): string
    decreases |s|
  {
    if s == [] then []
    else
      match TokenLength(s, rename.from)
      case Some(n) => [s[0]] + rename.to + s[1 + |rename.from|..n] + RewriteTokens(s[n..], rename)
      case None => [s[0]] + RewriteTokens(s[1..], rename)
  }

  // ---- The YAML name expression ----

  predicate IsBlank(c: char) {
    c == ' ' || c == '\t'
  }

  function StripSpace(s: string): string {
    if s == [] || !IsSpace(s[0]) then s else StripSpace(s[1..])
  }

  function StripBlank(s: string): string {
    if s == [] || !IsBlank(s[0]) then s else StripBlank(s[1..])
  }

  function AfterDash(s: string): string {
    var t := StripSpace(s);
    if t != [] && t[0] == '-' then StripSpace(t[1..]) else t
  }

  /** What follows a leading `name:` key, of a list item or not, and its blanks. */
  function YamlRest(s: string): Option<string> {
    var t := AfterDash(s);
    if "name:" <= t && 5 < |t| && IsBlank(t[5]) then Some(StripBlank(t[5..])) else None
  }

  /** Only blanks, or a comment, up to the end of the line. */
  predicate SuffixOk(t: string) {
    var u := StripBlank(t);
    u == [] || u[0] == '#'
  }

  /** `out.replace(pattern.yamlName, …)`. */
  function RewriteYaml(s: string, rename: Rename): string {
    match YamlRest(s)
    case None => s
    case Some(rest) =>
      if rename.from <= rest && SuffixOk(rest[|rename.from|..]) && |rest| <= |s|
      then s[..|s| - |rest|] + rename.to + rest[|rename.from|..]
      else s
  }

  function RewriteOnce(s: string, rename: Rename): string {
    RewriteYaml(RewriteTokens(s, rename), rename)
  }

  function RewriteLineSpec(s: string, renames: seq<Rename>): string
    decreases renames
  {
    if renames == [] then s else RewriteLineSpec(RewriteOnce(s, renames[0]), renames[1..])
  }

  // ---- A line cut at its quotes ----

  datatype Line = Line(head: string, pieces: seq<Piece>)

  predicate NoQuotes(s: string) {
    forall c :: c in s ==> !IsQuote(c)
  }

  predicate ValidPieces(pieces: seq<Piece>) {
    forall k :: 0 <= k < |pieces| ==> IsQuote(pieces[k].quote) && NoQuotes(pieces[k].text)
  }

  function JoinPieces(pieces: seq<Piece>): string {
    if pieces == [] then [] else [pieces[0].quote] + pieces[0].text + JoinPieces(pieces[1..])
  }

  function Cut(s: string): Line {
    if s == [] then Line([], [])
    else
      var rest := Cut(s[1..]);
      if IsQuote(s[0]) then Line([], [Piece(s[0], rest.head)] + rest.pieces) else Line([s[0]] + rest.head, rest.pieces)
  }

  lemma {:induction false} CutJoins(s: string)
    ensures s == Cut(s).head + JoinPieces(Cut(s).pieces)
    ensures NoQuotes(Cut(s).head) && ValidPieces(Cut(s).pieces)
  {
    if s != [] {
      CutJoins(s[1..]);
      var rest := Cut(s[1..]);
      assert s == [s[0]] + s[1..];
      if IsQuote(s[0]) {
        assert Cut(s).pieces[1..] == rest.pieces;
      }
    }
  }

  lemma {:induction false} JoinCuts(head: string, pieces: seq<Piece>)
    requires NoQuotes(head) && ValidPieces(pieces)
    ensures Cut(head + JoinPieces(pieces)) == Line(head, pieces)
    decreases |pieces|, |head|
  {
    var s := head + JoinPieces(pieces);
    if head != [] {
      JoinCuts(head[1..], pieces);
      assert s[1..] == head[1..] + JoinPieces(pieces);
      assert head[0] in head;
      assert Cut(s).head == head;
    } else if pieces != [] {
      JoinCuts(pieces[0].text, pieces[1..]);
      assert s[1..] == pieces[0].text + JoinPieces(pieces[1..]);
      assert pieces == [pieces[0]] + pieces[1..];
    }
  }

  // ---- Scanning characters and rewriting pieces agree ----

  /** A string of nothing, or that goes on with a quote. */
  predicate AtQuote(r: string) {
    r == [] || IsQuote(r[0])
  }

  lemma {:induction false} PlainCopied(h: string, r: string, rename: Rename)
    requires NoQuotes(h)
    ensures RewriteTokens(h + r, rename) == h + RewriteTokens(r, rename)
  {
    if h == [] {
      assert h + r == r;
    } else {
      assert h[0] in h;
      assert (h + r)[1..] == h[1..] + r;
      PlainCopied(h[1..], r, rename);
    }
  }

  lemma {:induction false} RunStops(t: string, r: string)
    requires NoQuotes(t) && AtQuote(r)
    ensures RunLength(t + r) <= |t|
    ensures RunLength(t + r) == |t| <==> NoSpace(t)
    ensures RunLength(t + r) < |t| ==> IsSpace((t + r)[RunLength(t + r)])
  {
    if t == [] {
      assert t + r == r;
    } else {
      assert t[0] in t && (t + r)[0] == t[0];
      assert (t + r)[1..] == t[1..] + r;
      RunStops(t[1..], r);
      assert t == [t[0]] + t[1..];
    }
  }

  lemma NameWithinText(name: string, text: string, r: string)
    requires Clean(name) && NoQuotes(text) && AtQuote(r)
    ensures name <= text + r <==> name <= text
  {
    assert r != [] ==> (text + r)[|text|] == r[0];
  }

  lemma QuoteNotSpace(c: char)
    requires IsQuote(c)
    ensures !IsSpace(c) && !IsBlank(c) && c != '/' && c != '#' && c != '-'
  {
  }

  /** At a quote followed by `text` and then `r`, a token starts exactly when the text
      matches and the same quote follows, and it ends with that quote. */
  lemma TokenAtQuote(q: char, text: string, r: string, name: string)
    requires IsQuote(q) && NoQuotes(text) && AtQuote(r) && Clean(name)
    ensures TokenLength([q] + text + r, name) ==
            if Matches(text, name) && r != [] && r[0] == q then Some(|text| + 2) else None
  {
    var s := [q] + text + r;
    assert s[1..] == text + r && s[0] == q;
    NameWithinText(name, text, r);
    if name <= text {
      var tail := text[|name|..];
      assert text == name + tail;
      assert s[1 + |name|..] == tail + r;
      TailNoQuotes(name, tail);
      TokenTail(q, tail, r);
      CandidateTail(text, name, tail);
      TokenLengthTail(s, name, tail, r);
    } else {
      NoPrefixNoMatch(text, name);
    }
  }

  lemma TailNoQuotes(name: string, tail: string)
    requires NoQuotes(name + tail)
    ensures NoQuotes(tail)
  {
    assert forall c :: c in tail ==> c in name + tail;
  }

  lemma NoPrefixNoMatch(text: string, name: string)
    requires !(name <= text)
    ensures !Matches(text, name)
  {
    if Matches(text, name) {
      MatchPrefix(text, name);
    }
  }

  function TailLength(rest: string): nat {
    if rest != [] && rest[0] == '/' then 1 + RunLength(rest[1..]) else 0
  }

  lemma TokenLengthTail(s: string, name: string, tail: string, r: string)
    requires s != [] && IsQuote(s[0]) && name <= s[1..] && s[1 + |name|..] == tail + r
    ensures var rest := tail + r;
            var n := TailLength(rest);
            TokenLength(s, name) == if n < |rest| && rest[n] == s[0] then Some(1 + |name| + n + 1) else None
  {
  }

  /** A token starts at a piece's quote exactly when the piece is a candidate, and
      ends with the next piece's quote. */
  lemma TokenIsCandidate(pieces: seq<Piece>, name: string)
    requires ValidPieces(pieces) && pieces != [] && Clean(name)
    ensures TokenLength(JoinPieces(pieces), name) ==
            if Candidate(pieces, name, 0) then Some(|pieces[0].text| + 2) else None
  {
    JoinStartsAtQuote(pieces[1..]);
    TokenAtQuote(pieces[0].quote, pieces[0].text, JoinPieces(pieces[1..]), name);
  }

  lemma JoinStartsAtQuote(pieces: seq<Piece>)
    requires ValidPieces(pieces)
    ensures AtQuote(JoinPieces(pieces))
    ensures if pieces == [] then JoinPieces(pieces) == []
            else JoinPieces(pieces) != [] && JoinPieces(pieces)[0] == pieces[0].quote
  {
  }

  predicate TailMatches(tail: string) {
    tail == [] || (tail[0] == '/' && NoSpace(tail[1..]))
  }

  lemma CandidateTail(text: string, name: string, tail: string)
    requires text == name + tail
    ensures Matches(text, name) <==> TailMatches(tail)
  {
    if tail != [] {
      assert text[|name| + 1..] == tail[1..];
      assert text[..|name| + 1] == name + [tail[0]];
      assert (name + "/")[|name|] == '/';
    }
  }

  lemma TokenTail(q: char, tail: string, r: string)
    requires IsQuote(q) && NoQuotes(tail) && AtQuote(r)
    ensures var rest := tail + r;
            var n := TailLength(rest);
            && (n < |rest| && rest[n] == q <==> TailMatches(tail) && r != [] && r[0] == q)
            && (n < |rest| && rest[n] == q ==> n == |tail|)
  {
    var rest := tail + r;
    QuoteNotSpace(q);
    if tail != [] && tail[0] == '/' {
      assert rest[1..] == tail[1..] + r;
      TailNoQuotes(tail[..1], tail[1..]);
      assert tail[..1] + tail[1..] == tail;
      RunStops(tail[1..], r);
    } else if tail != [] {
      assert rest[0] == tail[0] && tail[0] in tail;
    }
  }

  lemma TokenReplaced(q: char, text: string, q': char, rest: string, rename: Rename)
    requires TokenLength([q] + text + [q'] + rest, rename.from) == Some(|text| + 2) && |rename.from| <= |text|
    ensures RewriteTokens([q] + text + [q'] + rest, rename)
            == [q] + rename.to + text[|rename.from|..] + [q'] + RewriteTokens(rest, rename)
  {
    var s, n := [q] + text + [q'] + rest, |text| + 2;
    assert s[n..] == rest;
    assert s[1 + |rename.from|..n] == text[|rename.from|..] + [q'];
  }

  lemma OtherCopied(q: char, text: string, r: string, rename: Rename)
    requires NoQuotes(text) && TokenLength([q] + text + r, rename.from).None?
    ensures RewriteTokens([q] + text + r, rename) == [q] + text + RewriteTokens(r, rename)
  {
    assert ([q] + text + r)[1..] == text + r;
    PlainCopied(text, r, rename);
  }

  lemma JoinOne(a: Piece, rest: seq<Piece>)
    ensures JoinPieces([a] + rest) == [a.quote] + a.text + JoinPieces(rest)
  {
    assert ([a] + rest)[1..] == rest;
  }

  lemma JoinTwo(a: Piece, b: Piece, rest: seq<Piece>)
    ensures JoinPieces([a, b] + rest) == [a.quote] + a.text + [b.quote] + b.text + JoinPieces(rest)
  {
    assert [a, b] + rest == [a] + ([b] + rest);
    JoinOne(a, [b] + rest);
    JoinOne(b, rest);
  }

  lemma TokenAndText(q: char, text: string, q': char, text': string, r: string, rename: Rename)
    requires TokenLength([q] + text + [q'] + text' + r, rename.from) == Some(|text| + 2)
    requires |rename.from| <= |text| && NoQuotes(text')
    ensures RewriteTokens([q] + text + [q'] + text' + r, rename)
            == [q] + (rename.to + text[|rename.from|..]) + [q'] + text' + RewriteTokens(r, rename)
  {
    Regroup([q] + text + [q'], text', r);
    TokenReplaced(q, text, q', text' + r, rename);
    PlainCopied(text', r, rename);
    Regroup([q], rename.to, text[|rename.from|..]);
    Regroup([q] + (rename.to + text[|rename.from|..]) + [q'], text', RewriteTokens(r, rename));
  }

  lemma CandidateStep(a: Piece, b: Piece, rest: seq<Piece>, rename: Rename)
    requires ValidPieces([a, b] + rest) && Clean(rename.from) && Candidate([a, b] + rest, rename.from, 0)
    ensures RewriteTokens(JoinPieces([a, b] + rest), rename)
            == JoinPieces([Swap(a, rename), b]) + RewriteTokens(JoinPieces(rest), rename)
  {
    CandidateFacts(a, b, rest, rename.from);
    TokenAndText(a.quote, a.text, b.quote, b.text, JoinPieces(rest), rename);
    JoinOnlyTwo(Swap(a, rename), b);
  }

  lemma JoinOnlyTwo(a: Piece, b: Piece)
    ensures JoinPieces([a, b]) == [a.quote] + a.text + [b.quote] + b.text
  {
    JoinTwo(a, b, []);
    assert [a, b] + [] == [a, b];
  }

  lemma CandidateFacts(a: Piece, b: Piece, rest: seq<Piece>, name: string)
    requires ValidPieces([a, b] + rest) && Clean(name) && Candidate([a, b] + rest, name, 0)
    ensures JoinPieces([a, b] + rest) == [a.quote] + a.text + [b.quote] + b.text + JoinPieces(rest)
    ensures TokenLength(JoinPieces([a, b] + rest), name) == Some(|a.text| + 2)
    ensures Matches(a.text, name) && |name| <= |a.text| && NoQuotes(b.text)
  {
    TokenIsCandidate([a, b] + rest, name);
    MatchPrefix(a.text, name);
    JoinTwo(a, b, rest);
    assert NoQuotes(([a, b] + rest)[1].text);
  }

  lemma OtherStep(a: Piece, rest: seq<Piece>, rename: Rename)
    requires ValidPieces([a] + rest) && Clean(rename.from) && !Candidate([a] + rest, rename.from, 0)
    ensures RewriteTokens(JoinPieces([a] + rest), rename) == JoinPieces([a]) + RewriteTokens(JoinPieces(rest), rename)
  {
    OtherFacts(a, rest, rename.from);
    OtherCopied(a.quote, a.text, JoinPieces(rest), rename);
    JoinOnlyOne(a);
  }

  lemma OtherFacts(a: Piece, rest: seq<Piece>, name: string)
    requires ValidPieces([a] + rest) && Clean(name) && !Candidate([a] + rest, name, 0)
    ensures JoinPieces([a] + rest) == [a.quote] + a.text + JoinPieces(rest)
    ensures TokenLength(JoinPieces([a] + rest), name).None? && NoQuotes(a.text)
  {
    TokenIsCandidate([a] + rest, name);
    JoinOne(a, rest);
    assert NoQuotes(([a] + rest)[0].text);
  }

  lemma JoinOnlyOne(a: Piece)
    ensures JoinPieces([a]) == [a.quote] + a.text
  {
    JoinOne(a, []);
    assert [a] + [] == [a];
  }

  lemma {:induction false} JoinAppend(a: seq<Piece>, b: seq<Piece>)
    ensures JoinPieces(a + b) == JoinPieces(a) + JoinPieces(b)
  {
    if a == [] {
      assert a + b == b;
    } else {
      assert (a + b)[1..] == a[1..] + b;
      JoinAppend(a[1..], b);
    }
  }

  /** The character scanner and the piece rewrite are the same function of a line. */
  lemma {:induction false} TokensArePieces(pieces: seq<Piece>, rename: Rename)
    requires ValidPieces(pieces) && Clean(rename.from)
    ensures RewriteTokens(JoinPieces(pieces), rename) == JoinPieces(RewritePieces(pieces, rename))
    decreases |pieces|
  {
    if pieces != [] {
      if Candidate(pieces, rename.from, 0) {
        TokensArePieces(pieces[2..], rename);
        assert pieces == [pieces[0], pieces[1]] + pieces[2..];
        CandidateStep(pieces[0], pieces[1], pieces[2..], rename);
        JoinAppend([Swap(pieces[0], rename), pieces[1]], RewritePieces(pieces[2..], rename));
      } else {
        TokensArePieces(pieces[1..], rename);
        assert pieces == [pieces[0]] + pieces[1..];
        OtherStep(pieces[0], pieces[1..], rename);
        JoinAppend([pieces[0]], RewritePieces(pieces[1..], rename));
      }
    }
  }

  lemma RewriteKeepsValid(pieces: seq<Piece>, rename: Rename)
    requires ValidPieces(pieces) && Clean(rename.to)
    ensures ValidPieces(RewritePieces(pieces, rename))
  {
    RewriteLength(pieces, rename);
    forall k | 0 <= k < |pieces|
      ensures IsQuote(RewritePieces(pieces, rename)[k].quote) && NoQuotes(RewritePieces(pieces, rename)[k].text)
    {
      RewritesSelected(pieces, rename, k);
    }
  }
}
