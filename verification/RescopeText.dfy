/** `rewrite`: whole files, with Markdown fences, and the laws of the rescope on them. */
module RescopeText {
  import opened RescopePieces
  import opened RescopeLaws
  import opened RescopeLine
  import opened RescopeHead

  // ---- One line ----

  lemma OnceOnCut(head: string, pieces: seq<Piece>, rename: Rename)
    requires NoQuotes(head) && ValidPieces(pieces) && Clean(rename.from) && Clean(rename.to)
    ensures RewriteOnce(head + JoinPieces(pieces), rename)
            == RewriteHead(head, pieces == [], rename) + JoinPieces(RewritePieces(pieces, rename))
  {
    PlainCopied(head, JoinPieces(pieces), rename);
    TokensArePieces(pieces, rename);
    var after := RewritePieces(pieces, rename);
    RewriteKeepsValid(pieces, rename);
    RewriteLength(pieces, rename);
    JoinStartsAtQuote(after);
    YamlIsHead(head, JoinPieces(after), rename);
  }

  lemma HeadStaysPlain(head: string, last: bool, rename: Rename)
    requires NoQuotes(head) && Clean(rename.from) && Clean(rename.to)
    ensures NoQuotes(RewriteHead(head, last, rename))
  {
    if HeadMatches(head, last, rename.from) {
      HeadSwapMatches(head, last, rename);
    }
  }

  lemma {:induction false} LineOnCut(head: string, pieces: seq<Piece>, renames: seq<Rename>)
    requires NoQuotes(head) && ValidPieces(pieces) && WellFormed(renames)
    ensures RewriteLineSpec(head + JoinPieces(pieces), renames)
            == RewriteHeadAll(head, pieces == [], renames) + JoinPieces(RewriteAll(pieces, renames))
    ensures NoQuotes(RewriteHeadAll(head, pieces == [], renames)) && ValidPieces(RewriteAll(pieces, renames))
    ensures |RewriteAll(pieces, renames)| == |pieces|
    decreases renames
  {
    if renames != [] {
      var first := renames[0];
      NamesDiffer(renames, 0, 0);
      TailWellFormed(renames);
      OnceOnCut(head, pieces, first);
      HeadStaysPlain(head, pieces == [], first);
      RewriteKeepsValid(pieces, first);
      RewriteLength(pieces, first);
      LineOnCut(RewriteHead(head, pieces == [], first), RewritePieces(pieces, first), renames[1..]);
    }
  }

  /** The sequential passes over the characters are one simultaneous rewrite of the
      head and of the pieces. */
  lemma RewriteLineCut(line: string, renames: seq<Rename>)
    requires WellFormed(renames)
    ensures var cut := Cut(line);
            Cut(RewriteLineSpec(line, renames))
            == Line(RewriteHeadAll(cut.head, cut.pieces == [], renames), RewriteAll(cut.pieces, renames))
    ensures |RewriteAll(Cut(line).pieces, renames)| == |Cut(line).pieces|
  {
    CutJoins(line);
    var cut := Cut(line);
    LineOnCut(cut.head, cut.pieces, renames);
    JoinCuts(RewriteHeadAll(cut.head, cut.pieces == [], renames), RewriteAll(cut.pieces, renames));
  }

  lemma CutInjective(a: string, b: string)
    ensures a == b <==> Cut(a) == Cut(b)
  {
    CutJoins(a);
    CutJoins(b);
  }

  predicate Rewritten(line: string, renames: seq<Rename>) {
    RewriteLineSpec(line, renames) == line
  }

  /** No two tokens of one name on the line share a quote. */
  ghost predicate QuotesUnshared(line: string, renames: seq<Rename>) {
    !SharesQuote(Cut(line).pieces, renames)
  }

  /** No target name stands on the line, except where its opening quote is the closing
      quote of a token that the rewrite replaces by the same target. */
  ghost predicate TargetFree(line: string, renames: seq<Rename>) {
    TargetsHidden(Cut(line).pieces, renames) && !HeadHasTarget(Cut(line).head, Cut(line).pieces == [], renames)
  }

  lemma LineIdempotentIff(line: string, renames: seq<Rename>)
    requires WellFormed(renames)
    ensures Rewritten(RewriteLineSpec(line, renames), renames) <==> QuotesUnshared(line, renames)
  {
    var cut, once := Cut(line), RewriteLineSpec(line, renames);
    RewriteLineCut(line, renames);
    RewriteLineCut(once, renames);
    CutInjective(RewriteLineSpec(once, renames), once);
    IdempotentIff(cut.pieces, renames);
    HeadIdempotent(cut.head, cut.pieces == [], renames);
  }

  lemma LineUndoIff(line: string, renames: seq<Rename>)
    requires WellFormed(renames)
    ensures RewriteLineSpec(RewriteLineSpec(line, renames), Reversed(renames)) == line <==> TargetFree(line, renames)
  {
    var cut, once := Cut(line), RewriteLineSpec(line, renames);
    ReversedWellFormed(renames);
    RewriteLineCut(line, renames);
    RewriteLineCut(once, Reversed(renames));
    CutInjective(RewriteLineSpec(once, Reversed(renames)), line);
    UndoIff(cut.pieces, renames);
    HeadUndoIff(cut.head, cut.pieces == [], renames);
  }

  // ---- Fences ----

  /** `/^\s*```/`. */
  predicate IsFence(line: string) {
    "```" <= StripSpace(line)
  }

  predicate FenceCut(line: Line) {
    && StripSpace(line.head) == []
    && 3 <= |line.pieces|
    && line.pieces[0] == Piece('`', "") && line.pieces[1] == Piece('`', "") && line.pieces[2].quote == '`'
  }

  lemma FenceOnCut(line: string)
    ensures IsFence(line) <==> FenceCut(Cut(line))
  {
    CutJoins(line);
    var head, pieces := Cut(line).head, Cut(line).pieces;
    JoinStartsAtQuote(pieces);
    StripSpaceExtends(head, JoinPieces(pieces));
    if StripSpace(head) == [] {
      BlankHeadFence(line, pieces);
    } else {
      FilledHeadNoFence(line, head, JoinPieces(pieces));
    }
  }

  lemma BlankHeadFence(line: string, pieces: seq<Piece>)
    requires ValidPieces(pieces) && StripSpace(line) == [] + JoinPieces(pieces)
    ensures IsFence(line) <==> FenceCut(Line([], pieces))
  {
    BackticksOnPieces(pieces);
  }

  lemma FilledHeadNoFence(line: string, head: string, rest: string)
    requires (forall c :: c in head ==> !IsQuote(c)) && StripSpace(head) != []
    requires StripSpace(line) == StripSpace(head) + rest
    ensures !IsFence(line)
  {
    StripSpaceSuffix(head);
    assert StripSpace(line)[0] == StripSpace(head)[0];
    assert StripSpace(head)[0] in head;
  }

  lemma BackticksOnPieces(pieces: seq<Piece>)
    requires ValidPieces(pieces)
    ensures "```" <= JoinPieces(pieces) <==> FenceCut(Line([], pieces))
  {
    var j := JoinPieces(pieces);
    if pieces != [] {
      BacktickStep(pieces);
      if |pieces| > 1 {
        BacktickStep(pieces[1..]);
        JoinStartsAtQuote(pieces[1..]);
        JoinStartsAtQuote(pieces[2..]);
        assert pieces[1..][1..] == pieces[2..];
        assert pieces[1..][0] == pieces[1];
      } else {
        assert JoinPieces(pieces[1..]) == [];
      }
    }
  }

  /** A quote right after a piece's quote opens the next piece. */
  lemma BacktickStep(pieces: seq<Piece>)
    requires ValidPieces(pieces) && pieces != []
    ensures var j := JoinPieces(pieces);
            && j[0] == pieces[0].quote
            && (pieces[0].text == "" ==> j[1..] == JoinPieces(pieces[1..]))
            && (pieces[0].text != "" ==> 1 < |j| && !IsQuote(j[1]))
  {
    var j := JoinPieces(pieces);
    if pieces[0].text != "" {
      assert j[1] == pieces[0].text[0];
      assert pieces[0].text[0] in pieces[0].text;
    }
  }

  lemma PieceShapeKept(pieces: seq<Piece>, renames: seq<Rename>, k: nat)
    requires WellFormed(renames) && k < |pieces|
    ensures var after := RewriteAll(pieces, renames);
            |after| == |pieces| && after[k].quote == pieces[k].quote && (after[k].text == "" <==> pieces[k].text == "")
  {
    RewriteAllReplaces(pieces, renames);
    QuoteAfter(pieces, renames, RewriteAll(pieces, renames), k);
    if i :| 0 <= i < |renames| && Selected(pieces, renames[i].from, k) {
      NamesDiffer(renames, i, i);
      MatchPrefix(pieces[k].text, renames[i].from);
    }
  }

  lemma HeadShapeKept(head: string, last: bool, renames: seq<Rename>)
    requires WellFormed(renames)
    ensures StripSpace(RewriteHeadAll(head, last, renames)) == [] <==> StripSpace(head) == []
  {
    if i :| 0 <= i < |renames| && HeadMatches(head, last, renames[i].from) {
      NamesDiffer(renames, i, i);
      HeadReplaced(head, last, renames, i);
      HeadSwapMatches(head, last, renames[i]);
    } else {
      HeadUntouched(head, last, renames);
    }
  }

  /** The rewrite neither makes nor breaks a fence line. */
  lemma FencesKept(line: string, renames: seq<Rename>)
    requires WellFormed(renames)
    ensures IsFence(RewriteLineSpec(line, renames)) <==> IsFence(line)
  {
    FenceOnCut(line);
    FenceOnCut(RewriteLineSpec(line, renames));
    RewriteLineCut(line, renames);
    var cut := Cut(line);
    HeadShapeKept(cut.head, cut.pieces == [], renames);
    if 3 <= |cut.pieces| {
      PieceShapeKept(cut.pieces, renames, 0);
      PieceShapeKept(cut.pieces, renames, 1);
      PieceShapeKept(cut.pieces, renames, 2);
    }
  }
}
