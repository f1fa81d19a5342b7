/** The lists of renames a run really uses: drawn from the table without repetition,
    sorted by the length of the name to replace, and sorted anew for `--reverse`. Any
    such list meets the laws' conditions, and its order makes no difference. */
module RescopeOrder {
  import opened Text
  import opened RescopePieces
  import opened RescopeLaws
  import opened RescopeLine
  import opened RescopeHead
  import opened RescopeText
  import opened RescopeSegments
  import opened RescopeFile

  ghost predicate NoRepeats(renames: seq<Rename>) {
    forall i, j :: 0 <= i < j < |renames| ==> renames[i] != renames[j]
  }

  ghost predicate DrawnFrom(part: seq<Rename>, all: seq<Rename>) {
    NoRepeats(part) && forall r :: r in part ==> r in all
  }

  ghost predicate SameRenames(a: seq<Rename>, b: seq<Rename>) {
    forall r :: r in a <==> r in b
  }

  lemma PartWellFormed(part: seq<Rename>, all: seq<Rename>)
    requires WellFormed(all) && DrawnFrom(part, all)
    ensures WellFormed(part)
  {
    forall i | 0 <= i < |part|
      ensures Clean(part[i].from) && Clean(part[i].to)
    {
      var k := IndexIn(part[i], all);
    }
    forall i, j | 0 <= i < |part| && 0 <= j < |part|
      ensures Separate(part[i].from, part[j].to)
      ensures i < j ==> Separate(part[i].from, part[j].from) && Separate(part[i].to, part[j].to)
    {
      var k, l := IndexIn(part[i], all), IndexIn(part[j], all);
      SeparateFrom(all, k, l);
      SeparateFrom(all, l, k);
    }
  }

  ghost function IndexIn(r: Rename, renames: seq<Rename>): (k: nat)
    requires r in renames
    ensures k < |renames| && renames[k] == r
  {
    var k :| 0 <= k < |renames| && renames[k] == r;
    k
  }

  // ---- The order of a list makes no difference ----

  lemma PieceInAnyOrder(pieces: seq<Piece>, a: seq<Rename>, b: seq<Rename>, k: nat)
    requires WellFormed(a) && WellFormed(b) && SameRenames(a, b) && k < |pieces|
    ensures |RewriteAll(pieces, a)| == |RewriteAll(pieces, b)| == |pieces|
    ensures RewriteAll(pieces, a)[k] == RewriteAll(pieces, b)[k]
  {
    RewriteAllReplaces(pieces, a);
    RewriteAllReplaces(pieces, b);
    if i :| 0 <= i < |a| && Selected(pieces, a[i].from, k) {
      var j := IndexIn(a[i], b);
      assert Selected(pieces, b[j].from, k);
    } else {
      forall j | 0 <= j < |b|
        ensures !Selected(pieces, b[j].from, k)
      {
        var i := IndexIn(b[j], a);
      }
    }
  }

  lemma PiecesInAnyOrder(pieces: seq<Piece>, a: seq<Rename>, b: seq<Rename>)
    requires WellFormed(a) && WellFormed(b) && SameRenames(a, b)
    ensures RewriteAll(pieces, a) == RewriteAll(pieces, b)
  {
    RewriteAllReplaces(pieces, a);
    RewriteAllReplaces(pieces, b);
    forall k | 0 <= k < |pieces|
      ensures RewriteAll(pieces, a)[k] == RewriteAll(pieces, b)[k]
    {
      PieceInAnyOrder(pieces, a, b, k);
    }
  }

  lemma HeadInAnyOrder(head: string, last: bool, a: seq<Rename>, b: seq<Rename>)
    requires WellFormed(a) && WellFormed(b) && SameRenames(a, b)
    ensures RewriteHeadAll(head, last, a) == RewriteHeadAll(head, last, b)
  {
    if i :| 0 <= i < |a| && HeadMatches(head, last, a[i].from) {
      HeadReplaced(head, last, a, i);
      HeadReplaced(head, last, b, IndexIn(a[i], b));
    } else {
      HeadUntouched(head, last, a);
      forall j | 0 <= j < |b|
        ensures !HeadMatches(head, last, b[j].from)
      {
        var i := IndexIn(b[j], a);
      }
      HeadUntouched(head, last, b);
    }
  }

  lemma SegmentInAnyOrder(segment: string, a: seq<Rename>, b: seq<Rename>)
    requires WellFormed(a) && WellFormed(b) && SameRenames(a, b)
    ensures RewriteLineSpec(segment, a) == RewriteLineSpec(segment, b)
  {
    var cut := Cut(segment);
    RewriteLineCut(segment, a);
    RewriteLineCut(segment, b);
    PiecesInAnyOrder(cut.pieces, a, b);
    HeadInAnyOrder(cut.head, cut.pieces == [], a, b);
    CutInjective(RewriteLineSpec(segment, a), RewriteLineSpec(segment, b));
  }

  lemma {:induction false} LineInAnyOrder(line: string, a: seq<Rename>, b: seq<Rename>)
    requires WellFormed(a) && WellFormed(b) && SameRenames(a, b)
    ensures RewriteWhole(line, a) == RewriteWhole(line, b)
    decreases |line|
  {
    if OneSegment(line) {
      WholeOfSegment(line, a);
      WholeOfSegment(line, b);
      SegmentInAnyOrder(line, a, b);
    } else {
      var first, t, rest := FirstSegment(line);
      WholeBySegments(first, t, rest, a);
      WholeBySegments(first, t, rest, b);
      SegmentInAnyOrder(first, a, b);
      LineInAnyOrder(rest, a, b);
    }
  }

  lemma {:induction false} LinesInAnyOrder(lines: seq<string>, file: File, insideFence: bool, a: seq<Rename>,
                                           b: seq<Rename>)
    requires WellFormed(a) && WellFormed(b) && SameRenames(a, b)
    ensures RewriteLines(lines, file, insideFence, a) == RewriteLines(lines, file, insideFence, b)
    decreases lines
  {
    if lines != [] {
      var fence := file.markdown && IsFence(lines[0]);
      LineInAnyOrder(lines[0], a, b);
      LinesInAnyOrder(lines[1..], file, if fence then !insideFence else insideFence, a, b);
    }
  }

  /** Two lists of the same renames rewrite every file alike. */
  lemma TextInAnyOrder(text: string, file: File, a: seq<Rename>, b: seq<Rename>)
    requires WellFormed(a) && WellFormed(b) && SameRenames(a, b)
    ensures RewriteText(text, file, a) == RewriteText(text, file, b)
  {
    LinesInAnyOrder(Split(text, '\n'), file, false, a, b);
  }

  /** A run and a `--reverse` run, each with its own order of the same renames: the
      file is restored exactly when no eligible line showed a target name. */
  lemma SortedRunsUndoIff(text: string, file: File, renames: seq<Rename>, back: seq<Rename>)
    requires WellFormed(renames) && NoRepeats(back) && SameRenames(back, Reversed(renames))
    ensures RewriteText(RewriteText(text, file, renames), file, back) == text <==>
              EligibleLines(Split(text, '\n'), file, false, line => AllTargetFree(line, renames))
  {
    ReversedWellFormed(renames);
    PartWellFormed(back, Reversed(renames));
    TextInAnyOrder(RewriteText(text, file, renames), file, back, Reversed(renames));
    FileUndoIff(text, file, renames);
  }

  /** Whatever a file's skips leave of the shipped table, in any order, the laws apply. */
  lemma ShippedListsWellFormed(renames: seq<Rename>)
    requires DrawnFrom(renames, RENAMES)
    ensures WellFormed(renames)
  {
    RenamesWellFormed();
    PartWellFormed(renames, RENAMES);
  }

  // ---- An input ----

  /** A line of two tokens that share a quote. */
  const SHARED_QUOTE := "'cordis'cordis'"

  lemma SharedQuoteCut()
    ensures Cut(SHARED_QUOTE) == Line([], [Piece('\'', "cordis"), Piece('\'', "cordis"), Piece('\'', [])])
  {
    var token, end := Piece('\'', "cordis"), Piece('\'', []);
    JoinTwo(token, token, [end]);
    assert [token, token] + [end] == [token, token, end];
    assert JoinPieces([end]) == "'";
    assert JoinPieces([token, token, end]) == SHARED_QUOTE;
    JoinCuts([], [token, token, end]);
    assert [] + SHARED_QUOTE == SHARED_QUOTE;
  }

  lemma SharedQuoteShared(renames: seq<Rename>)
    requires renames != [] && renames[0].from == "cordis"
    ensures !QuotesUnshared(SHARED_QUOTE, renames)
  {
    SharedQuoteCut();
    var pieces := Cut(SHARED_QUOTE).pieces;
    assert Candidate(pieces, renames[0].from, 0) && Candidate(pieces, renames[0].from, 0 + 1);
  }

  lemma SharedIsUnsettled(line: string, file: File, renames: seq<Rename>)
    requires !file.markdown && WellFormed(renames)
    requires OneSegment(line) && Lacks(line, '\n') && !QuotesUnshared(line, renames)
    ensures RewriteText(RewriteText(line, file, renames), file, renames) != RewriteText(line, file, renames)
  {
    SegmentAt(line, segment => QuotesUnshared(segment, renames));
    OneLine(line);
    FileIdempotentIff(line, file, renames);
    assert Split(line, '\n')[1..] == [];
  }

  lemma SharedQuotePlain()
    ensures OneSegment(SHARED_QUOTE) && Lacks(SHARED_QUOTE, '\n')
  {
  }

  /** The shipped table rewrites that line, and a second time: one run is not enough. */
  lemma SharedQuoteNotSettled(file: File)
    requires !file.markdown
    ensures var once := RewriteText(SHARED_QUOTE, file, RENAMES);
            RewriteText(once, file, RENAMES) != once
  {
    RenamesWellFormed();
    RenameShape(0);
    SharedQuoteShared(RENAMES);
    SharedQuotePlain();
    SharedIsUnsettled(SHARED_QUOTE, file, RENAMES);
  }

  lemma {:induction false} OneLine(s: string)
    requires Lacks(s, '\n')
    ensures Split(s, '\n') == [s]
  {
    if s != [] {
      OneLine(s[1..]);
      assert s == [s[0]] + s[1..];
    }
  }
}
