/** When the token rewrite of one line, over the whole rename table, is idempotent,
    and when the reverse table undoes it. */
module RescopeLaws {
  import opened Text
  import opened RescopePieces

  // ---- The rename table ----

  /** No text is a token of both names. */
  predicate Separate(x: string, y: string) {
    x != y && !(x + "/" <= y) && !(y + "/" <= x)
  }

  /** A name without quotes, white space, or `#`. */
  predicate Clean(name: string) {
    name != [] && forall c :: c in name ==> !IsQuote(c) && !IsSpace(c) && c != '#'
  }

  ghost predicate WellFormed(renames: seq<Rename>) {
    && (forall i :: 0 <= i < |renames| ==> Clean(renames[i].from) && Clean(renames[i].to))
    && (forall i, j :: 0 <= i < j < |renames| ==>
          Separate(renames[i].from, renames[j].from) && Separate(renames[i].to, renames[j].to))
    && (forall i, j :: 0 <= i < |renames| && 0 <= j < |renames| ==> Separate(renames[i].from, renames[j].to))
  }

  /** The table as `--reverse` uses it. */
  function Reversed(renames: seq<Rename>): seq<Rename> {
    seq(|renames|, i requires 0 <= i < |renames| => Rename(renames[i].to, renames[i].from))
  }

  lemma ReversedWellFormed(renames: seq<Rename>)
    requires WellFormed(renames)
    ensures WellFormed(Reversed(renames))
  {
  }

  lemma MatchPrefix(text: string, name: string)
    requires Matches(text, name)
    ensures |name| <= |text| && text[..|name|] == name && (|name| < |text| ==> text[|name|] == '/')
  {
    if text != name {
      assert (name + "/")[|name|] == '/';
    }
  }

  lemma MatchesBoth(text: string, x: string, y: string)
    requires Matches(text, x) && Matches(text, y)
    ensures !Separate(x, y)
  {
    MatchPrefix(text, x);
    MatchPrefix(text, y);
    if |x| < |y| {
      assert x + "/" == text[..|x| + 1] == y[..|x| + 1];
    } else if |y| < |x| {
      assert y + "/" == text[..|y| + 1] == x[..|y| + 1];
    }
  }

  lemma MatchesOne(text: string, x: string, y: string)
    requires Separate(x, y) && Matches(text, x)
    ensures !Matches(text, y)
  {
    if Matches(text, y) {
      MatchesBoth(text, x, y);
    }
  }

  lemma SwapMatches(piece: Piece, rename: Rename)
    requires Matches(piece.text, rename.from)
    ensures Matches(Swap(piece, rename).text, rename.to)
    ensures Swap(Swap(piece, rename), Rename(rename.to, rename.from)) == piece
  {
    var rest := piece.text[|rename.from|..];
    var text := rename.to + rest;
    assert text[|rename.to|..] == rest;
    assert rename.from + rest == piece.text;
    if rest != [] {
      assert (rename.from + "/")[|rename.from|] == '/';
      assert rest[0] == '/';
      assert rename.to + "/" <= text;
      assert text[|rename.to| + 1..] == rest[1..] == piece.text[|rename.from| + 1..];
    }
  }

  // ---- The passes of all renames, one after the other ----

  function RewriteAll(pieces: seq<Piece>, renames: seq<Rename>): seq<Piece>
    decreases renames
  {
    if renames == [] then pieces else RewriteAll(RewritePieces(pieces, renames[0]), renames[1..])
  }

  lemma {:induction false} SelectedSame(a: seq<Piece>, b: seq<Piece>, name: string, k: nat)
    requires forall j :: 0 <= j <= k ==> Candidate(a, name, j) == Candidate(b, name, j)
    ensures Selected(a, name, k) == Selected(b, name, k)
  {
    if k > 0 {
      SelectedSame(a, b, name, k - 1);
    }
  }

  /** `after` is `pieces` with the selected tokens of the table replaced. */
  ghost predicate Replaced(pieces: seq<Piece>, renames: seq<Rename>, after: seq<Piece>) {
    && |after| == |pieces|
    && (forall i, k :: 0 <= i < |renames| && 0 <= k < |pieces| && Selected(pieces, renames[i].from, k) ==>
          after[k] == Swap(pieces[k], renames[i]))
    && (forall k :: 0 <= k < |pieces| && (forall i :: 0 <= i < |renames| ==> !Selected(pieces, renames[i].from, k)) ==>
          after[k] == pieces[k])
  }

  lemma QuotesKept(pieces: seq<Piece>, rename: Rename, name: string, k: nat)
    requires Separate(name, rename.from) && Separate(name, rename.to)
    ensures Candidate(RewritePieces(pieces, rename), name, k) == Candidate(pieces, name, k)
  {
    RewriteLength(pieces, rename);
    if k + 1 < |pieces| {
      RewritesSelected(pieces, rename, k);
      RewritesSelected(pieces, rename, k + 1);
      if Selected(pieces, rename.from, k) {
        SwapMatches(pieces[k], rename);
        MatchesOne(pieces[k].text, rename.from, name);
        MatchesOne(Swap(pieces[k], rename).text, rename.to, name);
      }
    }
  }

  lemma OtherSelectionKept(pieces: seq<Piece>, rename: Rename, name: string, k: nat)
    requires Separate(name, rename.from) && Separate(name, rename.to)
    ensures Selected(RewritePieces(pieces, rename), name, k) == Selected(pieces, name, k)
  {
    forall j | 0 <= j <= k
      ensures Candidate(RewritePieces(pieces, rename), name, j) == Candidate(pieces, name, j)
    {
      QuotesKept(pieces, rename, name, j);
    }
    SelectedSame(RewritePieces(pieces, rename), pieces, name, k);
  }

  lemma TailWellFormed(renames: seq<Rename>)
    requires WellFormed(renames) && renames != []
    ensures WellFormed(renames[1..])
    ensures forall i :: 1 <= i < |renames| ==>
              Separate(renames[i].from, renames[0].from) && Separate(renames[i].from, renames[0].to)
  {
  }

  /** The passes together replace what each alone would select on the original line. */
  lemma {:induction false} RewriteAllReplaces(pieces: seq<Piece>, renames: seq<Rename>)
    requires WellFormed(renames)
    ensures Replaced(pieces, renames, RewriteAll(pieces, renames))
    decreases renames
  {
    if renames != [] {
      var first, rest := renames[0], renames[1..];
      var once, after := RewritePieces(pieces, first), RewriteAll(pieces, renames);
      RewriteLength(pieces, first);
      TailWellFormed(renames);
      RewriteAllReplaces(once, rest);
      forall k | 0 <= k < |pieces|
        ensures forall i :: 0 <= i < |renames| && Selected(pieces, renames[i].from, k) ==>
                  after[k] == Swap(pieces[k], renames[i])
        ensures (forall i :: 0 <= i < |renames| ==> !Selected(pieces, renames[i].from, k)) ==> after[k] == pieces[k]
      {
        ReplacedAt(pieces, renames, once, after, k);
      }
    }
  }

  lemma ReplacedAt(pieces: seq<Piece>, renames: seq<Rename>, once: seq<Piece>, after: seq<Piece>, k: nat)
    requires WellFormed(renames) && renames != [] && k < |pieces|
    requires once == RewritePieces(pieces, renames[0]) && |once| == |pieces|
    requires Replaced(once, renames[1..], after)
    ensures forall i :: 0 <= i < |renames| && Selected(pieces, renames[i].from, k) ==>
              after[k] == Swap(pieces[k], renames[i])
    ensures (forall i :: 0 <= i < |renames| ==> !Selected(pieces, renames[i].from, k)) ==> after[k] == pieces[k]
  {
    TailWellFormed(renames);
    RewritesSelected(pieces, renames[0], k);
    forall i | 1 <= i < |renames|
      ensures Selected(once, renames[1..][i - 1].from, k) == Selected(pieces, renames[i].from, k)
      ensures Selected(pieces, renames[0].from, k) ==> !Selected(pieces, renames[i].from, k)
    {
      OtherSelectionKept(pieces, renames[0], renames[i].from, k);
      if Selected(pieces, renames[0].from, k) {
        MatchesOne(pieces[k].text, renames[0].from, renames[i].from);
      }
    }
  }

  // ---- What the rewritten line holds ----

  lemma CandidatesAfter(pieces: seq<Piece>, renames: seq<Rename>, after: seq<Piece>, i: nat, k: nat)
    requires WellFormed(renames) && i < |renames| && Replaced(pieces, renames, after)
    ensures Candidate(after, renames[i].from, k) <==>
            Candidate(pieces, renames[i].from, k) && !Selected(pieces, renames[i].from, k)
    ensures Candidate(after, renames[i].to, k) <==>
            Candidate(pieces, renames[i].to, k) || Selected(pieces, renames[i].from, k)
  {
    if k + 1 < |pieces| {
      QuoteAfter(pieces, renames, after, k);
      QuoteAfter(pieces, renames, after, k + 1);
      if j :| 0 <= j < |renames| && Selected(pieces, renames[j].from, k) {
        SwapMatches(pieces[k], renames[j]);
        SeparateFrom(renames, i, j);
        MatchesOne(after[k].text, renames[j].to, renames[i].from);
        if j != i {
          MatchesOne(after[k].text, renames[j].to, renames[i].to);
          MatchesOne(pieces[k].text, renames[j].from, renames[i].from);
        }
        MatchesOne(pieces[k].text, renames[j].from, renames[i].to);
      }
    }
  }

  lemma SeparateFrom(renames: seq<Rename>, i: nat, j: nat)
    requires WellFormed(renames) && i < |renames| && j < |renames|
    ensures Separate(renames[j].to, renames[i].from) && Separate(renames[j].from, renames[i].to)
    ensures i != j ==> Separate(renames[j].to, renames[i].to) && Separate(renames[j].from, renames[i].from)
  {
  }

  lemma QuoteAfter(pieces: seq<Piece>, renames: seq<Rename>, after: seq<Piece>, k: nat)
    requires Replaced(pieces, renames, after) && k < |pieces|
    ensures after[k].quote == pieces[k].quote
  {
    if i :| 0 <= i < |renames| && Selected(pieces, renames[i].from, k) {
      assert after[k] == Swap(pieces[k], renames[i]);
    }
  }

  // ---- Idempotence ----

  /** Two tokens of one name share a quote. */
  ghost predicate SharesQuote(pieces: seq<Piece>, renames: seq<Rename>) {
    exists i: nat, k: nat :: i < |renames| && Candidate(pieces, renames[i].from, k)
      && Candidate(pieces, renames[i].from, k + 1)
  }

  ghost predicate AnyCandidate(pieces: seq<Piece>, renames: seq<Rename>) {
    exists i: nat, k: nat :: i < |renames| && Candidate(pieces, renames[i].from, k)
  }

  /** A first candidate is always selected. */
  lemma {:induction false} SomeSelected(pieces: seq<Piece>, name: string, k: nat) returns (j: nat)
    requires Candidate(pieces, name, k)
    ensures j <= k && Selected(pieces, name, j)
  {
    if Selected(pieces, name, k) {
      j := k;
    } else {
      j := k - 1;
    }
  }

  /** The rewrite leaves a line alone exactly when it has no token of the table. */
  lemma FixedIffNoCandidate(pieces: seq<Piece>, renames: seq<Rename>)
    requires WellFormed(renames)
    ensures RewriteAll(pieces, renames) == pieces <==> !AnyCandidate(pieces, renames)
  {
    RewriteAllReplaces(pieces, renames);
    var after := RewriteAll(pieces, renames);
    if i: nat, k: nat :| i < |renames| && Candidate(pieces, renames[i].from, k) {
      var j := SomeSelected(pieces, renames[i].from, k);
      SwapMatches(pieces[j], renames[i]);
      SeparateFrom(renames, i, i);
      MatchesOne(after[j].text, renames[i].to, renames[i].from);
      assert after[j] != pieces[j];
    } else {
      forall k | 0 <= k < |pieces|
        ensures after[k] == pieces[k]
      {}
    }
  }

  lemma SharingLeavesCandidates(pieces: seq<Piece>, renames: seq<Rename>, after: seq<Piece>)
    requires WellFormed(renames) && Replaced(pieces, renames, after) && SharesQuote(pieces, renames)
    ensures AnyCandidate(after, renames)
  {
    var i: nat, k: nat :| i < |renames| && Candidate(pieces, renames[i].from, k)
      && Candidate(pieces, renames[i].from, k + 1);
    CandidatesAfter(pieces, renames, after, i, k);
    CandidatesAfter(pieces, renames, after, i, k + 1);
    assert Candidate(after, renames[i].from, k) || Candidate(after, renames[i].from, k + 1);
  }

  lemma CandidatesLeftShare(pieces: seq<Piece>, renames: seq<Rename>, after: seq<Piece>)
    requires WellFormed(renames) && Replaced(pieces, renames, after) && AnyCandidate(after, renames)
    ensures SharesQuote(pieces, renames)
  {
    var i: nat, k: nat :| i < |renames| && Candidate(after, renames[i].from, k);
    CandidatesAfter(pieces, renames, after, i, k);
    var j := k - 1;
    assert Candidate(pieces, renames[i].from, j) && Candidate(pieces, renames[i].from, j + 1);
  }

  /** A second pass changes nothing exactly when no two tokens of one name share a quote. */
  lemma IdempotentIff(pieces: seq<Piece>, renames: seq<Rename>)
    requires WellFormed(renames)
    ensures RewriteAll(RewriteAll(pieces, renames), renames) == RewriteAll(pieces, renames) <==>
            !SharesQuote(pieces, renames)
  {
    var after := RewriteAll(pieces, renames);
    RewriteAllReplaces(pieces, renames);
    FixedIffNoCandidate(after, renames);
    if SharesQuote(pieces, renames) {
      SharingLeavesCandidates(pieces, renames, after);
    } else if AnyCandidate(after, renames) {
      CandidatesLeftShare(pieces, renames, after);
    }
  }

  // ---- Undo ----

  /** Every target-name token already on the line opens with the closing quote of a
      token of the same rename that the forward pass rewrites. */
  ghost predicate TargetsHidden(pieces: seq<Piece>, renames: seq<Rename>) {
    forall i: nat, k: nat :: i < |renames| && Candidate(pieces, renames[i].to, k) ==>
      k > 0 && Selected(pieces, renames[i].from, k - 1)
  }

  /** The reverse pass selects exactly what the forward pass rewrote. */
  ghost predicate ReverseSelectsSame(pieces: seq<Piece>, renames: seq<Rename>, after: seq<Piece>) {
    forall i: nat, k: nat :: i < |renames| ==>
      (Selected(after, renames[i].to, k) <==> Selected(pieces, renames[i].from, k))
  }

  lemma {:induction false} HiddenSelects(pieces: seq<Piece>, renames: seq<Rename>, after: seq<Piece>, i: nat, k: nat)
    requires WellFormed(renames) && i < |renames| && Replaced(pieces, renames, after)
    requires TargetsHidden(pieces, renames)
    ensures Selected(after, renames[i].to, k) <==> Selected(pieces, renames[i].from, k)
  {
    CandidatesAfter(pieces, renames, after, i, k);
    if k > 0 {
      HiddenSelects(pieces, renames, after, i, k - 1);
    }
    if Candidate(pieces, renames[i].to, k) {
      SeparateFrom(renames, i, i);
      MatchesOne(pieces[k].text, renames[i].to, renames[i].from);
    }
  }

  lemma SelectsSameHides(pieces: seq<Piece>, renames: seq<Rename>, after: seq<Piece>)
    requires WellFormed(renames) && Replaced(pieces, renames, after)
    requires ReverseSelectsSame(pieces, renames, after)
    ensures TargetsHidden(pieces, renames)
  {
    forall i: nat, k: nat | i < |renames| && Candidate(pieces, renames[i].to, k)
      ensures k > 0 && Selected(pieces, renames[i].from, k - 1)
    {
      CandidatesAfter(pieces, renames, after, i, k);
      SeparateFrom(renames, i, i);
      MatchesOne(pieces[k].text, renames[i].to, renames[i].from);
      assert !Selected(after, renames[i].to, k);
      assert k > 0 ==> (Selected(after, renames[i].to, k - 1) <==> Selected(pieces, renames[i].from, k - 1));
    }
  }

  /** The reverse table undoes the rewrite exactly when every target-name token on the
      line is hidden behind a rewritten one; in particular when there is none. */
  lemma UndoIff(pieces: seq<Piece>, renames: seq<Rename>)
    requires WellFormed(renames)
    ensures RewriteAll(RewriteAll(pieces, renames), Reversed(renames)) == pieces <==> TargetsHidden(pieces, renames)
  {
    var after := RewriteAll(pieces, renames);
    var back := RewriteAll(after, Reversed(renames));
    RewriteAllReplaces(pieces, renames);
    ReversedWellFormed(renames);
    RewriteAllReplaces(after, Reversed(renames));
    if TargetsHidden(pieces, renames) {
      forall k | 0 <= k < |pieces|
        ensures back[k] == pieces[k]
      {
        UndoneAt(pieces, renames, after, back, k);
      }
    } else {
      if ReverseSelectsSame(pieces, renames, after) {
        SelectsSameHides(pieces, renames, after);
      }
      var i: nat, k: nat :| i < |renames| && Selected(after, renames[i].to, k) != Selected(pieces, renames[i].from, k);
      NotUndoneAt(pieces, renames, after, back, i, k);
    }
  }

  lemma UndoneAt(pieces: seq<Piece>, renames: seq<Rename>, after: seq<Piece>, back: seq<Piece>, k: nat)
    requires WellFormed(renames) && TargetsHidden(pieces, renames) && k < |pieces|
    requires Replaced(pieces, renames, after) && Replaced(after, Reversed(renames), back)
    ensures back[k] == pieces[k]
  {
    forall i | 0 <= i < |renames|
      ensures Selected(after, Reversed(renames)[i].from, k) <==> Selected(pieces, renames[i].from, k)
    {
      HiddenSelects(pieces, renames, after, i, k);
    }
    if i :| 0 <= i < |renames| && Selected(pieces, renames[i].from, k) {
      SwapMatches(pieces[k], renames[i]);
      assert Selected(after, Reversed(renames)[i].from, k);
    }
  }

  lemma NotUndoneAt(pieces: seq<Piece>, renames: seq<Rename>, after: seq<Piece>, back: seq<Piece>, i: nat, k: nat)
    requires WellFormed(renames) && i < |renames|
    requires Replaced(pieces, renames, after) && Replaced(after, Reversed(renames), back)
    requires Selected(after, renames[i].to, k) != Selected(pieces, renames[i].from, k)
    ensures back != pieces
  {
    var r := Reversed(renames);
    assert r[i] == Rename(renames[i].to, renames[i].from);
    SeparateFrom(renames, i, i);
    if Selected(after, renames[i].to, k) {
      // Restored although it was never rewritten: the original held the target name.
      CandidatesAfter(pieces, renames, after, i, k);
      assert Candidate(pieces, renames[i].to, k);
      SwapMatches(after[k], r[i]);
      MatchesOne(back[k].text, renames[i].from, renames[i].to);
    } else {
      // Rewritten and not restored.
      SwapMatches(pieces[k], renames[i]);
      assert Matches(after[k].text, renames[i].to);
      forall j | 0 <= j < |renames| && Selected(after, r[j].from, k)
        ensures false
      {
        if j != i {
          SeparateFrom(renames, i, j);
          MatchesOne(after[k].text, renames[j].to, renames[i].to);
        }
      }
      assert back[k] == after[k];
      MatchesOne(after[k].text, renames[i].to, renames[i].from);
    }
  }
}
