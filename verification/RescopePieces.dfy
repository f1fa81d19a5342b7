/** The token rewrite of the vendor rescope, on a line cut at its quotes.

    A line is a head followed by pieces, each a quote character and the text up to
    the next quote. A complete name token is a piece whose text is the name, or the
    name and a `/subpath` without white space, followed by a piece with the same
    quote. Rewriting one consumes both quotes. */
module RescopePieces {
  import opened Text

  datatype Rename = Rename(from: string, to: string)

  datatype Piece = Piece(quote: char, text: string)

  predicate IsQuote(c: char) {
    c == '\'' || c == '"' || c == '`'
  }

  predicate NoSpace(s: string) {
    forall c :: c in s ==> !IsSpace(c)
  }

  /** `name` or `name/subpath`. */
  predicate Matches(text: string, name: string) {
    text == name || (name + "/" <= text && NoSpace(text[|name| + 1..]))
  }

  predicate Candidate(pieces: seq<Piece>, name: string, k: nat) {
    k + 1 < |pieces| && pieces[k].quote == pieces[k + 1].quote && Matches(pieces[k].text, name)
  }

  function Swap(piece: Piece, rename: Rename): Piece
    requires Matches(piece.text, rename.from)
  {
    piece.(text := rename.to + piece.text[|rename.from|..])
  }

  /** One rename's global replacement, left to right. */
  function RewritePieces(pieces: seq<Piece>, rename: Rename): seq<Piece> {
    if pieces == [] then []
    else if Candidate(pieces, rename.from, 0) then
      [Swap(pieces[0], rename), pieces[1]] + RewritePieces(pieces[2..], rename)
    else [pieces[0]] + RewritePieces(pieces[1..], rename)
  }

  // ---- Which tokens a pass rewrites ----

  /** A token is rewritten unless its opening quote was consumed as the closing quote
      of the token before it. */
  predicate Selected(pieces: seq<Piece>, name: string, k: nat) {
    Candidate(pieces, name, k) && (k == 0 || !Selected(pieces, name, k - 1))
  }

  predicate SelectedFrom(pieces: seq<Piece>, name: string, k: nat, consumed: bool) {
    Candidate(pieces, name, k) && (if k == 0 then !consumed else !SelectedFrom(pieces, name, k - 1, consumed))
  }

  lemma {:induction false} SelectedShift(pieces: seq<Piece>, name: string, k: nat, consumed: bool)
    requires pieces != [] && k > 0
    ensures SelectedFrom(pieces, name, k, consumed)
            == SelectedFrom(pieces[1..], name, k - 1, SelectedFrom(pieces, name, 0, consumed))
  {
    if k > 1 {
      SelectedShift(pieces, name, k - 1, consumed);
    }
  }

  lemma {:induction false} RewritePiecesAt(pieces: seq<Piece>, rename: Rename, k: nat)
    requires k < |pieces|
    ensures |RewritePieces(pieces, rename)| == |pieces|
    ensures RewritePieces(pieces, rename)[k] ==
            if SelectedFrom(pieces, rename.from, k, false) then Swap(pieces[k], rename) else pieces[k]
    decreases |pieces|
  {
    if Candidate(pieces, rename.from, 0) {
      RewriteLength(pieces, rename);
      if k > 0 {
        SelectedShift(pieces, rename.from, k, false);
        if k > 1 {
          SelectedShift(pieces[1..], rename.from, k - 1, true);
          assert pieces[1..][1..] == pieces[2..];
          RewritePiecesAt(pieces[2..], rename, k - 2);
        }
      }
    } else {
      RewriteLength(pieces, rename);
      if k > 0 {
        SelectedShift(pieces, rename.from, k, false);
        RewritePiecesAt(pieces[1..], rename, k - 1);
      }
    }
  }

  lemma {:induction false} RewriteLength(pieces: seq<Piece>, rename: Rename)
    ensures |RewritePieces(pieces, rename)| == |pieces|
    decreases |pieces|
  {
    if pieces != [] {
      if Candidate(pieces, rename.from, 0) {
        RewriteLength(pieces[2..], rename);
      } else {
        RewriteLength(pieces[1..], rename);
      }
    }
  }

  lemma {:induction false} SelectedIsFrom(pieces: seq<Piece>, name: string, k: nat)
    ensures Selected(pieces, name, k) == SelectedFrom(pieces, name, k, false)
  {
    if k > 0 {
      SelectedIsFrom(pieces, name, k - 1);
    }
  }

  /** The pass replaces exactly the selected tokens and leaves everything else. */
  lemma RewritesSelected(pieces: seq<Piece>, rename: Rename, k: nat)
    requires k < |pieces|
    ensures |RewritePieces(pieces, rename)| == |pieces|
    ensures RewritePieces(pieces, rename)[k] ==
            if Selected(pieces, rename.from, k) then Swap(pieces[k], rename) else pieces[k]
  {
    RewritePiecesAt(pieces, rename, k);
    SelectedIsFrom(pieces, rename.from, k);
  }
}
