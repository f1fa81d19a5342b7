/**
 * A text in pieces, some of them replaced.  The edits measured on the text turn
 * it into the text of the replaced pieces.
 */
module SplicePieces {
  import opened Text
  import opened Splice

  datatype Piece = Kept(text: string) | Changed(text: string, value: string)

  function TextOf(pieces: seq<Piece>): string {
    if pieces == [] then "" else TextOf(pieces[..|pieces| - 1]) + pieces[|pieces| - 1].text
  }

  function NewText(p: Piece): string {
    match p
    case Kept(text) => text
    case Changed(_, value) => value
  }

  function Replaced(pieces: seq<Piece>): string {
    if pieces == [] then "" else Replaced(pieces[..|pieces| - 1]) + NewText(pieces[|pieces| - 1])
  }

  function PieceEdits(p: Piece, offset: nat): seq<Replacement> {
    match p
    case Kept(_) => []
    case Changed(text, value) => [Replacement(offset, offset + |text|, value)]
  }

  // The replacements of a text that starts at an offset, last first.
  function EditsOf(pieces: seq<Piece>, offset: nat): seq<Replacement> {
    if pieces == [] then []
    else
      var front := pieces[..|pieces| - 1];
      PieceEdits(pieces[|pieces| - 1], offset + |TextOf(front)|) + EditsOf(front, offset)
  }

  lemma AppendDrop<T>(a: seq<T>, b: seq<T>)
    requires b != []
    ensures (a + b)[..|a + b| - 1] == a + b[..|b| - 1] && (a + b)[|a + b| - 1] == b[|b| - 1]
  {
  }

  lemma {:induction false} TextAppend(a: seq<Piece>, b: seq<Piece>)
    ensures TextOf(a + b) == TextOf(a) + TextOf(b)
    decreases |b|
  {
    if b == [] {
      assert a + b == a;
    } else {
      AppendDrop(a, b);
      TextAppend(a, b[..|b| - 1]);
      Regroup(TextOf(a), TextOf(b[..|b| - 1]), b[|b| - 1].text);
    }
  }

  lemma {:induction false} ReplacedAppend(a: seq<Piece>, b: seq<Piece>)
    ensures Replaced(a + b) == Replaced(a) + Replaced(b)
    decreases |b|
  {
    if b == [] {
      assert a + b == a;
    } else {
      AppendDrop(a, b);
      ReplacedAppend(a, b[..|b| - 1]);
      Regroup(Replaced(a), Replaced(b[..|b| - 1]), NewText(b[|b| - 1]));
    }
  }

  lemma {:induction false} EditsAppend(a: seq<Piece>, b: seq<Piece>, offset: nat)
    ensures EditsOf(a + b, offset) == EditsOf(b, offset + |TextOf(a)|) + EditsOf(a, offset)
    decreases |b|
  {
    if b == [] {
      assert a + b == a;
    } else {
      var front := b[..|b| - 1];
      AppendDrop(a, b);
      EditsAppend(a, front, offset);
      TextAppend(a, front);
    }
  }

  lemma EditsAppendAt(a: seq<Piece>, b: seq<Piece>, offset: nat, at: nat)
    requires at == offset + |TextOf(a)|
    ensures EditsOf(a + b, offset) == EditsOf(b, at) + EditsOf(a, offset)
  {
    EditsAppend(a, b, offset);
  }

  lemma One(p: Piece, offset: nat)
    ensures TextOf([p]) == p.text && Replaced([p]) == NewText(p) && EditsOf([p], offset) == PieceEdits(p, offset)
  {
    assert [p][..0] == [];
  }

  lemma SubstituteWider(source: string, edits: seq<Replacement>, narrow: nat, wide: nat)
    requires narrow <= wide <= |source| && Separated(edits, narrow)
    ensures Separated(edits, wide)
    ensures Substitute(source, edits, wide) == Substitute(source, edits, narrow) + source[narrow..wide]
  {
    if edits == [] {
      assert source[..wide] == source[..narrow] + source[narrow..wide];
    } else {
      var r := edits[0];
      var inner := Substitute(source, edits[1..], r.start) + r.value;
      assert source[r.end..wide] == source[r.end..narrow] + source[narrow..wide];
      assert inner + (source[r.end..narrow] + source[narrow..wide])
             == inner + source[r.end..narrow] + source[narrow..wide];
    }
  }

  // The edits of the pieces are disjoint, and substituting them replaces the pieces.
  lemma {:induction false} EditsReplace(source: string, pieces: seq<Piece>)
    requires TextOf(pieces) <= source
    ensures Separated(EditsOf(pieces, 0), |TextOf(pieces)|)
    ensures Substitute(source, EditsOf(pieces, 0), |TextOf(pieces)|) == Replaced(pieces)
    decreases |pieces|
  {
    if pieces != [] {
      var front, last := pieces[..|pieces| - 1], pieces[|pieces| - 1];
      var mid, to := |TextOf(front)|, |TextOf(pieces)|;
      assert source[mid..to] == last.text;
      EditsReplace(source, front);
      match last
      case Kept(_) =>
        SubstituteWider(source, EditsOf(front, 0), mid, to);
        assert EditsOf(pieces, 0) == EditsOf(front, 0);
      case Changed(text, value) =>
        var edits := EditsOf(pieces, 0);
        assert edits[0] == Replacement(mid, to, value) && edits[1..] == EditsOf(front, 0);
        assert source[to..to] == [];
    }
  }

  predicate ChangesText(pieces: seq<Piece>) {
    forall i :: 0 <= i < |pieces| && pieces[i].Changed? ==> pieces[i].text != []
  }

  lemma {:induction false} EditsNonempty(pieces: seq<Piece>, offset: nat)
    requires ChangesText(pieces)
    ensures Nonempty(EditsOf(pieces, offset))
    decreases |pieces|
  {
    if pieces != [] {
      EditsNonempty(pieces[..|pieces| - 1], offset);
    }
  }

  // The replacements of a list with their multiplicities.
  function Bag(edits: seq<Replacement>): multiset<Replacement> {
    if edits == [] then multiset{} else multiset{edits[0]} + Bag(edits[1..])
  }

  lemma {:induction false} BagAppend(a: seq<Replacement>, b: seq<Replacement>)
    ensures Bag(a + b) == Bag(a) + Bag(b)
  {
    if a == [] {
      assert a + b == b;
    } else {
      assert (a + b)[1..] == a[1..] + b;
      BagAppend(a[1..], b);
    }
  }

  lemma {:induction false} BagIsMultiset(edits: seq<Replacement>)
    ensures Bag(edits) == multiset(edits)
  {
    if edits != [] {
      BagIsMultiset(edits[1..]);
      assert edits == [edits[0]] + edits[1..];
    }
  }
}
