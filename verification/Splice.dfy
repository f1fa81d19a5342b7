/**
 * In-place splices of disjoint ranges, from the last range to the first
 * (scripts/project-doc-site.ts:187-191).
 *
 * Each splice cuts the text produced by the previous one, at offsets that were
 * measured in the source.  The result is the simultaneous substitution: every
 * kept piece is cut from the source itself.
 */
module Splice {
  import opened SortedLists

  datatype Replacement = Replacement(start: nat, end: nat, value: string)

  predicate Fits(r: Replacement, limit: nat) {
    r.start <= r.end <= limit
  }

  // The ranges run from right to left, inside source[..limit], without overlap.
  predicate Separated(edits: seq<Replacement>, limit: nat) {
    edits == [] || (Fits(edits[0], limit) && Separated(edits[1..], edits[0].start))
  }

  // The simultaneous substitution in source[..limit].
  function Substitute(source: string, edits: seq<Replacement>, limit: nat): string
    requires limit <= |source| && Separated(edits, limit)
  {
    if edits == [] then source[..limit]
    else
      var r := edits[0];
      Substitute(source, edits[1..], r.start) + r.value + source[r.end..limit]
  }

  function Spliced(text: string, r: Replacement): string
    requires Fits(r, |text|)
  {
    text[..r.start] + r.value + text[r.end..]
  }

  // ----- the sort -----

  function Insert(r: Replacement, sorted: seq<Replacement>): (out: seq<Replacement>)
    ensures multiset(out) == multiset(sorted) + multiset{r}
  {
    if sorted == [] || sorted[0].start <= r.start then [r] + sorted
    else
      assert sorted == [sorted[0]] + sorted[1..];
      [sorted[0]] + Insert(r, sorted[1..])
  }

  // The stable sort by descending start.
  function SortDescending(edits: seq<Replacement>): (out: seq<Replacement>)
    ensures multiset(out) == multiset(edits)
  {
    if edits == [] then []
    else
      assert edits == [edits[0]] + edits[1..];
      Insert(edits[0], SortDescending(edits[1..]))
  }

  predicate Descending(edits: seq<Replacement>) {
    forall i, j :: 0 <= i < j < |edits| ==> edits[j].start <= edits[i].start
  }

  lemma {:induction false} InsertDescends(r: Replacement, sorted: seq<Replacement>)
    requires Descending(sorted)
    ensures Descending(Insert(r, sorted))
  {
    if sorted != [] && r.start < sorted[0].start {
      InsertDescends(r, sorted[1..]);
      var rest := Insert(r, sorted[1..]);
      forall j | 0 <= j < |rest|
        ensures rest[j].start <= sorted[0].start
      {
        assert rest[j] in multiset(rest);
      }
    }
  }

  lemma {:induction false} SortDescends(edits: seq<Replacement>)
    ensures Descending(SortDescending(edits))
  {
    if edits != [] {
      SortDescends(edits[1..]);
      InsertDescends(edits[0], SortDescending(edits[1..]));
    }
  }

  predicate Nonempty(edits: seq<Replacement>) {
    forall i :: 0 <= i < |edits| ==> edits[i].start < edits[i].end
  }

  lemma {:induction false} SeparatedStarts(edits: seq<Replacement>, limit: nat)
    requires Separated(edits, limit)
    ensures forall i :: 0 <= i < |edits| ==> edits[i].end <= limit
    ensures Descending(edits)
  {
    if edits != [] {
      SeparatedStarts(edits[1..], edits[0].start);
    }
  }

  lemma {:induction false} StrictStarts(edits: seq<Replacement>, limit: nat)
    requires Separated(edits, limit) && Nonempty(edits)
    ensures forall i, j :: 0 <= i < j < |edits| ==> edits[j].start < edits[i].start
  {
    if edits != [] {
      SeparatedStarts(edits[1..], edits[0].start);
      StrictStarts(edits[1..], edits[0].start);
    }
  }

  // Whatever order the replacements are collected in, the sort puts disjoint
  // ranges in their one separated order.
  lemma SortSeparates(collected: seq<Replacement>, edits: seq<Replacement>, limit: nat)
    requires multiset(collected) == multiset(edits)
    requires Separated(edits, limit) && Nonempty(edits)
    ensures SortDescending(collected) == edits
  {
    var sorted := SortDescending(collected);
    SortDescends(collected);
    StrictStarts(edits, limit);
    DistinctDescend(sorted, edits);
    SortedListsEqual((a: Replacement, b: Replacement) => b.start < a.start, sorted, edits);
  }

  // A descending permutation of a list with distinct starts descends strictly.
  lemma DistinctDescend(sorted: seq<Replacement>, edits: seq<Replacement>)
    requires multiset(sorted) == multiset(edits) && Descending(sorted)
    requires forall i, j :: 0 <= i < j < |edits| ==> edits[j].start < edits[i].start
    ensures forall i, j :: 0 <= i < j < |sorted| ==> sorted[j].start < sorted[i].start
  {
    forall i, j | 0 <= i < j < |sorted|
      ensures sorted[j].start < sorted[i].start
    {
      var a, b := sorted[i], sorted[j];
      assert a in multiset(edits) && b in multiset(edits);
      if a == b {
        CountTwice(sorted, i, j);
        CountOnce(edits, a);
      } else {
        assert a in edits && b in edits;
      }
    }
  }

  lemma CountTwice(s: seq<Replacement>, i: nat, j: nat)
    requires i < j < |s| && s[i] == s[j]
    ensures multiset(s)[s[i]] >= 2
  {
    assert s == s[..i + 1] + s[i + 1..];
    assert s[i] in s[..i + 1] && s[j] in s[i + 1..];
  }

  lemma {:induction false} CountOnce(s: seq<Replacement>, r: Replacement)
    requires forall i, j :: 0 <= i < j < |s| ==> s[j].start < s[i].start
    ensures multiset(s)[r] <= 1
  {
    if s != [] {
      assert s == [s[0]] + s[1..];
      CountOnce(s[1..], r);
      if s[0] == r {
        assert r !in s[1..];
      }
    }
  }

  // ----- the loop -----

  lemma CutText(source: string, start: nat, end: nat, limit: nat, tail: string)
    requires start <= end <= limit <= |source|
    ensures (source[..limit] + tail)[..start] == source[..start]
    ensures (source[..limit] + tail)[end..] == source[end..limit] + tail
  {
  }

  lemma RegroupText(a: string, b: string, c: string, d: string)
    ensures a + b + c + d == a + (b + c + d)
    ensures a + b + (c + d) == a + (b + c + d)
  {
  }

  lemma SpliceStep(source: string, edits: seq<Replacement>, limit: nat, tail: string)
    requires limit <= |source| && Separated(edits, limit) && edits != []
    ensures Spliced(source[..limit] + tail, edits[0])
            == source[..edits[0].start] + (edits[0].value + source[edits[0].end..limit] + tail)
    ensures Substitute(source, edits, limit) + tail
            == Substitute(source, edits[1..], edits[0].start) + (edits[0].value + source[edits[0].end..limit] + tail)
  {
    var r := edits[0];
    CutText(source, r.start, r.end, limit, tail);
    RegroupText(source[..r.start], r.value, source[r.end..limit], tail);
    RegroupText(Substitute(source, edits[1..], r.start), r.value, source[r.end..limit], tail);
  }

  function Least(a: nat, b: nat): (m: nat)
    ensures m <= a && m <= b
  {
    if a < b then a else b
  }

  // Splicing disjoint ranges one by one, last first, is the simultaneous
  // substitution.  Slices past the end of the text stop at its end.
  method SpliceAll(source: string, edits: seq<Replacement>) returns (projected: string)
    ensures Separated(edits, |source|) ==> projected == Substitute(source, edits, |source|)
  {
    projected := source;
    ghost var limit: nat, tail: string := |source|, [];
    assert source == source[..limit] + tail;
    for i := 0 to |edits|
      invariant limit <= |source|
      invariant Separated(edits, |source|) ==>
                  && Separated(edits[i..], limit)
                  && projected == source[..limit] + tail
                  && Substitute(source, edits, |source|) == Substitute(source, edits[i..], limit) + tail
    {
      var r := edits[i];
      if Separated(edits, |source|) {
        SpliceStep(source, edits[i..], limit, tail);
        assert edits[i..][1..] == edits[i + 1..];
        tail := r.value + source[r.end..limit] + tail;
        limit := r.start;
      }
      projected := projected[..Least(r.start, |projected|)] + r.value + projected[Least(r.end, |projected|)..];
    }
  }

  // ----- what the substitution means, offset by offset -----

  // How far a source offset moves: the growth of every range that ends before it.
  function Shift(edits: seq<Replacement>, offset: nat): int {
    if edits == [] then 0
    else
      (if edits[0].end <= offset then |edits[0].value| - (edits[0].end - edits[0].start) else 0)
      + Shift(edits[1..], offset)
  }

  predicate Outside(edits: seq<Replacement>, offset: nat) {
    forall i :: 0 <= i < |edits| ==> offset < edits[i].start || edits[i].end <= offset
  }

  lemma {:induction false} ShiftPastAll(edits: seq<Replacement>, limit: nat, offset: nat)
    requires Separated(edits, limit) && limit <= offset
    ensures Shift(edits, offset) == Shift(edits, limit)
  {
    if edits != [] {
      ShiftPastAll(edits[1..], edits[0].start, offset);
      ShiftPastAll(edits[1..], edits[0].start, limit);
    }
  }

  lemma {:induction false} SubstituteLength(source: string, edits: seq<Replacement>, limit: nat)
    requires limit <= |source| && Separated(edits, limit)
    ensures |Substitute(source, edits, limit)| == limit + Shift(edits, limit)
  {
    if edits != [] {
      SubstituteLength(source, edits[1..], edits[0].start);
      ShiftPastAll(edits[1..], edits[0].start, limit);
    }
  }

  // A character outside every range is kept, moved by the growth before it.
  lemma {:induction false} OutsideKept(source: string, edits: seq<Replacement>, limit: nat, offset: nat)
    requires limit <= |source| && Separated(edits, limit)
    requires offset < limit && Outside(edits, offset)
    ensures 0 <= offset + Shift(edits, offset) < |Substitute(source, edits, limit)|
    ensures Substitute(source, edits, limit)[offset + Shift(edits, offset)] == source[offset]
  {
    if edits != [] {
      var r := edits[0];
      assert Outside(edits[1..], offset);
      if offset < r.start {
        OutsideKept(source, edits[1..], r.start, offset);
      } else {
        SubstituteLength(source, edits[1..], r.start);
        ShiftPastAll(edits[1..], r.start, offset);
      }
    }
  }

  lemma PrefixSlice(a: string, b: string, at: int, n: nat)
    requires 0 <= at <= at + n <= |a|
    ensures (a + b)[at..at + n] == a[at..at + n]
  {
  }

  // Every range holds exactly its replacement.
  lemma {:induction false} RangeReplaced(source: string, edits: seq<Replacement>, limit: nat, k: nat)
    requires limit <= |source| && Separated(edits, limit) && k < |edits|
    ensures var r := edits[k];
            var at := r.start + Shift(edits[k + 1..], r.start);
            && 0 <= at <= at + |r.value| <= |Substitute(source, edits, limit)|
            && Substitute(source, edits, limit)[at..at + |r.value|] == r.value
  {
    var r := edits[0];
    if k == 0 {
      SubstituteLength(source, edits[1..], r.start);
    } else {
      RangeReplaced(source, edits[1..], r.start, k - 1);
      var inner := Substitute(source, edits[1..], r.start);
      assert edits[1..][k - 1] == edits[k] && edits[1..][k..] == edits[k + 1..];
      PrefixSlice(inner, r.value + source[r.end..limit], edits[k].start + Shift(edits[k + 1..], edits[k].start),
                  |edits[k].value|);
      assert inner + (r.value + source[r.end..limit]) == Substitute(source, edits, limit);
    }
  }
}
