/** A sorted list is determined by its entries. */
module SortedLists {
  /** A list whose every earlier entry is related to every later one, by a relation
      that never goes both ways, is determined by its elements. */
  lemma {:induction false} SortedListsEqual<T(!new)>(before: (T, T) -> bool, a: seq<T>, b: seq<T>)
    requires forall x, y :: before(x, y) ==> !before(y, x)
    requires forall i, j :: 0 <= i < j < |a| ==> before(a[i], a[j])
    requires forall i, j :: 0 <= i < j < |b| ==> before(b[i], b[j])
    requires multiset(a) == multiset(b)
    ensures a == b
  {
    assert |multiset(a)| == |multiset(b)|;
    if a != [] {
      HeadsEqual(before, a, b);
      TailsPermute(a, b);
      SortedListsEqual(before, a[1..], b[1..]);
    }
  }

  lemma TailsPermute<T>(a: seq<T>, b: seq<T>)
    requires a != [] && b != [] && a[0] == b[0] && multiset(a) == multiset(b)
    ensures multiset(a[1..]) == multiset(b[1..])
  {
    assert a == [a[0]] + a[1..] && b == [b[0]] + b[1..];
    assert multiset(a[1..]) == multiset(a) - multiset{a[0]} == multiset(b) - multiset{b[0]} == multiset(b[1..]);
  }

  lemma HeadsEqual<T(!new)>(before: (T, T) -> bool, a: seq<T>, b: seq<T>)
    requires a != [] && b != []
    requires forall x, y :: before(x, y) ==> !before(y, x)
    requires forall i, j :: 0 <= i < j < |a| ==> before(a[i], a[j])
    requires forall i, j :: 0 <= i < j < |b| ==> before(b[i], b[j])
    requires multiset(a) == multiset(b)
    ensures a[0] == b[0]
  {
    assert a[0] in multiset(b) && b[0] in multiset(a);
    var j :| 0 <= j < |b| && b[j] == a[0];
    var i :| 0 <= i < |a| && a[i] == b[0];
    if 0 < i && 0 < j {
      assert before(a[0], a[i]) && before(b[0], b[j]);
    }
  }
}
