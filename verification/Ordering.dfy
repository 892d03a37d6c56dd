/** Sorted sequences, and sorting as the standard library provides it. */
module Ordering {

  /** A total preorder, as `Ord` gives one. */
  ghost predicate TotalPreorder<T(!new)>(leq: (T, T) -> bool) {
    && (forall x, y :: leq(x, y) || leq(y, x))
    && (forall x, y, z :: leq(x, y) && leq(y, z) ==> leq(x, z))
  }

  ghost predicate Sorted<T>(leq: (T, T) -> bool, s: seq<T>) {
    forall i, j :: 0 <= i < j < |s| ==> leq(s[i], s[j])
  }

  /** `x` comes before or with every member of `m`. */
  ghost predicate Least<T>(leq: (T, T) -> bool, x: T, m: multiset<T>) {
    forall y :: y in m ==> leq(x, y)
  }

  lemma SortedCons<T>(leq: (T, T) -> bool, x: T, s: seq<T>)
    requires Sorted(leq, s) && Least(leq, x, multiset(s))
    ensures Sorted(leq, [x] + s)
  {
    forall i, j | 0 <= i < j < |[x] + s| ensures leq(([x] + s)[i], ([x] + s)[j]) {
      if i == 0 { assert ([x] + s)[j] in multiset(s); }
    }
  }

  lemma SortedTail<T>(leq: (T, T) -> bool, s: seq<T>)
    requires Sorted(leq, s) && s != []
    ensures Sorted(leq, s[1..]) && Least(leq, s[0], multiset(s[1..]))
  {
    forall y | y in multiset(s[1..]) ensures leq(s[0], y) {
      assert y in s[1..];
      var j :| 0 <= j < |s[1..]| && s[1..][j] == y;
      assert s[1 + j] == y;
    }
  }

  lemma MultisetCons<T>(s: seq<T>)
    requires s != []
    ensures multiset(s) == multiset{s[0]} + multiset(s[1..])
  {
    assert s == [s[0]] + s[1..];
  }

  lemma MultisetRemove<T>(s: seq<T>, j: nat)
    requires j < |s|
    ensures multiset(s[..j] + s[j + 1..]) == multiset(s) - multiset{s[j]}
    ensures multiset(s) == multiset{s[j]} + multiset(s[..j] + s[j + 1..])
  {
    assert s == s[..j] + [s[j]] + s[j + 1..];
  }

  /** `s` with `x` put in front of the first element that is not smaller. */
  function Inserted<T>(leq: (T, T) -> bool, x: T, s: seq<T>): seq<T> {
    if s == [] || leq(x, s[0]) then [x] + s else [s[0]] + Inserted(leq, x, s[1..])
  }

  lemma {:induction false} InsertedMultiset<T>(leq: (T, T) -> bool, x: T, s: seq<T>)
    ensures multiset(Inserted(leq, x, s)) == multiset{x} + multiset(s)
  {
    if s != [] && !leq(x, s[0]) {
      InsertedMultiset(leq, x, s[1..]);
      MultisetCons(s);
    }
  }

  lemma {:induction false} InsertedSorted<T(!new)>(leq: (T, T) -> bool, x: T, s: seq<T>)
    requires TotalPreorder(leq) && Sorted(leq, s)
    ensures Sorted(leq, Inserted(leq, x, s))
  {
    if s == [] {
    } else if leq(x, s[0]) {
      SortedTail(leq, s);
      MultisetCons(s);
      SortedCons(leq, x, s);
    } else {
      SortedTail(leq, s);
      InsertedSorted(leq, x, s[1..]);
      InsertedMultiset(leq, x, s[1..]);
      SortedCons(leq, s[0], Inserted(leq, x, s[1..]));
    }
  }

  /** Stable sorting. */
  function SortOf<T>(leq: (T, T) -> bool, s: seq<T>): seq<T> {
    if s == [] then [] else Inserted(leq, s[0], SortOf(leq, s[1..]))
  }

  lemma {:induction false} SortOfCorrect<T(!new)>(leq: (T, T) -> bool, s: seq<T>)
    requires TotalPreorder(leq)
    ensures Sorted(leq, SortOf(leq, s)) && multiset(SortOf(leq, s)) == multiset(s)
  {
    if s != [] {
      SortOfCorrect(leq, s[1..]);
      InsertedSorted(leq, s[0], SortOf(leq, s[1..]));
      InsertedMultiset(leq, s[0], SortOf(leq, s[1..]));
      MultisetCons(s);
    }
  }
}
