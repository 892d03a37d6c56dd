/** Merging sorted lists: what is left, and taking the least head. */
module Merging {
  import opened Wrappers
  import opened Ordering

  /** All items of the lists. */
  ghost function Union<T>(lists: seq<seq<T>>): multiset<T> {
    if lists == [] then multiset{} else multiset(lists[0]) + Union(lists[1..])
  }

  ghost predicate AllSorted<T>(leq: (T, T) -> bool, lists: seq<seq<T>>) {
    forall i :: 0 <= i < |lists| ==> Sorted(leq, lists[i])
  }

  lemma {:induction false} UnionRemove<T>(lists: seq<seq<T>>, i: nat)
    requires i < |lists|
    ensures Union(lists) == multiset(lists[i]) + Union(lists[..i] + lists[i + 1..])
  {
    if i == 0 {
      assert lists[..0] + lists[1..] == lists[1..];
    } else {
      UnionRemove(lists[1..], i - 1);
      assert (lists[..i] + lists[i + 1..])[1..] == lists[1..][..i - 1] + lists[1..][i..];
    }
  }

  /** Taking the head of one list takes it from the union. */
  lemma UnionTake<T>(lists: seq<seq<T>>, i: nat)
    requires i < |lists| && lists[i] != []
    ensures Union(lists) == multiset{lists[i][0]} + Union(lists[i := lists[i][1..]])
  {
    var after := lists[i := lists[i][1..]];
    UnionRemove(lists, i);
    UnionRemove(after, i);
    assert after[..i] + after[i + 1..] == lists[..i] + lists[i + 1..];
    MultisetCons(lists[i]);
  }

  lemma {:induction false} UnionAppend<T>(lists: seq<seq<T>>, list: seq<T>)
    ensures Union(lists + [list]) == Union(lists) + multiset(list)
  {
    if lists == [] {
      assert lists + [list] == [list];
      assert [list][1..] == [];
    } else {
      UnionAppend(lists[1..], list);
      assert (lists + [list])[1..] == lists[1..] + [list];
    }
  }

  lemma {:induction false} UnionMember<T>(lists: seq<seq<T>>, x: T)
    ensures x in Union(lists) <==> exists i :: 0 <= i < |lists| && x in lists[i]
  {
    if lists != [] {
      UnionMember(lists[1..], x);
      if x in lists[0] {
      } else if x in Union(lists) {
        var i :| 0 <= i < |lists[1..]| && x in lists[1..][i];
        assert x in lists[i + 1];
      }
    }
  }

  /** `i` holds a head that no other head comes before. */
  ghost predicate LeastHead<T>(leq: (T, T) -> bool, lists: seq<seq<T>>, i: nat) {
    && i < |lists| && lists[i] != []
    && (forall j :: 0 <= j < |lists| && lists[j] != [] ==> leq(lists[i][0], lists[j][0]))
  }

  /** The least head of sorted lists comes before everything that is left. */
  lemma LeastHeadIsLeast<T(!new)>(leq: (T, T) -> bool, lists: seq<seq<T>>, i: nat)
    requires TotalPreorder(leq) && AllSorted(leq, lists) && LeastHead(leq, lists, i)
    ensures Least(leq, lists[i][0], Union(lists))
  {
    forall y | y in Union(lists) ensures leq(lists[i][0], y) {
      UnionMember(lists, y);
      var j :| 0 <= j < |lists| && y in lists[j];
      var k :| 0 <= k < |lists[j]| && lists[j][k] == y;
      assert leq(lists[j][0], lists[j][k]);
    }
  }

  // ----- runs of a merge -----

  /** The items yielded so far are sorted and come before or with everything left. */
  ghost predicate Yielded<T>(leq: (T, T) -> bool, out: seq<T>, left: multiset<T>) {
    Sorted(leq, out) && forall i, y :: 0 <= i < |out| && y in left ==> leq(out[i], y)
  }

  lemma YieldedNone<T>(leq: (T, T) -> bool, left: multiset<T>)
    ensures Yielded(leq, [], left)
  {
  }

  lemma YieldedSorted<T>(leq: (T, T) -> bool, out: seq<T>, left: multiset<T>)
    requires Yielded(leq, out, left)
    ensures Sorted(leq, out)
  {
  }

  lemma YieldedOne<T>(leq: (T, T) -> bool, out: seq<T>, x: T, left: multiset<T>)
    requires Yielded(leq, out, multiset{x} + left) && Least(leq, x, multiset{x} + left)
    ensures Yielded(leq, out + [x], left)
  {
    var all, more := multiset{x} + left, out + [x];
    assert x in all;
    forall i, j | 0 <= i < j < |more| ensures leq(more[i], more[j]) {
      if j == |out| { assert leq(out[i], x); }
    }
    forall i, y | 0 <= i < |more| && y in left ensures leq(more[i], y) {
      assert y in all;
    }
  }

  /** The order of readers by the item they hold; an exhausted reader comes after all others. */
  predicate PeekLeq<T>(leq: (T, T) -> bool, a: Option<T>, b: Option<T>) {
    match (a, b)
    case (Some(x), Some(y)) => leq(x, y)
    case (Some(_), None) => true
    case (None, Some(_)) => false
    case (None, None) => true
  }

  lemma PeekOrder<T(!new)>(leq: (T, T) -> bool)
    requires TotalPreorder(leq)
    ensures TotalPreorder((a: Option<T>, b: Option<T>) => PeekLeq(leq, a, b))
  {
  }
}
