/** The stable merge of sorted iterators. */
module IterMerge {
  import opened Wrappers
  import opened Ordering
  import opened Merging

  /** An item with the number of the iterator it came from. */
  datatype Tagged<T> = Tagged(item: T, from: nat)

  /** An exhausted iterator comes after all others. */
  predicate HeadLeq<T>(leq: (T, T) -> bool, a: seq<T>, b: seq<T>) {
    b == [] || (a != [] && leq(a[0], b[0]))
  }

  /** The first of the lists whose head no other comes before. */
  function FirstLeast<T>(leq: (T, T) -> bool, lists: seq<seq<T>>): (i: nat)
    requires lists != []
    ensures i < |lists|
  {
    if |lists| == 1 then 0
    else
      var i := FirstLeast(leq, lists[..|lists| - 1]);
      if HeadLeq(leq, lists[i], lists[|lists| - 1]) then i else |lists| - 1
  }

  lemma {:induction false} FirstLeastIsFirst<T(!new)>(leq: (T, T) -> bool, lists: seq<seq<T>>)
    requires TotalPreorder(leq) && lists != []
    ensures var i := FirstLeast(leq, lists);
            && (forall k :: 0 <= k < |lists| ==> HeadLeq(leq, lists[i], lists[k]))
            && (forall k :: 0 <= k < i ==> !HeadLeq(leq, lists[k], lists[i]))
  {
    if |lists| > 1 {
      var init, last := lists[..|lists| - 1], lists[|lists| - 1];
      FirstLeastIsFirst(leq, init);
      var i := FirstLeast(leq, init);
      assert forall k :: 0 <= k < |init| ==> init[k] == lists[k];
      forall k | 0 <= k < |lists| ensures HeadLeq(leq, lists[k], lists[k]) {
        HeadTotal(leq, lists[k], lists[k]);
      }
      if !HeadLeq(leq, lists[i], last) {
        forall k | 0 <= k < |init| ensures HeadLeq(leq, last, lists[k]) && !HeadLeq(leq, lists[k], last) {
          HeadTotal(leq, lists[i], last);
          HeadTrans(leq, last, lists[i], lists[k]);
          if HeadLeq(leq, lists[k], last) {
            HeadTrans(leq, lists[i], lists[k], last);
          }
        }
      }
    }
  }

  lemma HeadTotal<T(!new)>(leq: (T, T) -> bool, a: seq<T>, b: seq<T>)
    requires TotalPreorder(leq)
    ensures HeadLeq(leq, a, b) || HeadLeq(leq, b, a)
  {
  }

  lemma HeadTrans<T(!new)>(leq: (T, T) -> bool, a: seq<T>, b: seq<T>, c: seq<T>)
    requires TotalPreorder(leq) && HeadLeq(leq, a, b) && HeadLeq(leq, b, c)
    ensures HeadLeq(leq, a, c)
  {
  }

  ghost function Size<T>(lists: seq<seq<T>>): nat {
    |Union(lists)|
  }

  /** Everything in the lists, each time from the first list with a least head. */
  ghost function Merged<T(!new)>(leq: (T, T) -> bool, lists: seq<seq<T>>): seq<Tagged<T>>
    decreases Size(lists)
  {
    if lists == [] || lists[FirstLeast(leq, lists)] == [] then []
    else
      var i := FirstLeast(leq, lists);
      UnionTake(lists, i);
      [Tagged(lists[i][0], i)] + Merged(leq, lists[i := lists[i][1..]])
  }

  /** One step of the merge: the rest is the merge of the lists without that item. */
  lemma MergedStep<T(!new)>(leq: (T, T) -> bool, lists: seq<seq<T>>)
    requires lists != [] && lists[FirstLeast(leq, lists)] != []
    ensures var i := FirstLeast(leq, lists);
            var rest := lists[i := lists[i][1..]];
            Size(rest) < Size(lists) && Merged(leq, lists) == [Tagged(lists[i][0], i)] + Merged(leq, rest)
  {
    hide FirstLeast;
    UnionTake(lists, FirstLeast(leq, lists));
  }

  /** The items of `out` that came from iterator `i`. */
  ghost function From<T>(out: seq<Tagged<T>>, i: nat): seq<T> {
    if out == [] then [] else (if out[0].from == i then [out[0].item] else []) + From(out[1..], i)
  }

  ghost predicate Exhausted<T>(lists: seq<seq<T>>) {
    forall k :: 0 <= k < |lists| ==> lists[k] == []
  }

  lemma FirstLeastEmpty<T(!new)>(leq: (T, T) -> bool, lists: seq<seq<T>>)
    requires TotalPreorder(leq) && lists != [] && lists[FirstLeast(leq, lists)] == []
    ensures Exhausted(lists)
  {
    FirstLeastIsFirst(leq, lists);
  }

  /** The merge keeps every item of every iterator, in the iterator's order. */
  lemma {:induction false} MergedKeepsLists<T(!new)>(leq: (T, T) -> bool, lists: seq<seq<T>>, i: nat)
    requires TotalPreorder(leq) && i < |lists|
    ensures From(Merged(leq, lists), i) == lists[i]
    decreases Size(lists)
  {
    hide TotalPreorder, FirstLeast, Size;
    var j := FirstLeast(leq, lists);
    if lists[j] == [] {
      FirstLeastEmpty(leq, lists);
    } else {
      MergedStep(leq, lists);
      hide Merged;
      var rest := lists[j := lists[j][1..]];
      MergedKeepsLists(leq, rest, i);
      FromCons(Tagged(lists[j][0], j), Merged(leq, rest), i);
      assert [lists[j][0]] + lists[j][1..] == lists[j];
    }
  }

  lemma FromCons<T(!new)>(x: Tagged<T>, out: seq<Tagged<T>>, i: nat)
    ensures From([x] + out, i) == (if x.from == i then [x.item] else []) + From(out, i)
  {
    assert ([x] + out)[1..] == out;
  }

  /** `x` may come before `y`: it is smaller, or equal and from an iterator that is not later. */
  ghost predicate Before<T>(leq: (T, T) -> bool, x: Tagged<T>, y: Tagged<T>) {
    leq(x.item, y.item) && (leq(y.item, x.item) ==> x.from <= y.from)
  }

  lemma NonemptyMerge<T(!new)>(leq: (T, T) -> bool, lists: seq<seq<T>>)
    requires Merged(leq, lists) != []
    ensures lists != [] && lists[FirstLeast(leq, lists)] != []
  {
  }

  /** Every item of the merge is an item of the list it came from. */
  lemma {:induction false} MergedOrigin<T(!new)>(leq: (T, T) -> bool, lists: seq<seq<T>>, k: nat)
    requires k < |Merged(leq, lists)|
    ensures var x := Merged(leq, lists)[k]; x.from < |lists| && x.item in lists[x.from]
    decreases Size(lists)
  {
    hide FirstLeast, Size;
    NonemptyMerge(leq, lists);
    MergedStep(leq, lists);
    hide Merged;
    var i := FirstLeast(leq, lists);
    if k > 0 {
      MergedOrigin(leq, lists[i := lists[i][1..]], k - 1);
    }
  }

  /** The first item of the merge may come before any item of the lists. */
  lemma FirstBefore<T(!new)>(leq: (T, T) -> bool, lists: seq<seq<T>>, j: nat, y: T)
    requires TotalPreorder(leq) && AllSorted(leq, lists) && j < |lists| && y in lists[j]
    ensures var i := FirstLeast(leq, lists);
            lists[i] != [] && Before(leq, Tagged(lists[i][0], i), Tagged(y, j))
  {
    FirstLeastIsFirst(leq, lists);
    var i := FirstLeast(leq, lists);
    assert HeadLeq(leq, lists[i], lists[j]);
    var k :| 0 <= k < |lists[j]| && lists[j][k] == y;
    assert k > 0 ==> leq(lists[j][0], lists[j][k]);
    assert j < i ==> !HeadLeq(leq, lists[j], lists[i]);
  }

  /** The merge of sorted iterators is sorted, with ties in the order of the iterators. */
  lemma {:induction false} MergedIsStable<T(!new)>(leq: (T, T) -> bool, lists: seq<seq<T>>, a: nat, b: nat)
    requires TotalPreorder(leq) && AllSorted(leq, lists) && a < b < |Merged(leq, lists)|
    ensures Before(leq, Merged(leq, lists)[a], Merged(leq, lists)[b])
    decreases Size(lists)
  {
    hide TotalPreorder, FirstLeast, Before, Merged, Size;
    NonemptyMerge(leq, lists);
    MergedStep(leq, lists);
    var i := FirstLeast(leq, lists);
    var rest := lists[i := lists[i][1..]];
    SortedTail(leq, lists[i]);
    if a > 0 {
      MergedIsStable(leq, rest, a - 1, b - 1);
    } else {
      MergedOrigin(leq, rest, b - 1);
      var y := Merged(leq, rest)[b - 1];
      assert y.item in lists[y.from];
      FirstBefore(leq, lists, y.from, y.item);
    }
  }

  // ----- the iterator -----

  /** An iterator that holds its next item. */
  class Peekable<T> {
    var iter: seq<T>
    var peeked: Option<T>

    ghost predicate Valid()
      reads this
    {
      peeked.None? ==> iter == []
    }

    ghost function Left(): seq<T>
      reads this
    {
      (if peeked.Some? then [peeked.value] else []) + iter
    }

    constructor (items: seq<T>)
      ensures Valid() && Left() == items
    {
      peeked, iter := if items == [] then None else Some(items[0]), if items == [] then [] else items[1..];
    }

    method Next() returns (r: Option<T>)
      requires Valid()
      modifies this
      ensures Valid()
      ensures if old(Left()) == [] then r == None && Left() == []
              else r == Some(old(Left())[0]) && Left() == old(Left())[1..]
    {
      r := peeked;
      peeked := None;
      if r.Some? && iter != [] {
        peeked := Some(iter[0]);
        iter := iter[1..];
      }
    }
  }

  class SortSortedBy<T(!new)> {
    const leq: (T, T) -> bool
    const iters: seq<Peekable<T>>
    ghost var lists: seq<seq<T>>

    ghost predicate Valid()
      reads this, iters
    {
      && TotalPreorder(leq)
      && |lists| == |iters|
      && (forall i :: 0 <= i < |iters| ==> iters[i].Valid() && lists[i] == iters[i].Left())
      && (forall i, j :: 0 <= i < j < |iters| ==> iters[i] != iters[j])
    }

    constructor (leq: (T, T) -> bool, iters: seq<Peekable<T>>)
      requires TotalPreorder(leq) && forall i :: 0 <= i < |iters| ==> iters[i].Valid()
      requires forall i, j :: 0 <= i < j < |iters| ==> iters[i] != iters[j]
      ensures Valid() && this.leq == leq && this.iters == iters
      ensures |lists| == |iters| && forall i :: 0 <= i < |iters| ==> lists[i] == iters[i].Left()
    {
      this.leq, this.iters := leq, iters;
      lists := seq(|iters|, i requires 0 <= i < |iters| reads iters => iters[i].Left());
    }

    /** The first iterator that no other comes before. */
    method MinBy() returns (i: nat)
      requires Valid() && iters != []
      ensures i == FirstLeast(leq, lists)
    {
      i := 0;
      for j := 1 to |iters|
        invariant i == FirstLeast(leq, lists[..j])
      {
        assert lists[..j + 1][..j] == lists[..j];
        if !PeekLeq(leq, iters[i].peeked, iters[j].peeked) { i := j; }
      }
      assert lists[..|lists|] == lists;
    }

    /** Yields the first item of the merge of what is left. */
    method Next() returns (r: Option<T>)
      requires Valid()
      modifies this, iters
      ensures Valid()
      ensures var m := Merged(leq, old(lists));
              if m == [] then r == None && lists == old(lists)
              else r == Some(m[0].item) && Merged(leq, lists) == m[1..]
    {
      hide TotalPreorder, FirstLeast, Union;
      if iters == [] { return None; }
      var i := MinBy();
      r := iters[i].Next();
      if r.Some? {
        lists := lists[i := lists[i][1..]];
      }
    }
  }
}
