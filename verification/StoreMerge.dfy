/** Merging sorted stores: readers that hold their next item, in a heap ordered by it. */
module StoreMerge {
  import opened Wrappers
  import opened Ordering
  import opened Merging
  import opened IterableStore

  class Peekable<T(!new)> {
    const iter: IterableStoreReader<T>
    var peeked: Option<T>

    ghost predicate Valid()
      reads this, iter
    {
      iter.Valid() && (peeked.None? ==> iter.left == [])
    }

    /** What the reader has yet to yield. */
    ghost function Left(): seq<T>
      reads this, iter
    {
      (if peeked.Some? then [peeked.value] else []) + iter.left
    }

    constructor (iter: IterableStoreReader<T>)
      requires iter.Valid()
      modifies iter
      ensures Valid() && this.iter == iter && Left() == old(iter.left)
    {
      hide Faithful, Frames;
      var first := iter.Next();
      this.iter, peeked := iter, first.value;
    }

    method Next() returns (r: Option<T>)
      requires Valid()
      modifies this, iter
      ensures Valid()
      ensures if old(Left()) == [] then r == None && Left() == []
              else r == Some(old(Left())[0]) && Left() == old(Left())[1..]
    {
      hide Faithful, Frames;
      r := peeked;
      peeked := None;
      if r.Some? {
        var next := iter.Next();
        peeked := next.value;
      }
    }
  }

  class SortedIterableStoreReader<T(!new)> {
    const leq: (T, T) -> bool
    const readers: seq<Peekable<T>>
    ghost var lists: seq<seq<T>>

    ghost function Iters(): set<IterableStoreReader<T>> {
      set p | p in readers :: p.iter
    }

    ghost predicate Valid()
      reads this, readers, Iters()
    {
      && TotalPreorder(leq)
      && |lists| == |readers|
      && (forall i :: 0 <= i < |readers| ==> readers[i].Valid() && lists[i] == readers[i].Left())
      && (forall i, j :: 0 <= i < j < |readers| ==> readers[i] != readers[j] && readers[i].iter != readers[j].iter)
      && AllSorted(leq, lists)
    }

    constructor (leq: (T, T) -> bool, readers: seq<Peekable<T>>)
      requires TotalPreorder(leq)
      requires forall i :: 0 <= i < |readers| ==> readers[i].Valid() && Sorted(leq, readers[i].Left())
      requires forall i, j :: 0 <= i < j < |readers| ==> readers[i] != readers[j] && readers[i].iter != readers[j].iter
      ensures Valid() && this.leq == leq && this.readers == readers
      ensures |lists| == |readers| && forall i :: 0 <= i < |readers| ==> lists[i] == readers[i].Left()
    {
      this.leq, this.readers := leq, readers;
      lists := seq(|readers|, i requires 0 <= i < |readers| reads readers, set p | p in readers :: p.iter => readers[i].Left());
    }

    /** A reader that no other comes before: the top of the heap. */
    method Top() returns (i: nat)
      requires Valid() && readers != []
      ensures i < |readers|
      ensures forall k :: 0 <= k < |readers| ==> PeekLeq(leq, readers[i].peeked, readers[k].peeked)
    {
      PeekOrder(leq);
      i := 0;
      for j := 1 to |readers|
        invariant i < |readers|
        invariant forall k :: 0 <= k < j ==> PeekLeq(leq, readers[i].peeked, readers[k].peeked)
      {
        if !PeekLeq(leq, readers[i].peeked, readers[j].peeked) { i := j; }
      }
    }

    /** Yields an item that comes before or with everything left; stops only when every reader is exhausted. */
    method Next() returns (r: Option<T>)
      requires Valid()
      modifies this, readers, Iters()
      ensures Valid()
      ensures r.None? ==> old(Union(lists)) == multiset{} && Union(lists) == multiset{}
      ensures r.Some? ==> Least(leq, r.value, old(Union(lists)))
      ensures r.Some? ==> old(Union(lists)) == multiset{r.value} + Union(lists)
    {
      hide TotalPreorder, Sorted, AllSorted, Union, Least, Faithful, Frames;
      if readers == [] {
        NothingLeft(lists);
        return None;
      }
      var i := Top();
      TopIsLeast(i);
      ghost var rest := if lists[i] == [] then lists else lists[i := lists[i][1..]];
      r := readers[i].Next();
      forall k | 0 <= k < |readers| ensures readers[k].Valid() && rest[k] == readers[k].Left() {
        if k != i {
          assert readers[k] != readers[i] && readers[k].iter != readers[i].iter;
          assert old(readers[k].Valid()) && old(lists)[k] == old(readers[k].Left());
        }
      }
      lists := rest;
    }

    lemma TopIsLeast(i: nat)
      requires Valid() && i < |readers|
      requires forall k :: 0 <= k < |readers| ==> PeekLeq(leq, readers[i].peeked, readers[k].peeked)
      ensures lists[i] == [] ==> Union(lists) == multiset{}
      ensures lists[i] != [] ==>
                && Least(leq, lists[i][0], Union(lists)) && AllSorted(leq, lists[i := lists[i][1..]])
                && Union(lists) == multiset{lists[i][0]} + Union(lists[i := lists[i][1..]])
    {
      hide TotalPreorder, Faithful, Frames;
      assert lists[i] == readers[i].Left();
      if lists[i] == [] {
        forall k | 0 <= k < |lists| ensures lists[k] == [] {
          assert lists[k] == readers[k].Left();
        }
        NothingLeft(lists);
      } else {
        assert LeastHead(leq, lists, i);
        LeastHeadIsLeast(leq, lists, i);
        UnionTake(lists, i);
        SortedTail(leq, lists[i]);
      }
    }
  }

  lemma {:induction false} NothingLeft<T>(lists: seq<seq<T>>)
    requires forall i :: 0 <= i < |lists| ==> lists[i] == []
    ensures Union(lists) == multiset{}
  {
    if lists != [] { NothingLeft(lists[1..]); }
  }

  /** Running the merged reader to its end yields everything in the stores, sorted. */
  method ReadMerged<T(!new)>(merged: SortedIterableStoreReader<T>) returns (out: seq<T>)
    requires merged.Valid()
    modifies merged, merged.readers, merged.Iters()
    ensures Sorted(merged.leq, out) && multiset(out) == old(Union(merged.lists))
  {
    hide TotalPreorder, Sorted, Union, Least, Yielded, Faithful, Frames;
    out := [];
    ghost var all := Union(merged.lists);
    YieldedNone(merged.leq, all);
    while true
      invariant merged.Valid()
      invariant all == multiset(out) + Union(merged.lists)
      invariant Yielded(merged.leq, out, Union(merged.lists))
      decreases |Union(merged.lists)|
    {
      var item := merged.Next();
      if item.None? { break; }
      YieldedOne(merged.leq, out, item.value, Union(merged.lists));
      out := out + [item.value];
    }
    YieldedSorted(merged.leq, out, Union(merged.lists));
  }
}
