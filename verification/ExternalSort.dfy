/** Sorting more items than fit in memory: sorted chunks in files, merged through a heap of their heads. */
module ExternalSort {
  import opened Wrappers
  import opened Bytes
  import opened Ordering
  import opened Merging
  import opened IterableStore

  /** A sorted chunk in a temporary file, read from the front. */
  class StoredChunk<T(!new)> {
    const codec: Codec<T>
    var data: seq<byte>
    ghost var left: seq<T>

    ghost predicate Valid()
      reads this
    {
      Faithful(codec) && data == Frames(codec, left)
    }

    constructor (codec: Codec<T>, data: seq<byte>, ghost items: seq<T>)
      requires Faithful(codec) && data == Frames(codec, items)
      ensures Valid() && left == items
    {
      this.codec, this.data, left := codec, data, items;
    }

    /** The next `n` bytes; none, and the file is spent, if there are fewer. */
    method ReadExact(n: nat) returns (buf: Option<seq<byte>>)
      modifies this`data
      ensures |old(data)| >= n ==> buf == Some(old(data)[..n]) && data == old(data)[n..]
      ensures |old(data)| < n ==> buf == None
    {
      if |data| < n {
        data := [];
        return None;
      }
      buf := Some(data[..n]);
      data := data[n..];
    }

    method Next() returns (r: Option<T>)
      requires Valid()
      modifies this
      ensures r.Some? ==> Valid() && old(left) != [] && r.value == old(left)[0] && left == old(left)[1..]
      ensures r.None? <==> old(left) == []
    {
      if left != [] { FirstFrame(codec, left); }
      ghost var file := data;
      var header := ReadExact(8);
      if header.None? { return None; }
      var nextSize := FromLE(header.value);
      assert file[8..][..nextSize] == file[8..8 + nextSize] && file[8..][nextSize..] == file[8 + nextSize..];
      var buf := ReadExact(nextSize);
      if buf.None? { return None; }
      r := codec.decode(buf.value);
      left := left[1..];
    }
  }

  /** Sorts a chunk and writes it, framed, to a file. */
  method Store<T(!new)>(codec: Codec<T>, leq: (T, T) -> bool, chunk: seq<T>) returns (stored: StoredChunk<T>)
    requires Faithful(codec) && TotalPreorder(leq)
    ensures fresh(stored) && stored.Valid() && Sorted(leq, stored.left) && multiset(stored.left) == multiset(chunk)
  {
    hide Frames, Frame, Faithful, TotalPreorder, Sorted;
    var sorted := SortOf(leq, chunk);
    SortOfCorrect(leq, chunk);
    var file: seq<byte> := [];
    FramesNone(codec, sorted);
    for i := 0 to |sorted|
      invariant file == Frames(codec, sorted[..i])
    {
      var bytes := codec.encode(sorted[i]);
      FramesLast(codec, sorted[..i], sorted[i]);
      FrameParts(codec, sorted[i], file);
      assert sorted[..i] + [sorted[i]] == sorted[..i + 1];
      file := file + ToLE(|bytes|, 8);
      file := file + bytes;
    }
    assert sorted[..|sorted|] == sorted;
    stored := new StoredChunk(codec, file, sorted);
  }

  lemma FrameParts<T>(c: Codec<T>, x: T, before: seq<byte>)
    ensures before + ToLE(|c.encode(x)|, 8) + c.encode(x) == before + Frame(c, x)
  {
  }

  datatype Head<T(!new)> = Head(item: T, rest: StoredChunk<T>)

  class SortedIterator<T(!new)> {
    const leq: (T, T) -> bool
    /** The heap, in no particular order. */
    var chunks: seq<Head<T>>
    /** What each chunk has yet to yield, its head first. */
    ghost var lists: seq<seq<T>>
    ghost var repr: set<StoredChunk<T>>

    ghost predicate Valid()
      reads this, repr
    {
      && TotalPreorder(leq)
      && |lists| == |chunks|
      && (forall i :: 0 <= i < |chunks| ==> HeadOk(chunks[i], lists[i]))
      && (forall i, j :: 0 <= i < j < |chunks| ==> chunks[i].rest != chunks[j].rest)
      && AllSorted(leq, lists)
    }

    ghost predicate HeadOk(h: Head<T>, list: seq<T>)
      reads this, repr
    {
      h.rest in repr && h.rest.Valid() && list == [h.item] + h.rest.left
    }

    constructor (leq: (T, T) -> bool)
      requires TotalPreorder(leq)
      ensures Valid() && this.leq == leq && lists == [] && repr == {}
    {
      this.leq, chunks, lists, repr := leq, [], [], {};
    }

    /** Adds a chunk to the heap, unless it is empty. */
    method Push(chunk: StoredChunk<T>)
      requires Valid() && chunk.Valid() && chunk !in repr && Sorted(leq, chunk.left)
      modifies this, chunk
      ensures Valid() && repr == old(repr) + {chunk}
      ensures Union(lists) == old(Union(lists)) + old(multiset(chunk.left))
    {
      hide TotalPreorder, Sorted, Frames, Faithful, Union;
      ghost var items := chunk.left;
      repr := repr + {chunk};
      var item := chunk.Next();
      if item.Some? {
        assert items == [items[0]] + items[1..];
        UnionAppend(lists, items);
        chunks := chunks + [Head(item.value, chunk)];
        lists := lists + [items];
      }
    }

    /** The place of a least head. */
    method LeastIndex() returns (i: nat)
      requires Valid() && chunks != []
      ensures i < |chunks| && LeastHead(leq, lists, i)
    {
      hide Sorted, Frames, Faithful;
      i := 0;
      assert forall k :: 0 <= k < |chunks| ==> HeadOk(chunks[k], lists[k]);
      for j := 1 to |chunks|
        invariant i < |chunks|
        invariant forall k :: 0 <= k < j ==> leq(chunks[i].item, chunks[k].item)
      {
        if !leq(chunks[i].item, chunks[j].item) { i := j; }
      }
      assert forall k :: 0 <= k < |chunks| ==> lists[k] != [] && lists[k][0] == chunks[k].item;
    }

    /** Yields an item that comes before or with everything left, and takes it from what is left. */
    method Next() returns (r: Option<T>)
      requires Valid()
      modifies this, repr
      ensures Valid() && repr == old(repr)
      ensures r.None? ==> old(Union(lists)) == multiset{} && lists == old(lists)
      ensures r.Some? ==> Least(leq, r.value, old(Union(lists)))
      ensures r.Some? ==> old(Union(lists)) == multiset{r.value} + Union(lists)
    {
      hide TotalPreorder, Sorted, Frames, Faithful, Union, LeastHead, Least;
      if chunks == [] {
        NoLists(lists);
        return None;
      }
      var i := LeastIndex();
      LeastHeadIsLeast(leq, lists, i);
      var head := chunks[i];
      assert HeadOk(head, lists[i]);
      UnionRemove(lists, i);
      MultisetCons(lists[i]);
      PopRest(i);
      chunks, lists, repr := chunks[..i] + chunks[i + 1..], lists[..i] + lists[i + 1..], repr - {head.rest};
      Push(head.rest);
      r := Some(head.item);
    }

    /** Without the `i`th chunk the rest is still a heap. */
    lemma PopRest(i: nat)
      requires Valid() && i < |chunks|
      ensures var others, left := chunks[..i] + chunks[i + 1..], lists[..i] + lists[i + 1..];
              && |left| == |others| && AllSorted(leq, left) && Sorted(leq, chunks[i].rest.left)
              && (forall k :: 0 <= k < |others| ==> HeadOk(others[k], left[k]) && others[k].rest != chunks[i].rest)
              && (forall k, l :: 0 <= k < l < |others| ==> others[k].rest != others[l].rest)
    {
      hide TotalPreorder, Frames, Faithful;
      assert HeadOk(chunks[i], lists[i]);
      SortedTail(leq, lists[i]);
      assert lists[i][1..] == chunks[i].rest.left;
    }
  }

  lemma NoLists<T>(lists: seq<seq<T>>)
    requires lists == []
    ensures Union(lists) == multiset{}
  {
  }

  /** Splits the input into chunks of `chunkSize` items (of one item if it is 0), stores them and heaps their heads. */
  method Sort<T(!new)>(codec: Codec<T>, leq: (T, T) -> bool, chunkSize: nat, items: seq<T>) returns (it: SortedIterator<T>)
    requires Faithful(codec) && TotalPreorder(leq)
    ensures fresh(it) && fresh(it.repr) && it.Valid() && it.leq == leq
    ensures Union(it.lists) == multiset(items)
  {
    hide Faithful, TotalPreorder, Union, Sorted, Frames;
    it := new SortedIterator(leq);
    NoLists(it.lists);
    var chunk: seq<T> := [];
    for i := 0 to |items|
      invariant fresh(it) && fresh(it.repr) && it.Valid() && it.leq == leq
      invariant Union(it.lists) + multiset(chunk) == multiset(items[..i])
    {
      assert items[..i + 1] == items[..i] + [items[i]];
      chunk := chunk + [items[i]];
      if |chunk| >= chunkSize {
        var stored := Store(codec, leq, chunk);
        it.Push(stored);
        chunk := [];
      }
    }
    assert items[..|items|] == items;
    if chunk != [] {
      var stored := Store(codec, leq, chunk);
      it.Push(stored);
    }
  }

  /** Running the iterator to its end yields the input, sorted. */
  method SortAll<T(!new)>(codec: Codec<T>, leq: (T, T) -> bool, chunkSize: nat, items: seq<T>) returns (out: seq<T>)
    requires Faithful(codec) && TotalPreorder(leq)
    ensures Sorted(leq, out) && multiset(out) == multiset(items)
  {
    hide Faithful, TotalPreorder, Union, Frames, Sorted, Least, Yielded;
    var it := Sort(codec, leq, chunkSize, items);
    out := [];
    YieldedNone(leq, Union(it.lists));
    while true
      invariant fresh(it) && fresh(it.repr) && it.Valid() && it.leq == leq
      invariant multiset(items) == multiset(out) + Union(it.lists)
      invariant Yielded(leq, out, Union(it.lists))
      decreases |Union(it.lists)|
    {
      var item := it.Next();
      if item.None? { break; }
      YieldedOne(leq, out, item.value, Union(it.lists));
      out := out + [item.value];
    }
    YieldedSorted(leq, out, Union(it.lists));
  }
}
