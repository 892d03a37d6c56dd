/**
  The iterable store: items one after the other, each behind a 64-bit little-endian length.

  Items have their own codec, which enters as two functions.
 */
module IterableStore {
  import opened Wrappers
  import opened Bytes

  datatype Codec<!T> = Codec(encode: T -> seq<byte>, decode: seq<byte> -> Option<T>)

  /** Encodings fit in memory and decode to what was encoded. */
  ghost predicate Faithful<T(!new)>(c: Codec<T>) {
    forall x :: |c.encode(x)| < U64_SIZE && c.decode(c.encode(x)) == Some(x)
  }

  const HEADER_SIZE := 8

  function Frame<T>(c: Codec<T>, x: T): seq<byte> {
    ToLE(|c.encode(x)|, HEADER_SIZE) + c.encode(x)
  }

  function Frames<T>(c: Codec<T>, items: seq<T>): seq<byte> {
    if items == [] then [] else Frame(c, items[0]) + Frames(c, items[1..])
  }

  lemma {:induction false} FramesConcat<T>(c: Codec<T>, a: seq<T>, b: seq<T>)
    ensures Frames(c, a + b) == Frames(c, a) + Frames(c, b)
  {
    if a == [] {
      assert a + b == b;
    } else {
      FramesConcat(c, a[1..], b);
      assert (a + b)[1..] == a[1..] + b && (a + b)[0] == a[0];
    }
  }

  lemma FramesLast<T>(c: Codec<T>, items: seq<T>, x: T)
    ensures Frames(c, items + [x]) == Frames(c, items) + Frame(c, x)
  {
    FramesConcat(c, items, [x]);
    assert [x][1..] == [];
    assert Frame(c, x) + [] == Frame(c, x);
  }

  lemma FramesNone<T>(c: Codec<T>, items: seq<T>)
    ensures Frames(c, items[..0]) == []
  {
  }

  /** The first frame of a framed list. */
  lemma FirstFrame<T(!new)>(c: Codec<T>, items: seq<T>)
    requires Faithful(c) && items != []
    ensures var bs, n := Frames(c, items), |c.encode(items[0])|;
            && |bs| >= HEADER_SIZE + n
            && FromLE(bs[..HEADER_SIZE]) == n
            && bs[HEADER_SIZE..HEADER_SIZE + n] == c.encode(items[0])
            && bs[HEADER_SIZE + n..] == Frames(c, items[1..])
  {
    var bs, e := Frames(c, items), c.encode(items[0]);
    Sizes();
    FromToLE(|e|, HEADER_SIZE);
    assert bs == ToLE(|e|, HEADER_SIZE) + e + Frames(c, items[1..]);
    assert bs[..HEADER_SIZE] == ToLE(|e|, HEADER_SIZE);
  }

  // ----- where items lie -----

  /** The offset of the `i`th item. */
  ghost function StartOf<T>(c: Codec<T>, items: seq<T>, i: nat): nat
    requires i <= |items|
  {
    |Frames(c, items[..i])|
  }

  /** The bytes between the starts of two items are the frames of the items in between. */
  lemma SliceIsFrames<T>(c: Codec<T>, items: seq<T>, i: nat, j: nat)
    requires i <= j <= |items|
    ensures StartOf(c, items, i) <= StartOf(c, items, j) <= |Frames(c, items)|
    ensures Frames(c, items)[StartOf(c, items, i)..StartOf(c, items, j)] == Frames(c, items[i..j])
  {
    assert items[..i] + items[i..j] == items[..j];
    assert items[..j] + items[j..] == items;
    FramesConcat(c, items[..i], items[i..j]);
    FramesConcat(c, items[..j], items[j..]);
  }

  // ----- writing -----

  datatype WrittenOffset = WrittenOffset(start: nat, numBytes: nat)

  class IterableStoreWriter<T(!new)> {
    const codec: Codec<T>
    var out: seq<byte>
    var nextStart: nat
    ghost var items: seq<T>

    ghost predicate Valid()
      reads this
    {
      out == Frames(codec, items) && nextStart == |out|
    }

    constructor (codec: Codec<T>)
      ensures Valid() && this.codec == codec && items == []
    {
      this.codec, out, nextStart, items := codec, [], 0, [];
    }

    /** The offset returned is the place of the item, right after the previous one. */
    method Write(item: T) returns (offset: WrittenOffset)
      requires Valid()
      modifies this
      ensures Valid() && items == old(items) + [item]
      ensures offset.start == StartOf(codec, items, |items| - 1)
      ensures offset.start + offset.numBytes == StartOf(codec, items, |items|)
    {
      var serialized := codec.encode(item);
      FramesLast(codec, items, item);
      out := out + ToLE(|serialized|, HEADER_SIZE);
      out := out + serialized;
      var start := nextStart;
      var bytesWritten := HEADER_SIZE + |serialized|;
      nextStart := nextStart + bytesWritten;
      offset := WrittenOffset(start, bytesWritten);
      items := items + [item];
      assert items[..|items| - 1] == old(items) && items[..|items|] == items;
    }
  }

  // ----- reading -----

  /** What stops the program: a slice outside the data, or an item that does not decode. */
  datatype Fault = OutOfRange | Undecodable

  /** What a read at `offset` finds in any bytes, and where it stops reading. */
  function ReadAt<T>(c: Codec<T>, data: seq<byte>, offset: nat): (Result<Option<T>, Fault>, nat) {
    if offset + HEADER_SIZE > |data| then (Ok(None), offset)
    else
      var start := offset + HEADER_SIZE;
      var n := FromLE(data[offset..start]);
      if start + n > |data| then (Err(OutOfRange), start)
      else
        var item := c.decode(data[start..start + n]);
        (if item.None? then Err(Undecodable) else Ok(item), start + n)
  }

  /** A read takes eight little-endian bytes as the number of the bytes to decode. */
  lemma ReadsAny<T>(c: Codec<T>, before: seq<byte>, header: seq<byte>, body: seq<byte>, after: seq<byte>)
    requires |header| == HEADER_SIZE && |body| < U64_SIZE
    requires forall i :: 0 <= i < HEADER_SIZE ==> header[i] == |body| / Pow256(i) % 256
    ensures ReadAt(c, before + header + body + after, |before|)
         == (if c.decode(body).None? then Err(Undecodable) else Ok(c.decode(body)), |before| + HEADER_SIZE + |body|)
  {
    Sizes();
    forall i | 0 <= i < HEADER_SIZE ensures ToLE(|body|, HEADER_SIZE)[i] == header[i] {
      LittleEndian(|body|, HEADER_SIZE, i);
    }
    assert ToLE(|body|, HEADER_SIZE) == header;
    FromToLE(|body|, HEADER_SIZE);
    var data, start := before + header + body + after, |before| + HEADER_SIZE;
    assert data[|before|..start] == header && data[start..start + |body|] == body;
  }

  /** In front of framed items a read finds the first of them. */
  lemma ReadsFirst<T(!new)>(c: Codec<T>, data: seq<byte>, offset: nat, left: seq<T>)
    requires Faithful(c) && offset <= |data| && data[offset..] == Frames(c, left)
    ensures var (r, next) := ReadAt(c, data, offset);
            if left == [] then r == Ok(None) && next == offset
            else r == Ok(Some(left[0])) && next <= |data| && data[next..] == Frames(c, left[1..])
  {
    if left != [] {
      FirstFrame(c, left);
      var n := |c.encode(left[0])|;
      var start := offset + HEADER_SIZE;
      assert data[offset..][..HEADER_SIZE] == data[offset..start];
      assert data[offset..][HEADER_SIZE..HEADER_SIZE + n] == data[start..start + n];
      assert data[offset..][HEADER_SIZE + n..] == data[start + n..];
    }
  }

  /** A store that was cut inside an item: nothing more is found if its header is not whole, a fault if it is. */
  lemma ReadsCut<T(!new)>(c: Codec<T>, items: seq<T>, x: T, n: nat)
    requires Faithful(c) && n < |Frame(c, x)|
    ensures ReadAt(c, Frames(c, items) + Frame(c, x)[..n], |Frames(c, items)|).0
         == if n < HEADER_SIZE then Ok(None) else Err(OutOfRange)
  {
    var before, tail := Frames(c, items), Frame(c, x)[..n];
    var data := before + tail;
    if n >= HEADER_SIZE {
      Sizes();
      FromToLE(|c.encode(x)|, HEADER_SIZE);
      assert data[|before|..|before| + HEADER_SIZE] == tail[..HEADER_SIZE] == ToLE(|c.encode(x)|, HEADER_SIZE);
    }
  }

  class IterableStoreReader<T(!new)> {
    const codec: Codec<T>
    const data: seq<byte>
    var offset: nat
    ghost var left: seq<T>

    /** The reader stands in front of the framed items `left`. */
    ghost predicate Valid()
      reads this
    {
      Faithful(codec) && offset <= |data| && data[offset..] == Frames(codec, left)
    }

    /** Any bytes will do; `items` is what they are expected to hold. */
    constructor (codec: Codec<T>, data: seq<byte>, ghost items: seq<T>)
      ensures this.codec == codec && this.data == data && left == items && offset == 0
      ensures Faithful(codec) && data == Frames(codec, items) ==> Valid()
    {
      this.codec, this.data, offset, left := codec, data, 0, items;
    }

    method Next() returns (r: Result<Option<T>, Fault>)
      modifies this
      ensures (r, offset) == ReadAt(codec, data, old(offset))
      ensures old(Valid()) ==>
                && Valid()
                && if old(left) == [] then r == Ok(None) && left == [] else r == Ok(Some(old(left)[0])) && left == old(left)[1..]
    {
      hide Faithful, Frames;
      if Valid() {
        ReadsFirst(codec, data, offset, left);
      }
      if left != [] {
        left := left[1..];
      }
      if offset + HEADER_SIZE > |data| {
        return Ok(None);
      }
      var numUpcoming := FromLE(data[offset..offset + HEADER_SIZE]);
      offset := offset + HEADER_SIZE;
      if offset + numUpcoming > |data| {
        return Err(OutOfRange);
      }
      var serialized := data[offset..offset + numUpcoming];
      offset := offset + numUpcoming;
      var item := codec.decode(serialized);
      if item.None? {
        return Err(Undecodable);
      }
      r := Ok(item);
    }

    /** Any range inside the data can be sliced; `items` is what it is expected to hold. */
    method Slice(start: nat, end: nat, ghost items: seq<T>) returns (r: Result<IterableStoreReader<T>, Fault>)
      ensures r.Ok? <==> start <= end <= |data|
      ensures r.Ok? ==>
                && fresh(r.value) && r.value.codec == codec && r.value.data == data[start..end] && r.value.offset == 0
                && r.value.left == items
                && (Faithful(codec) && data[start..end] == Frames(codec, items) ==> r.value.Valid())
    {
      if !(start <= end <= |data|) { return Err(OutOfRange); }
      var slice := new IterableStoreReader(codec, data[start..end], items);
      r := Ok(slice);
    }
  }

  /** Slicing from the start of one item to the start of a later one reads exactly the items in between. */
  method SliceItems<T(!new)>(reader: IterableStoreReader<T>, items: seq<T>, i: nat, j: nat, start: nat, end: nat)
    returns (r: IterableStoreReader<T>)
    requires Faithful(reader.codec) && reader.data == Frames(reader.codec, items) && i <= j <= |items|
    requires start == StartOf(reader.codec, items, i) && end == StartOf(reader.codec, items, j)
    ensures fresh(r) && r.Valid() && r.left == items[i..j]
  {
    hide Faithful, Frames, StartOf;
    SliceIsFrames(reader.codec, items, i, j);
    var slice := reader.Slice(start, end, items[i..j]);
    r := slice.value;
  }

  // ----- whole files -----

  /** Reading a store yields what was written, in order. */
  method WriteThenRead<T(!new)>(codec: Codec<T>, items: seq<T>) returns (read: seq<T>)
    requires Faithful(codec)
    ensures read == items
  {
    hide Frames, Faithful, StartOf;
    var writer := new IterableStoreWriter<T>(codec);
    for i := 0 to |items|
      invariant writer.Valid() && writer.codec == codec && writer.items == items[..i]
    {
      var _ := writer.Write(items[i]);
    }
    assert items[..|items|] == items;
    var reader := new IterableStoreReader(codec, writer.out, items);
    read := [];
    var item := reader.Next();
    while item.Ok? && item.value.Some?
      invariant reader.Valid() && |read| <= |items| && read == items[..|read|]
      invariant item == if |read| < |items| then Ok(Some(items[|read|])) else Ok(None)
      invariant reader.left == if |read| < |items| then items[|read| + 1..] else []
      decreases |items| - |read|
    {
      read := read + [item.value.value];
      item := reader.Next();
    }
  }
}
