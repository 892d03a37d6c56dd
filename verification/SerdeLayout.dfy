/** What the bytes look like: every shape of value is laid out like a simpler one, down to single bytes. */
module SerdeLayout {
  import opened Wrappers
  import opened Bytes
  import Utf8
  import Varint
  import opened SerdeLeaf
  import opened SerdeBincode

  // ----- numbers -----

  /** The bytes after the tag of a wide number, by tag. */
  function TagBytes(tag: byte): nat {
    if tag == 251 then 2 else if tag == 252 then 4 else if tag == 253 then 8 else if tag == 254 then 16 else 0
  }

  /** A number below 251 is its own byte; any other is a tag, the least whose bytes hold it, and those bytes. */
  lemma VarintLayout(n: nat)
    requires n < U128_SIZE
    ensures n < 251 ==> Varint.Encode(n) == [n]
    ensures n >= 251 ==>
              var bs := Varint.Encode(n);
              && 251 <= bs[0] <= 254 && |bs| == 1 + TagBytes(bs[0])
              && n < Pow256(TagBytes(bs[0])) && (bs[0] > 251 ==> n >= Pow256(TagBytes(bs[0] - 1)))
              && (forall i :: 0 <= i < TagBytes(bs[0]) ==> bs[1 + i] == n / Pow256(i) % 256)
  {
    Sizes();
    hide Pow256, ToLE;
    if n >= 251 {
      var k := if n < U16_SIZE then 2 else if n < U32_SIZE then 4 else if n < U64_SIZE then 8 else 16;
      forall i | 0 <= i < k ensures ToLE(n, k)[i] == n / Pow256(i) % 256 {
        LittleEndian(n, k, i);
      }
    }
  }

  /** Any tag that is not too wide is read with its bytes, the shortest form or not; any other is refused. */
  lemma VarintRead(w: Varint.Width, tag: byte, bs: seq<byte>, rest: seq<byte>)
    requires 251 <= tag <= 254 && |bs| == TagBytes(tag)
    ensures Varint.Decode(w, [tag] + bs + rest) == if |bs| <= w.Bytes() then Some((FromLE(bs), rest)) else None
    ensures Varint.Decode(w, [255] + rest) == None
  {
    var all := [tag] + bs + rest;
    assert all[1..1 + |bs|] == bs && all[1 + |bs|..] == rest;
  }

  /** Signed numbers are laid out like unsigned ones: twice their size, less one if negative. */
  lemma SignedLayout(w: Varint.Width, n: int)
    requires 0 <= 2 * n + w.Size() && 2 * n < w.Size()
    ensures var m := if n < 0 then 2 * (-n) - 1 else 2 * n;
            m < w.Size() && EncodeLeaf(SInt(w), NumV(n)) == EncodeLeaf(UInt(w), NumV(m))
  {
  }

  /** Eight bits are their two's complement, floats the little-endian bytes of their bits. */
  lemma FixedLayout(n: int)
    ensures -128 <= n < 128 ==> EncodeLeaf(I8, NumV(n)) == [if n < 0 then n + 256 else n]
    ensures 0 <= n < 256 ==> EncodeLeaf(U8, NumV(n)) == [n]
    ensures 0 <= n < U32_SIZE ==>
              && |EncodeLeaf(F32, NumV(n))| == 4
              && forall i :: 0 <= i < 4 ==> EncodeLeaf(F32, NumV(n))[i] == n / Pow256(i) % 256
    ensures 0 <= n < U64_SIZE ==>
              && |EncodeLeaf(F64, NumV(n))| == 8
              && forall i :: 0 <= i < 8 ==> EncodeLeaf(F64, NumV(n))[i] == n / Pow256(i) % 256
  {
    hide Pow256, ToLE;
    if n >= 0 {
      forall i | 0 <= i < 4 ensures ToLE(n, 4)[i] == n / Pow256(i) % 256 { LittleEndian(n, 4, i); }
      forall i | 0 <= i < 8 ensures ToLE(n, 8)[i] == n / Pow256(i) % 256 { LittleEndian(n, 8, i); }
    }
  }

  // ----- text -----

  /** Bytes are a sequence of bytes, a string is the bytes of its characters, a character is a string without its length. */
  lemma TextLayout(s: string, c: char, bs: seq<byte>)
    requires |Utf8.EncodeString(s)| < U64_SIZE && |bs| < U64_SIZE
    ensures EncodeLeaf(Str, StrV(s)) == EncodeLeaf(ByteBuf, BytesV(Utf8.EncodeString(s)))
    ensures HasSchema(SeqOf(LeafOf(U8)), SeqV(Some(|bs|), ByteValues(bs)))
    ensures Encode(SeqOf(LeafOf(U8)), SeqV(Some(|bs|), ByteValues(bs))) == Ok(EncodeLeaf(ByteBuf, BytesV(bs)))
    ensures Utf8.EncodeString([c]) == EncodeLeaf(Char, CharV(c))
  {
    ByteItems(bs);
    assert [c][1..] == "";
  }

  function ByteValues(bs: seq<byte>): (vs: seq<Value>)
    ensures |vs| == |bs| && forall i :: 0 <= i < |vs| ==> HasSchema(LeafOf(U8), vs[i])
  {
    seq(|bs|, i requires 0 <= i < |bs| => LeafV(NumV(bs[i])))
  }

  lemma {:induction false} ByteItems(bs: seq<byte>)
    ensures EncodeItems(LeafOf(U8), ByteValues(bs)) == Ok(bs)
  {
    if bs != [] {
      assert ByteValues(bs)[1..] == ByteValues(bs[1..]);
      ByteItems(bs[1..]);
      assert [bs[0]] + bs[1..] == bs;
    }
  }

  // ----- values made of values -----

  /** An option as a choice between nothing and the item. */
  function AsVariant(v: Value): Value
    requires v.NoneV? || v.SomeV?
  {
    if v.NoneV? then VariantV(0, UnitV) else VariantV(1, v.v)
  }

  /** An option is written like that choice. */
  lemma OptionWritten(s: Schema, v: Value)
    requires HasSchema(OptionOf(s), v)
    ensures HasSchema(Enum([Unit, s]), AsVariant(v))
    ensures Encode(OptionOf(s), v) == Encode(Enum([Unit, s]), AsVariant(v))
  {
    assert [Unit, s][0] == Unit && [Unit, s][1] == s;
    if v.NoneV? {
      VarintLayout(0);
      assert Varint.Encode(0) + [] == [0];
      assert Encode(Enum([Unit, s]), AsVariant(v)) == Then(Ok(Varint.Encode(0)), Ok([]));
    } else {
      VarintLayout(1);
      assert Encode(Enum([Unit, s]), AsVariant(v)) == Then(Ok(Varint.Encode(1)), Encode(s, v.v));
    }
  }

  /** It is read like it from any bytes, but that its tag is always a single byte. */
  lemma OptionRead(s: Schema, bs: seq<byte>)
    ensures bs == [] || bs[0] < 251 ==>
              match Decode(Enum([Unit, s]), bs)
              case Err(e) => Decode(OptionOf(s), bs) == Err(e)
              case Ok((w, rest)) =>
                && Decode(OptionOf(s), bs).Ok? && Decode(OptionOf(s), bs).value.1 == rest
                && (Decode(OptionOf(s), bs).value.0.NoneV? || Decode(OptionOf(s), bs).value.0.SomeV?)
                && AsVariant(Decode(OptionOf(s), bs).value.0) == w
    ensures bs != [] && bs[0] >= 251 ==> Decode(OptionOf(s), bs) == Err(UnexpectedVariant)
  {
    assert [Unit, s][0] == Unit && [Unit, s][1] == s;
    if bs != [] && bs[0] < 251 {
      assert Varint.Decode(Varint.W32, bs) == Some((bs[0], bs[1..]));
      assert Decode(Unit, bs[1..]) == Ok((UnitV, bs[1..]));
    }
  }

  /** A boolean is a choice between two nothings. */
  lemma BoolLayout(b: bool, bs: seq<byte>)
    ensures HasSchema(Enum([Unit, Unit]), VariantV(if b then 1 else 0, UnitV))
    ensures Ok(EncodeLeaf(Bool, BoolV(b))) == Encode(Enum([Unit, Unit]), VariantV(if b then 1 else 0, UnitV))
    ensures DecodeLeaf(Bool, bs).Some? <==> bs != [] && bs[0] < 251 && Decode(Enum([Unit, Unit]), bs).Ok?
    ensures DecodeLeaf(Bool, bs).Some? ==>
              && DecodeLeaf(Bool, bs).value.0.BoolV?
              && Decode(Enum([Unit, Unit]), bs)
                 == Ok((VariantV(if DecodeLeaf(Bool, bs).value.0.b then 1 else 0, UnitV), DecodeLeaf(Bool, bs).value.1))
  {
    var schema := Enum([Unit, Unit]);
    assert schema.variants[0] == Unit && schema.variants[1] == Unit;
    var i := if b then 1 else 0;
    VarintLayout(i);
    assert [i] + [] == [i];
    assert Encode(schema, VariantV(i, UnitV)) == Then(Ok([i]), Ok([]));
    if bs != [] && bs[0] < 251 {
      assert Varint.Decode(Varint.W32, bs) == Some((bs[0], bs[1..]));
      assert Decode(Unit, bs[1..]) == Ok((UnitV, bs[1..]));
    }
  }

  /** A variant is its index and its content, a newtype its content, a unit nothing. */
  lemma VariantLayout(variants: seq<Schema>, index: nat, content: Value)
    requires index < |variants| && index < U32_SIZE && HasSchema(variants[index], content)
    ensures Encode(Enum(variants), VariantV(index, content))
         == Encode(Tuple([LeafOf(UInt(Varint.W32)), variants[index]]), TupleV([LeafV(NumV(index)), content]))
    ensures Encode(Newtype(variants[index]), NewtypeV(content)) == Encode(Tuple([variants[index]]), TupleV([content]))
    ensures Encode(Unit, UnitV) == Encode(Tuple([]), TupleV([])) == Ok([])
  {
    var s := variants[index];
    var n, tag := LeafOf(UInt(Varint.W32)), LeafV(NumV(index));
    FieldsTwo(n, s, tag, content);
    FieldsOne(s, content);
  }

  lemma FieldsOne(s: Schema, v: Value)
    requires HasSchema(s, v)
    ensures EncodeFields([s], [v]) == Encode(s, v)
  {
    hide Encode, HasSchema;
    assert [s][1..] == [] && [v][1..] == [];
    var e := Encode(s, v);
    assert EncodeFields([s], [v]) == Then(e, EncodeFields([], []));
    if e.Ok? { assert e.value + [] == e.value; }
  }

  lemma FieldsTwo(s: Schema, t: Schema, v: Value, w: Value)
    requires HasSchema(s, v) && HasSchema(t, w)
    ensures EncodeFields([s, t], [v, w]) == Then(Encode(s, v), Encode(t, w))
  {
    hide Encode, HasSchema;
    assert [s, t][1..] == [t] && [v, w][1..] == [w];
    FieldsOne(t, w);
  }

  /** A map entry as a pair. */
  function Pair(e: Entry): Value {
    TupleV([e.key, e.val])
  }

  function Pairs(entries: seq<Entry>): (vs: seq<Value>)
    ensures |vs| == |entries| && forall i :: 0 <= i < |vs| ==> vs[i] == Pair(entries[i])
  {
    seq(|entries|, i requires 0 <= i < |entries| => Pair(entries[i]))
  }

  lemma PairTyped(key: Schema, val: Schema, e: Entry)
    ensures HasSchema(Tuple([key, val]), Pair(e)) <==> EntryTyped(key, val, e)
  {
    assert [key, val][0] == key && [key, val][1] == val;
    var fields := [e.key, e.val];
    assert fields[0] == e.key && fields[1] == e.val;
  }

  lemma PairWritten(key: Schema, val: Schema, e: Entry)
    requires EntryTyped(key, val, e) && HasSchema(Tuple([key, val]), Pair(e))
    ensures Encode(Tuple([key, val]), Pair(e)) == EncodeEntry(key, val, e)
  {
    FieldsTwo(key, val, e.key, e.val);
  }

  lemma {:induction false} PairsWritten(key: Schema, val: Schema, entries: seq<Entry>)
    requires forall i :: 0 <= i < |entries| ==> EntryTyped(key, val, entries[i])
    requires forall i :: 0 <= i < |entries| ==> HasSchema(Tuple([key, val]), Pairs(entries)[i])
    ensures EncodeItems(Tuple([key, val]), Pairs(entries)) == EncodeEntries(key, val, entries)
  {
    hide Encode, HasSchema, EntryTyped, EncodeEntry, Pair;
    if entries != [] {
      assert Pairs(entries)[1..] == Pairs(entries[1..]);
      PairsWritten(key, val, entries[1..]);
      PairWritten(key, val, entries[0]);
    }
  }

  /** A map is written like a sequence of pairs. */
  lemma MapWritten(key: Schema, val: Schema, announced: Option<nat>, entries: seq<Entry>)
    requires HasSchema(MapOf(key, val), MapV(announced, entries))
    ensures HasSchema(SeqOf(Tuple([key, val])), SeqV(announced, Pairs(entries)))
    ensures Encode(MapOf(key, val), MapV(announced, entries)) == Encode(SeqOf(Tuple([key, val])), SeqV(announced, Pairs(entries)))
  {
    hide EntryTyped, Pair;
    forall i | 0 <= i < |entries| ensures HasSchema(Tuple([key, val]), Pairs(entries)[i]) {
      PairTyped(key, val, entries[i]);
    }
    PairsWritten(key, val, entries);
  }

  lemma PairRead(key: Schema, val: Schema, bs: seq<byte>)
    ensures Decode(Tuple([key, val]), bs)
         == match DecodeEntry(key, val, bs) case Err(e) => Err(e) case Ok((e, rest)) => Ok((Pair(e), rest))
  {
    assert [key, val][1..] == [val];
    var k := Decode(key, bs);
    if k.Ok? {
      FieldRead(val, k.value.1);
      var v := Decode(val, k.value.1);
      if v.Ok? {
        assert [k.value.0] + [v.value.0] == [k.value.0, v.value.0];
      }
    }
  }

  lemma FieldRead(s: Schema, bs: seq<byte>)
    ensures DecodeFields([s], bs) == match Decode(s, bs) case Err(e) => Err(e) case Ok((v, rest)) => Ok(([v], rest))
  {
    hide Decode;
    assert [s][1..] == [];
    var v := Decode(s, bs);
    if v.Ok? {
      assert DecodeFields([], v.value.1) == Ok(([], v.value.1));
      assert [v.value.0] + [] == [v.value.0];
    }
  }

  lemma {:induction false} PairsRead(key: Schema, val: Schema, n: nat, bs: seq<byte>)
    ensures DecodeItems(Tuple([key, val]), n, bs)
         == match DecodeEntries(key, val, n, bs) case Err(e) => Err(e) case Ok((es, rest)) => Ok((Pairs(es), rest))
    decreases n
  {
    hide Decode, DecodeEntry, Pair;
    PairRead(key, val, bs);
    if n > 0 && DecodeEntry(key, val, bs).Ok? {
      var (e, rest) := DecodeEntry(key, val, bs).value;
      PairsRead(key, val, n - 1, rest);
      var tail := DecodeEntries(key, val, n - 1, rest);
      if tail.Ok? {
        assert Pairs([e] + tail.value.0) == [Pair(e)] + Pairs(tail.value.0);
      }
    } else if n == 0 {
      assert Pairs([]) == [];
    }
  }

  /** A map is read like a sequence of pairs, from any bytes. */
  lemma MapRead(key: Schema, val: Schema, bs: seq<byte>)
    ensures Decode(SeqOf(Tuple([key, val])), bs)
         == match Decode(MapOf(key, val), bs)
            case Err(e) => Err(e)
            case Ok((m, rest)) => if m.MapV? then Ok((SeqV(m.announced, Pairs(m.entries)), rest)) else Err(Malformed)
  {
    hide Varint.Decode, DecodeEntries, DecodeItems, Pair;
    var len := Varint.Decode(Varint.W64, bs);
    if len.Some? {
      PairsRead(key, val, len.value.0, len.value.1);
    }
  }

  /** A sequence is the length it announces and its items, one after the other. */
  lemma SeqWritten(elem: Schema, n: nat, items: seq<Value>)
    requires HasSchema(SeqOf(elem), SeqV(Some(n), items)) && |items| < U64_SIZE
    ensures var fields := seq(|items|, _ => elem);
            && HasSchema(Tuple(fields), TupleV(items))
            && Encode(SeqOf(elem), SeqV(Some(n), items)) == Then(Ok(Varint.Encode(n)), Encode(Tuple(fields), TupleV(items)))
  {
    ItemsAreFields(elem, items);
  }

  lemma {:induction false} ItemsAreFields(elem: Schema, items: seq<Value>)
    requires forall i :: 0 <= i < |items| ==> HasSchema(elem, items[i])
    ensures EncodeItems(elem, items) == EncodeFields(seq(|items|, _ => elem), items)
  {
    hide Encode, HasSchema;
    if items != [] {
      ItemsAreFields(elem, items[1..]);
      assert seq(|items|, _ => elem)[1..] == seq(|items[1..]|, _ => elem);
    }
  }

  /** The fields of a tuple stand one after the other. */
  lemma TupleWritten(s: seq<Schema>, t: seq<Schema>, v: seq<Value>, w: seq<Value>)
    requires HasSchema(Tuple(s), TupleV(v)) && HasSchema(Tuple(t), TupleV(w))
    ensures HasSchema(Tuple(s + t), TupleV(v + w))
    ensures Encode(Tuple(s + t), TupleV(v + w)) == Then(Encode(Tuple(s), TupleV(v)), Encode(Tuple(t), TupleV(w)))
  {
    FieldsConcat(s, t, v, w);
  }

  lemma {:induction false} FieldsConcat(s: seq<Schema>, t: seq<Schema>, v: seq<Value>, w: seq<Value>)
    requires |s| == |v| && |t| == |w|
    requires forall i :: 0 <= i < |v| ==> HasSchema(s[i], v[i])
    requires forall i :: 0 <= i < |w| ==> HasSchema(t[i], w[i])
    ensures forall i :: 0 <= i < |v + w| ==> HasSchema((s + t)[i], (v + w)[i])
    ensures EncodeFields(s + t, v + w) == Then(EncodeFields(s, v), EncodeFields(t, w))
    decreases |s|
  {
    hide Encode, HasSchema;
    if s == [] {
      assert s + t == t && v + w == w;
      var e := EncodeFields(t, w);
      if e.Ok? { assert [] + e.value == e.value; }
    } else {
      assert (s + t)[1..] == s[1..] + t && (v + w)[1..] == v[1..] + w;
      FieldsConcat(s[1..], t, v[1..], w);
      ThenAssociates(Encode(s[0], v[0]), EncodeFields(s[1..], v[1..]), EncodeFields(t, w));
    }
  }

  lemma ThenAssociates(a: Encoded, b: Encoded, c: Encoded)
    ensures Then(a, Then(b, c)) == Then(Then(a, b), c)
  {
    if a.Ok? && b.Ok? && c.Ok? {
      assert a.value + (b.value + c.value) == a.value + b.value + c.value;
    }
  }
}
