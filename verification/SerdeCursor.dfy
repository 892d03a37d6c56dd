/** The serializer and deserializer as the program runs them: a buffer that grows and a cursor that advances. */
module SerdeCursor {
  import opened Wrappers
  import opened Bytes
  import opened SerdeLeaf
  import opened SerdeBincode
  import Varint

  lemma ThenAssoc(a: seq<byte>, b: seq<byte>, e: Encoded)
    ensures Then(Ok(a), Then(Ok(b), e)) == Then(Ok(a + b), e)
  {
    if e.Ok? { assert a + (b + e.value) == a + b + e.value; }
  }

  class SerdeEncoder {
    var buf: seq<byte>

    constructor ()
      ensures buf == []
    {
      buf := [];
    }

    /** `r` and the new buffer are what writing `e` after `before` gives. */
    ghost predicate Wrote(before: seq<byte>, e: Encoded, r: Result<(), EncodeError>)
      reads this
    {
      match e
      case Ok(bytes) => r == Ok(()) && buf == before + bytes
      case Err(error) => r == Err(error) && before <= buf
    }

    method Serialize(s: Schema, v: Value) returns (r: Result<(), EncodeError>)
      requires HasSchema(s, v)
      modifies this
      ensures Wrote(old(buf), Encode(s, v), r)
      decreases v, 1
    {
      hide EncodeLeaf, Varint.Encode, EncodeItems, EncodeFields, EncodeEntries;
      match s
      case LeafOf(t) =>
        buf := buf + EncodeLeaf(t, v.x);
        r := Ok(());
      case OptionOf(item) =>
        if v.NoneV? {
          buf := buf + [0];
          r := Ok(());
        } else {
          buf := buf + [1];
          r := Serialize(item, v.v);
          ThenAssoc(old(buf), [1], Encode(item, v.v));
        }
      case Unit =>
        r := Ok(());
      case Newtype(inner) =>
        r := Serialize(inner, v.inner);
      case SeqOf(elem) =>
        if v.announced.None? { return Err(SequenceMustHaveLength); }
        buf := buf + Varint.Encode(v.announced.value);
        r := SerializeItems(elem, v.items);
        ThenAssoc(old(buf), Varint.Encode(v.announced.value), EncodeItems(elem, v.items));
      case Tuple(fields) =>
        r := SerializeFields(fields, v.fields);
      case MapOf(key, val) =>
        if v.announced.None? { return Err(SequenceMustHaveLength); }
        buf := buf + Varint.Encode(v.announced.value);
        r := SerializeEntries(key, val, v.entries);
        ThenAssoc(old(buf), Varint.Encode(v.announced.value), EncodeEntries(key, val, v.entries));
      case Enum(variants) =>
        buf := buf + Varint.Encode(v.index);
        r := Serialize(variants[v.index], v.content);
        ThenAssoc(old(buf), Varint.Encode(v.index), Encode(variants[v.index], v.content));
    }

    method SerializeItems(elem: Schema, items: seq<Value>) returns (r: Result<(), EncodeError>)
      requires forall i :: 0 <= i < |items| ==> HasSchema(elem, items[i])
      modifies this
      ensures Wrote(old(buf), EncodeItems(elem, items), r)
      decreases items, 0
    {
      hide HasSchema, Encode, EncodeEntry;
      var i := 0;
      while i < |items|
        invariant 0 <= i <= |items| && old(buf) <= buf
        invariant Then(Ok(old(buf)), EncodeItems(elem, items)) == Then(Ok(buf), EncodeItems(elem, items[i..]))
      {
        ghost var before := buf;
        assert items[i..][1..] == items[i + 1..];
        r := Serialize(elem, items[i]);
        if r.Err? { return; }
        ThenAssoc(before, Encode(elem, items[i]).value, EncodeItems(elem, items[i + 1..]));
        i := i + 1;
      }
      r := Ok(());
    }

    method SerializeFields(schemas: seq<Schema>, fields: seq<Value>) returns (r: Result<(), EncodeError>)
      requires |schemas| == |fields|
      requires forall i :: 0 <= i < |fields| ==> HasSchema(schemas[i], fields[i])
      modifies this
      ensures Wrote(old(buf), EncodeFields(schemas, fields), r)
      decreases fields, 0
    {
      hide HasSchema, Encode, EncodeEntry;
      var i := 0;
      while i < |fields|
        invariant 0 <= i <= |fields| && old(buf) <= buf
        invariant Then(Ok(old(buf)), EncodeFields(schemas, fields)) == Then(Ok(buf), EncodeFields(schemas[i..], fields[i..]))
      {
        ghost var before := buf;
        assert fields[i..][1..] == fields[i + 1..];
        assert schemas[i..][1..] == schemas[i + 1..];
        r := Serialize(schemas[i], fields[i]);
        if r.Err? { return; }
        ThenAssoc(before, Encode(schemas[i], fields[i]).value, EncodeFields(schemas[i + 1..], fields[i + 1..]));
        i := i + 1;
      }
      r := Ok(());
    }

    method SerializeEntries(key: Schema, val: Schema, entries: seq<Entry>) returns (r: Result<(), EncodeError>)
      requires forall i :: 0 <= i < |entries| ==> EntryTyped(key, val, entries[i])
      modifies this
      ensures Wrote(old(buf), EncodeEntries(key, val, entries), r)
      decreases entries, 0
    {
      hide HasSchema, Encode, EncodeEntry;
      var i := 0;
      while i < |entries|
        invariant 0 <= i <= |entries| && old(buf) <= buf
        invariant Then(Ok(old(buf)), EncodeEntries(key, val, entries)) == Then(Ok(buf), EncodeEntries(key, val, entries[i..]))
      {
        ghost var before := buf;
        assert entries[i..][1..] == entries[i + 1..];
        r := SerializeEntry(key, val, entries[i]);
        if r.Err? { return; }
        ThenAssoc(before, EncodeEntry(key, val, entries[i]).value, EncodeEntries(key, val, entries[i + 1..]));
        i := i + 1;
      }
      r := Ok(());
    }

    method SerializeEntry(key: Schema, val: Schema, e: Entry) returns (r: Result<(), EncodeError>)
      requires EntryTyped(key, val, e)
      modifies this
      ensures Wrote(old(buf), EncodeEntry(key, val, e), r)
      decreases e, 0
    {
      hide HasSchema, Encode;
      r := Serialize(key, e.key);
      if r.Err? { return; }
      r := Serialize(val, e.val);
      ThenAssoc(old(buf), Encode(key, e.key).value, Encode(val, e.val));
    }
  }

  class SerdeDecoder {
    /** What is left to read. */
    var rest: seq<byte>

    constructor (input: seq<byte>)
      ensures rest == input
    {
      rest := input;
    }

    /** `r` and the new cursor are what reading gave. */
    ghost predicate Read<T>(d: Decoded<T>, r: Result<T, DecodeError>)
      reads this
    {
      match d
      case Ok((v, left)) => r == Ok(v) && rest == left
      case Err(error) => r == Err(error)
    }

    /** A length or variant index, which moves the cursor on success. */
    method ReadNumber(w: Varint.Width) returns (n: Option<nat>)
      modifies this
      ensures match Varint.Decode(w, old(rest))
              case Some((k, left)) => n == Some(k) && rest == left
              case None => n == None
    {
      var d := Varint.Decode(w, rest);
      if d.None? { return None; }
      rest := d.value.1;
      n := Some(d.value.0);
    }

    method Deserialize(s: Schema) returns (r: Result<Value, DecodeError>)
      modifies this
      ensures Read(Decode(s, old(rest)), r)
      decreases s
    {
      hide DecodeLeaf, Varint.Decode, DecodeItems, DecodeFields, DecodeEntries;
      match s
      case LeafOf(t) =>
        var d := DecodeLeaf(t, rest);
        if d.None? { return Err(Malformed); }
        rest := d.value.1;
        r := Ok(LeafV(d.value.0));
      case OptionOf(item) =>
        if rest == [] { return Err(Malformed); }
        var tag := rest[0];
        rest := rest[1..];
        if tag == 0 { return Ok(NoneV); }
        if tag != 1 { return Err(UnexpectedVariant); }
        r := Deserialize(item);
        if r.Ok? { r := Ok(SomeV(r.value)); }
      case Unit =>
        r := Ok(UnitV);
      case Newtype(inner) =>
        r := Deserialize(inner);
        if r.Ok? { r := Ok(NewtypeV(r.value)); }
      case SeqOf(elem) =>
        var len := ReadNumber(Varint.W64);
        if len.None? { return Err(Malformed); }
        var items := DeserializeItems(elem, len.value);
        r := if items.Err? then Err(items.error) else Ok(SeqV(Some(|items.value|), items.value));
      case Tuple(fields) =>
        var items := DeserializeFields(fields);
        r := if items.Err? then Err(items.error) else Ok(TupleV(items.value));
      case MapOf(key, val) =>
        var len := ReadNumber(Varint.W64);
        if len.None? { return Err(Malformed); }
        var entries := DeserializeEntries(key, val, len.value);
        r := if entries.Err? then Err(entries.error) else Ok(MapV(Some(|entries.value|), entries.value));
      case Enum(variants) =>
        var index := ReadNumber(Varint.W32);
        if index.None? { return Err(Malformed); }
        if index.value >= |variants| { return Err(UnexpectedVariant); }
        r := Deserialize(variants[index.value]);
        if r.Ok? { r := Ok(VariantV(index.value, r.value)); }
      case Any => r := Err(AnyNotSupported);
      case BorrowedStr => r := Err(CannotBorrowOwnedData);
      case Identifier => r := Err(IdentifierNotSupported);
      case IgnoredAny => r := Err(IgnoredAnyNotSupported);
    }

    /** What reading gives once `done` has been read. */
    static ghost function After<T>(done: seq<T>, d: Decoded<seq<T>>): Decoded<seq<T>> {
      if d.Err? then d else Ok((done + d.value.0, d.value.1))
    }

    static lemma AfterNone<T>(d: Decoded<seq<T>>)
      ensures After([], d) == d
    {
      if d.Ok? { assert [] + d.value.0 == d.value.0; }
    }

    static lemma AfterOne<T>(done: seq<T>, x: T, d: Decoded<seq<T>>)
      ensures After(done, After([x], d)) == After(done + [x], d)
    {
      if d.Ok? { assert done + ([x] + d.value.0) == done + [x] + d.value.0; }
    }

    method DeserializeItems(elem: Schema, n: nat) returns (r: Result<seq<Value>, DecodeError>)
      modifies this
      ensures Read(DecodeItems(elem, n, old(rest)), r)
      decreases SeqOf(elem), n
    {
      hide Decode;
      var items, len := [], n;
      AfterNone(DecodeItems(elem, n, rest));
      while len > 0
        invariant 0 <= len <= n
        invariant DecodeItems(elem, n, old(rest)) == After(items, DecodeItems(elem, len, rest))
      {
        len := len - 1;
        var item := Deserialize(elem);
        if item.Err? { return Err(item.error); }
        AfterOne(items, item.value, DecodeItems(elem, len, rest));
        items := items + [item.value];
      }
      assert items + [] == items;
      r := Ok(items);
    }

    method DeserializeFields(schemas: seq<Schema>) returns (r: Result<seq<Value>, DecodeError>)
      modifies this
      ensures Read(DecodeFields(schemas, old(rest)), r)
      decreases schemas
    {
      hide Decode;
      var items, len := [], |schemas|;
      assert schemas[|schemas| - len..] == schemas;
      AfterNone(DecodeFields(schemas, rest));
      while len > 0
        invariant 0 <= len <= |schemas|
        invariant DecodeFields(schemas, old(rest)) == After(items, DecodeFields(schemas[|schemas| - len..], rest))
      {
        assert schemas[|schemas| - len..][1..] == schemas[|schemas| - (len - 1)..];
        len := len - 1;
        var item := Deserialize(schemas[|schemas| - len - 1]);
        if item.Err? { return Err(item.error); }
        AfterOne(items, item.value, DecodeFields(schemas[|schemas| - len..], rest));
        items := items + [item.value];
      }
      assert items + [] == items;
      r := Ok(items);
    }

    method DeserializeEntries(key: Schema, val: Schema, n: nat) returns (r: Result<seq<Entry>, DecodeError>)
      modifies this
      ensures Read(DecodeEntries(key, val, n, old(rest)), r)
      decreases MapOf(key, val), n
    {
      hide Decode;
      var entries, len := [], n;
      AfterNone(DecodeEntries(key, val, n, rest));
      while len > 0
        invariant 0 <= len <= n
        invariant DecodeEntries(key, val, n, old(rest)) == After(entries, DecodeEntries(key, val, len, rest))
      {
        len := len - 1;
        var k := Deserialize(key);
        if k.Err? { return Err(k.error); }
        var v := Deserialize(val);
        if v.Err? { return Err(v.error); }
        AfterOne(entries, Entry(k.value, v.value), DecodeEntries(key, val, len, rest));
        entries := entries + [Entry(k.value, v.value)];
      }
      assert entries + [] == entries;
      r := Ok(entries);
    }
  }

  /** Writing a value and reading the bytes back yields the value and consumes them all. */
  method WriteThenRead(s: Schema, v: Value) returns (r: Result<Value, DecodeError>)
    requires HasSchema(s, v) && Announced(v)
    ensures r == Ok(v)
  {
    hide HasSchema, Announced, Encode, Decode;
    RoundTrip(s, v, []);
    var encoder := new SerdeEncoder();
    var written := encoder.Serialize(s, v);
    var decoder := new SerdeDecoder(encoder.buf);
    assert encoder.buf == Encode(s, v).value + [];
    r := decoder.Deserialize(s);
  }
}
