/**
  The bridge between serde and bincode: values described by a schema are written without any
  description of themselves, and read back by following the schema.
 */
module SerdeBincode {
  import opened Wrappers
  import opened Bytes
  import opened SerdeLeaf
  import opened Varint

  /** What a deserializer asks for. Structs and tuple structs are tuples of their fields; an enum
      lists the contents of its variants; the last four are requests that the bridge refuses. */
  datatype Schema =
    | LeafOf(leaf: LeafType)
    | OptionOf(item: Schema)
    | Unit
    | Newtype(inner: Schema)
    | SeqOf(elem: Schema)
    | Tuple(fields: seq<Schema>)
    | MapOf(key: Schema, val: Schema)
    | Enum(variants: seq<Schema>)
    | Any
    | BorrowedStr
    | Identifier
    | IgnoredAny

  /** Sequences and maps carry the length that they announce to the serializer, if any. */
  datatype Value =
    | LeafV(x: Leaf)
    | NoneV
    | SomeV(v: Value)
    | UnitV
    | NewtypeV(inner: Value)
    | SeqV(announced: Option<nat>, items: seq<Value>)
    | TupleV(fields: seq<Value>)
    | MapV(announced: Option<nat>, entries: seq<Entry>)
    | VariantV(index: nat, content: Value)

  datatype Entry = Entry(key: Value, val: Value)

  datatype EncodeError = SequenceMustHaveLength

  datatype DecodeError =
    | Malformed
    | UnexpectedVariant
    | AnyNotSupported
    | CannotBorrowOwnedData
    | IdentifierNotSupported
    | IgnoredAnyNotSupported

  /** A length that can be announced is a 64-bit number. */
  predicate IsLength(n: Option<nat>) {
    n.Some? ==> n.value < U64_SIZE
  }

  /** `v` is a value of the type that `s` describes. */
  ghost predicate HasSchema(s: Schema, v: Value)
    decreases v
  {
    match s
    case LeafOf(t) => v.LeafV? && Typed(t, v.x)
    case OptionOf(item) => v.NoneV? || (v.SomeV? && HasSchema(item, v.v))
    case Unit => v.UnitV?
    case Newtype(inner) => v.NewtypeV? && HasSchema(inner, v.inner)
    case SeqOf(elem) =>
      && v.SeqV? && |v.items| < U64_SIZE && IsLength(v.announced)
      && (forall i :: 0 <= i < |v.items| ==> HasSchema(elem, v.items[i]))
    case Tuple(fields) =>
      && v.TupleV? && |v.fields| == |fields|
      && (forall i :: 0 <= i < |fields| ==> HasSchema(fields[i], v.fields[i]))
    case MapOf(key, val) =>
      && v.MapV? && |v.entries| < U64_SIZE && IsLength(v.announced)
      && (forall i :: 0 <= i < |v.entries| ==> EntryTyped(key, val, v.entries[i]))
    case Enum(variants) =>
      && v.VariantV? && v.index < |variants| && v.index < U32_SIZE
      && HasSchema(variants[v.index], v.content)
    case _ => false
  }

  ghost predicate EntryTyped(key: Schema, val: Schema, e: Entry)
    decreases e
  {
    HasSchema(key, e.key) && HasSchema(val, e.val)
  }

  /** Every sequence and map in `v` announces its own length. */
  ghost predicate Announced(v: Value)
    decreases v
  {
    match v
    case SomeV(w) => Announced(w)
    case NewtypeV(w) => Announced(w)
    case SeqV(n, items) => n == Some(|items|) && (forall i :: 0 <= i < |items| ==> Announced(items[i]))
    case TupleV(fields) => forall i :: 0 <= i < |fields| ==> Announced(fields[i])
    case MapV(n, entries) =>
      && n == Some(|entries|)
      && (forall i :: 0 <= i < |entries| ==> EntryAnnounced(entries[i]))
    case VariantV(_, w) => Announced(w)
    case _ => true
  }

  ghost predicate EntryAnnounced(e: Entry)
    decreases e
  {
    Announced(e.key) && Announced(e.val)
  }

  // ----- writing -----

  type Encoded = Result<seq<byte>, EncodeError>

  function Then(first: Encoded, second: Encoded): Encoded {
    if first.Err? then first else if second.Err? then second else Ok(first.value + second.value)
  }

  function Encode(s: Schema, v: Value): Encoded
    requires HasSchema(s, v)
    decreases v, 1
  {
    match s
    case LeafOf(t) => Ok(EncodeLeaf(t, v.x))
    case OptionOf(item) => if v.NoneV? then Ok([0]) else Then(Ok([1]), Encode(item, v.v))
    case Unit => Ok([])
    case Newtype(inner) => Encode(inner, v.inner)
    case SeqOf(elem) =>
      if v.announced.None? then Err(SequenceMustHaveLength)
      else Then(Ok(Varint.Encode(v.announced.value)), EncodeItems(elem, v.items))
    case Tuple(fields) => EncodeFields(fields, v.fields)
    case MapOf(key, val) =>
      if v.announced.None? then Err(SequenceMustHaveLength)
      else Then(Ok(Varint.Encode(v.announced.value)), EncodeEntries(key, val, v.entries))
    case Enum(variants) => Then(Ok(Varint.Encode(v.index)), Encode(variants[v.index], v.content))
  }

  function EncodeItems(elem: Schema, items: seq<Value>): Encoded
    requires forall i :: 0 <= i < |items| ==> HasSchema(elem, items[i])
    decreases items, 0
  {
    if items == [] then Ok([])
    else Then(Encode(elem, items[0]), EncodeItems(elem, items[1..]))
  }

  function EncodeFields(schemas: seq<Schema>, fields: seq<Value>): Encoded
    requires |schemas| == |fields|
    requires forall i :: 0 <= i < |fields| ==> HasSchema(schemas[i], fields[i])
    decreases fields, 0
  {
    if fields == [] then Ok([])
    else Then(Encode(schemas[0], fields[0]), EncodeFields(schemas[1..], fields[1..]))
  }

  function EncodeEntries(key: Schema, val: Schema, entries: seq<Entry>): Encoded
    requires forall i :: 0 <= i < |entries| ==> EntryTyped(key, val, entries[i])
    decreases entries, 0
  {
    if entries == [] then Ok([])
    else Then(EncodeEntry(key, val, entries[0]), EncodeEntries(key, val, entries[1..]))
  }

  function EncodeEntry(key: Schema, val: Schema, e: Entry): Encoded
    requires EntryTyped(key, val, e)
    decreases e, 0
  {
    Then(Encode(key, e.key), Encode(val, e.val))
  }

  // ----- reading -----

  type Decoded<T> = Result<(T, seq<byte>), DecodeError>

  function Decode(s: Schema, bs: seq<byte>): Decoded<Value>
    decreases s
  {
    match s
    case LeafOf(t) =>
      var r := DecodeLeaf(t, bs);
      if r.None? then Err(Malformed) else Ok((LeafV(r.value.0), r.value.1))
    case OptionOf(item) =>
      if bs == [] then Err(Malformed)
      else if bs[0] == 0 then Ok((NoneV, bs[1..]))
      else if bs[0] == 1 then
        var r := Decode(item, bs[1..]);
        if r.Err? then Err(r.error) else Ok((SomeV(r.value.0), r.value.1))
      else Err(UnexpectedVariant)
    case Unit => Ok((UnitV, bs))
    case Newtype(inner) =>
      var r := Decode(inner, bs);
      if r.Err? then Err(r.error) else Ok((NewtypeV(r.value.0), r.value.1))
    case SeqOf(elem) =>
      var len := Varint.Decode(W64, bs);
      if len.None? then Err(Malformed)
      else
        var r := DecodeItems(elem, len.value.0, len.value.1);
        if r.Err? then Err(r.error) else Ok((SeqV(Some(|r.value.0|), r.value.0), r.value.1))
    case Tuple(fields) =>
      var r := DecodeFields(fields, bs);
      if r.Err? then Err(r.error) else Ok((TupleV(r.value.0), r.value.1))
    case MapOf(key, val) =>
      var len := Varint.Decode(W64, bs);
      if len.None? then Err(Malformed)
      else
        var r := DecodeEntries(key, val, len.value.0, len.value.1);
        if r.Err? then Err(r.error) else Ok((MapV(Some(|r.value.0|), r.value.0), r.value.1))
    case Enum(variants) =>
      var index := Varint.Decode(W32, bs);
      if index.None? then Err(Malformed)
      else if index.value.0 >= |variants| then Err(UnexpectedVariant)
      else
        var r := Decode(variants[index.value.0], index.value.1);
        if r.Err? then Err(r.error) else Ok((VariantV(index.value.0, r.value.0), r.value.1))
    case Any => Err(AnyNotSupported)
    case BorrowedStr => Err(CannotBorrowOwnedData)
    case Identifier => Err(IdentifierNotSupported)
    case IgnoredAny => Err(IgnoredAnyNotSupported)
  }

  /** `n` elements, one after the other. */
  function DecodeItems(elem: Schema, n: nat, bs: seq<byte>): Decoded<seq<Value>>
    decreases SeqOf(elem), n
  {
    if n == 0 then Ok(([], bs))
    else
      var head := Decode(elem, bs);
      if head.Err? then Err(head.error)
      else
        var tail := DecodeItems(elem, n - 1, head.value.1);
        if tail.Err? then Err(tail.error) else Ok(([head.value.0] + tail.value.0, tail.value.1))
  }

  function DecodeFields(schemas: seq<Schema>, bs: seq<byte>): Decoded<seq<Value>>
    decreases schemas
  {
    if schemas == [] then Ok(([], bs))
    else
      var head := Decode(schemas[0], bs);
      if head.Err? then Err(head.error)
      else
        var tail := DecodeFields(schemas[1..], head.value.1);
        if tail.Err? then Err(tail.error) else Ok(([head.value.0] + tail.value.0, tail.value.1))
  }

  function DecodeEntries(key: Schema, val: Schema, n: nat, bs: seq<byte>): Decoded<seq<Entry>>
    decreases MapOf(key, val), 1, n
  {
    if n == 0 then Ok(([], bs))
    else
      var head := DecodeEntry(key, val, bs);
      if head.Err? then Err(head.error)
      else
        var tail := DecodeEntries(key, val, n - 1, head.value.1);
        if tail.Err? then Err(tail.error) else Ok(([head.value.0] + tail.value.0, tail.value.1))
  }

  function DecodeEntry(key: Schema, val: Schema, bs: seq<byte>): Decoded<Entry>
    decreases MapOf(key, val), 0
  {
    var k := Decode(key, bs);
    if k.Err? then Err(k.error)
    else
      var v := Decode(val, k.value.1);
      if v.Err? then Err(v.error) else Ok((Entry(k.value.0, v.value.0), v.value.1))
  }

  // ----- reading undoes writing -----

  /** A value whose sequences announce their lengths can be written. */
  lemma {:induction false} EncodeSucceeds(s: Schema, v: Value)
    requires HasSchema(s, v) && Announced(v)
    ensures Encode(s, v).Ok?
    decreases v, 1
  {
    match s
    case LeafOf(_) =>
    case OptionOf(item) => if v.SomeV? { EncodeSucceeds(item, v.v); }
    case Unit =>
    case Newtype(inner) => EncodeSucceeds(inner, v.inner);
    case SeqOf(elem) => ItemsSucceed(elem, v.items);
    case Tuple(fields) => FieldsSucceed(fields, v.fields);
    case MapOf(key, val) => EntriesSucceed(key, val, v.entries);
    case Enum(variants) => EncodeSucceeds(variants[v.index], v.content);
  }

  lemma {:induction false} ItemsSucceed(elem: Schema, items: seq<Value>)
    requires forall i :: 0 <= i < |items| ==> HasSchema(elem, items[i]) && Announced(items[i])
    ensures EncodeItems(elem, items).Ok?
    decreases items, 0
  {
    if items != [] {
      EncodeSucceeds(elem, items[0]);
      ItemsSucceed(elem, items[1..]);
    }
  }

  lemma {:induction false} FieldsSucceed(schemas: seq<Schema>, fields: seq<Value>)
    requires |schemas| == |fields|
    requires forall i :: 0 <= i < |fields| ==> HasSchema(schemas[i], fields[i]) && Announced(fields[i])
    ensures EncodeFields(schemas, fields).Ok?
    decreases fields, 0
  {
    if fields != [] {
      EncodeSucceeds(schemas[0], fields[0]);
      FieldsSucceed(schemas[1..], fields[1..]);
    }
  }

  lemma {:induction false} EntriesSucceed(key: Schema, val: Schema, entries: seq<Entry>)
    requires forall i :: 0 <= i < |entries| ==> EntryTyped(key, val, entries[i])
    requires forall i :: 0 <= i < |entries| ==> EntryAnnounced(entries[i])
    ensures EncodeEntries(key, val, entries).Ok?
    decreases entries, 0
  {
    if entries != [] {
      EntrySucceeds(key, val, entries[0]);
      EntriesSucceed(key, val, entries[1..]);
    }
  }

  lemma EntrySucceeds(key: Schema, val: Schema, e: Entry)
    requires EntryTyped(key, val, e) && EntryAnnounced(e)
    ensures EncodeEntry(key, val, e).Ok?
    decreases e, 0
  {
    EncodeSucceeds(key, e.key);
    EncodeSucceeds(val, e.val);
  }

  /** Reading what was written returns the value and leaves exactly what follows it. */
  lemma {:induction false} RoundTrip(s: Schema, v: Value, rest: seq<byte>)
    requires HasSchema(s, v) && Announced(v)
    ensures Encode(s, v).Ok? && Decode(s, Encode(s, v).value + rest) == Ok((v, rest))
    decreases v, 1
  {
    hide EncodeLeaf, DecodeLeaf, Typed, Varint.Encode, Varint.Decode;
    EncodeSucceeds(s, v);
    var bs := Encode(s, v).value + rest;
    match s
    case LeafOf(t) => LeafRoundTrip(t, v.x, rest);
    case OptionOf(item) =>
      if v.SomeV? {
        RoundTrip(item, v.v, rest);
        assert bs[1..] == Encode(item, v.v).value + rest;
      }
    case Unit => assert bs == rest;
    case Newtype(inner) => RoundTrip(inner, v.inner, rest);
    case SeqOf(elem) =>
      ItemsSucceed(elem, v.items);
      var items := EncodeItems(elem, v.items).value;
      assert bs == Varint.Encode(|v.items|) + (items + rest);
      Varint.RoundTrip(W64, |v.items|, items + rest);
      ItemsRoundTrip(elem, v.items, rest);
    case Tuple(fields) => FieldsRoundTrip(fields, v.fields, rest);
    case MapOf(key, val) =>
      EntriesSucceed(key, val, v.entries);
      var entries := EncodeEntries(key, val, v.entries).value;
      assert bs == Varint.Encode(|v.entries|) + (entries + rest);
      Varint.RoundTrip(W64, |v.entries|, entries + rest);
      EntriesRoundTrip(key, val, v.entries, rest);
    case Enum(variants) =>
      RoundTrip(variants[v.index], v.content, rest);
      var content := Encode(variants[v.index], v.content).value;
      assert bs == Varint.Encode(v.index) + (content + rest);
      Varint.RoundTrip(W32, v.index, content + rest);
  }

  lemma {:induction false} ItemsRoundTrip(elem: Schema, items: seq<Value>, rest: seq<byte>)
    requires forall i :: 0 <= i < |items| ==> HasSchema(elem, items[i]) && Announced(items[i])
    ensures EncodeItems(elem, items).Ok?
    ensures DecodeItems(elem, |items|, EncodeItems(elem, items).value + rest) == Ok((items, rest))
    decreases items, 0
  {
    hide HasSchema, Announced, Encode, Decode;
    ItemsSucceed(elem, items);
    if items == [] {
      assert EncodeItems(elem, items).value + rest == rest;
    } else {
      var tail := EncodeItems(elem, items[1..]).value + rest;
      RoundTrip(elem, items[0], tail);
      ItemsRoundTrip(elem, items[1..], rest);
      assert EncodeItems(elem, items).value + rest == Encode(elem, items[0]).value + tail;
      assert [items[0]] + items[1..] == items;
    }
  }

  lemma {:induction false} FieldsRoundTrip(schemas: seq<Schema>, fields: seq<Value>, rest: seq<byte>)
    requires |schemas| == |fields|
    requires forall i :: 0 <= i < |fields| ==> HasSchema(schemas[i], fields[i]) && Announced(fields[i])
    ensures EncodeFields(schemas, fields).Ok?
    ensures DecodeFields(schemas, EncodeFields(schemas, fields).value + rest) == Ok((fields, rest))
    decreases fields, 0
  {
    hide HasSchema, Announced, Encode, Decode;
    FieldsSucceed(schemas, fields);
    if fields == [] {
      assert EncodeFields(schemas, fields).value + rest == rest;
    } else {
      var tail := EncodeFields(schemas[1..], fields[1..]).value + rest;
      RoundTrip(schemas[0], fields[0], tail);
      FieldsRoundTrip(schemas[1..], fields[1..], rest);
      assert EncodeFields(schemas, fields).value + rest == Encode(schemas[0], fields[0]).value + tail;
      assert [fields[0]] + fields[1..] == fields;
    }
  }

  lemma {:induction false} EntriesRoundTrip(key: Schema, val: Schema, entries: seq<Entry>, rest: seq<byte>)
    requires forall i :: 0 <= i < |entries| ==> EntryTyped(key, val, entries[i])
    requires forall i :: 0 <= i < |entries| ==> EntryAnnounced(entries[i])
    ensures EncodeEntries(key, val, entries).Ok?
    ensures DecodeEntries(key, val, |entries|, EncodeEntries(key, val, entries).value + rest) == Ok((entries, rest))
    decreases entries, 0
  {
    hide EntryTyped, EntryAnnounced, HasSchema, Announced, Encode, Decode, EncodeEntry, DecodeEntry, EncodeEntries, DecodeEntries;
    EntriesSucceed(key, val, entries);
    if entries == [] {
      NoEntries(key, val, rest);
    } else {
      var e, others := entries[0], entries[1..];
      FirstEntryWritten(key, val, entries, rest);
      var tail := EncodeEntries(key, val, others).value + rest;
      EntryRoundTrip(key, val, e, tail);
      EntriesRoundTrip(key, val, others, rest);
      FirstEntryRead(key, val, |entries|, EncodeEntry(key, val, e).value + tail);
      assert [e] + others == entries;
    }
  }

  lemma NoEntries(key: Schema, val: Schema, rest: seq<byte>)
    ensures EncodeEntries(key, val, []) == Ok([]) && DecodeEntries(key, val, 0, [] + rest) == Ok(([], rest))
  {
    assert [] + rest == rest;
  }

  lemma FirstEntryWritten(key: Schema, val: Schema, entries: seq<Entry>, rest: seq<byte>)
    requires forall i :: 0 <= i < |entries| ==> EntryTyped(key, val, entries[i])
    requires entries != [] && EncodeEntries(key, val, entries).Ok?
    ensures EncodeEntry(key, val, entries[0]).Ok? && EncodeEntries(key, val, entries[1..]).Ok?
    ensures EncodeEntries(key, val, entries).value + rest
         == EncodeEntry(key, val, entries[0]).value + (EncodeEntries(key, val, entries[1..]).value + rest)
  {
    hide EntryTyped, EncodeEntry;
  }

  lemma FirstEntryRead(key: Schema, val: Schema, n: nat, bs: seq<byte>)
    requires n > 0 && DecodeEntry(key, val, bs).Ok?
    ensures var head := DecodeEntry(key, val, bs).value;
            var tail := DecodeEntries(key, val, n - 1, head.1);
            tail.Ok? ==> DecodeEntries(key, val, n, bs) == Ok(([head.0] + tail.value.0, tail.value.1))
  {
    hide DecodeEntry;
  }

  lemma EntryRoundTrip(key: Schema, val: Schema, e: Entry, rest: seq<byte>)
    requires EntryTyped(key, val, e) && EntryAnnounced(e)
    ensures EncodeEntry(key, val, e).Ok?
    ensures DecodeEntry(key, val, EncodeEntry(key, val, e).value + rest) == Ok((e, rest))
    decreases e, 0
  {
    hide HasSchema, Announced, Encode, Decode;
    EntrySucceeds(key, val, e);
    EncodeSucceeds(key, e.key);
    EncodeSucceeds(val, e.val);
    var tail := Encode(val, e.val).value + rest;
    RoundTrip(key, e.key, tail);
    RoundTrip(val, e.val, rest);
    assert EncodeEntry(key, val, e).value + rest == Encode(key, e.key).value + tail;
  }

  // ----- what can be read -----

  /** Whatever is read is a value of the schema that announces its lengths. */
  lemma {:induction false} DecodedHasSchema(s: Schema, bs: seq<byte>)
    requires Decode(s, bs).Ok?
    ensures HasSchema(s, Decode(s, bs).value.0) && Announced(Decode(s, bs).value.0)
    decreases s
  {
    hide DecodeLeaf, Typed, Varint.Decode, DecodeItems, DecodeFields, DecodeEntries;
    match s
    case LeafOf(t) => DecodedLeafTyped(t, bs);
    case OptionOf(item) => if bs[0] == 1 { DecodedHasSchema(item, bs[1..]); }
    case Unit =>
    case Newtype(inner) => DecodedHasSchema(inner, bs);
    case SeqOf(elem) =>
      var len := Varint.Decode(W64, bs).value;
      ItemsHaveSchema(elem, len.0, len.1);
    case Tuple(fields) => FieldsHaveSchema(fields, bs);
    case MapOf(key, val) =>
      var len := Varint.Decode(W64, bs).value;
      EntriesHaveSchema(key, val, len.0, len.1);
    case Enum(variants) =>
      var index := Varint.Decode(W32, bs).value;
      DecodedHasSchema(variants[index.0], index.1);
  }

  lemma {:induction false} ItemsHaveSchema(elem: Schema, n: nat, bs: seq<byte>)
    requires DecodeItems(elem, n, bs).Ok?
    ensures var items := DecodeItems(elem, n, bs).value.0;
            |items| == n && forall i :: 0 <= i < n ==> HasSchema(elem, items[i]) && Announced(items[i])
    decreases SeqOf(elem), n
  {
    hide HasSchema, Announced, Decode;
    if n > 0 {
      DecodedHasSchema(elem, bs);
      ItemsHaveSchema(elem, n - 1, Decode(elem, bs).value.1);
    }
  }

  lemma {:induction false} FieldsHaveSchema(schemas: seq<Schema>, bs: seq<byte>)
    requires DecodeFields(schemas, bs).Ok?
    ensures var fields := DecodeFields(schemas, bs).value.0;
            |fields| == |schemas| &&
            forall i :: 0 <= i < |fields| ==> HasSchema(schemas[i], fields[i]) && Announced(fields[i])
    decreases schemas
  {
    hide HasSchema, Announced, Decode;
    if schemas != [] {
      DecodedHasSchema(schemas[0], bs);
      FieldsHaveSchema(schemas[1..], Decode(schemas[0], bs).value.1);
    }
  }

  lemma {:induction false} EntriesHaveSchema(key: Schema, val: Schema, n: nat, bs: seq<byte>)
    requires DecodeEntries(key, val, n, bs).Ok?
    ensures var entries := DecodeEntries(key, val, n, bs).value.0;
            && |entries| == n
            && (forall i :: 0 <= i < n ==> EntryTyped(key, val, entries[i]))
            && (forall i :: 0 <= i < n ==> EntryAnnounced(entries[i]))
    decreases MapOf(key, val), n
  {
    hide HasSchema, Announced, Decode;
    if n > 0 {
      DecodedHasSchema(key, bs);
      DecodedHasSchema(val, Decode(key, bs).value.1);
      EntriesHaveSchema(key, val, n - 1, DecodeEntry(key, val, bs).value.1);
    }
  }

  // ----- what an announced length is for -----

  /** The same contents, whatever lengths were announced. */
  ghost predicate Same(v: Value, w: Value)
    decreases v
  {
    match v
    case LeafV(x) => w == v
    case NoneV => w.NoneV?
    case SomeV(v1) => w.SomeV? && Same(v1, w.v)
    case UnitV => w.UnitV?
    case NewtypeV(v1) => w.NewtypeV? && Same(v1, w.inner)
    case SeqV(_, items) => w.SeqV? && |w.items| == |items| && forall i :: 0 <= i < |items| ==> Same(items[i], w.items[i])
    case TupleV(fields) => w.TupleV? && |w.fields| == |fields| && forall i :: 0 <= i < |fields| ==> Same(fields[i], w.fields[i])
    case MapV(_, entries) => w.MapV? && |w.entries| == |entries| && forall i :: 0 <= i < |entries| ==> SameEntry(entries[i], w.entries[i])
    case VariantV(index, v1) => w.VariantV? && w.index == index && Same(v1, w.content)
  }

  ghost predicate SameEntry(d: Entry, e: Entry)
    decreases d
  {
    Same(d.key, e.key) && Same(d.val, e.val)
  }

  lemma {:induction false} SameAsItself(v: Value)
    ensures Same(v, v)
    decreases v
  {
    match v
    case SomeV(w) => SameAsItself(w);
    case NewtypeV(w) => SameAsItself(w);
    case SeqV(_, items) => forall i | 0 <= i < |items| ensures Same(items[i], items[i]) { SameAsItself(items[i]); }
    case TupleV(fields) => forall i | 0 <= i < |fields| ensures Same(fields[i], fields[i]) { SameAsItself(fields[i]); }
    case MapV(_, entries) =>
      forall i | 0 <= i < |entries| ensures SameEntry(entries[i], entries[i]) {
        SameAsItself(entries[i].key);
        SameAsItself(entries[i].val);
      }
    case VariantV(_, w) => SameAsItself(w);
    case _ =>
  }

  /** A value whose contents come back announced its lengths. */
  lemma {:induction false} SameMeansAnnounced(s: Schema, v: Value, rest: seq<byte>)
    requires HasSchema(s, v) && Encode(s, v).Ok? && Decode(s, Encode(s, v).value + rest).Ok?
    requires Same(v, Decode(s, Encode(s, v).value + rest).value.0)
    ensures Announced(v)
    decreases v, 1
  {
    hide DecodeLeaf, EncodeLeaf, Typed, Varint.Encode, Varint.Decode, EncodeItems, EncodeFields, EncodeEntries,
         DecodeItems, DecodeFields, DecodeEntries;
    var bs := Encode(s, v).value + rest;
    match s
    case LeafOf(t) =>
    case OptionOf(item) =>
      if v.SomeV? {
        assert bs[1..] == Encode(item, v.v).value + rest;
        SameMeansAnnounced(item, v.v, rest);
      }
    case Unit =>
    case Newtype(inner) => SameMeansAnnounced(inner, v.inner, rest);
    case SeqOf(elem) =>
      var items := EncodeItems(elem, v.items).value;
      assert bs == Varint.Encode(v.announced.value) + (items + rest);
      Varint.RoundTrip(W64, v.announced.value, items + rest);
      ItemsHaveSchema(elem, v.announced.value, items + rest);
      SameItemsAnnounced(elem, v.items, rest);
    case Tuple(fields) => SameFieldsAnnounced(fields, v.fields, rest);
    case MapOf(key, val) =>
      var entries := EncodeEntries(key, val, v.entries).value;
      assert bs == Varint.Encode(v.announced.value) + (entries + rest);
      Varint.RoundTrip(W64, v.announced.value, entries + rest);
      EntriesHaveSchema(key, val, v.announced.value, entries + rest);
      SameEntriesAnnounced(key, val, v.entries, rest);
    case Enum(variants) =>
      var content := Encode(variants[v.index], v.content).value;
      assert bs == Varint.Encode(v.index) + (content + rest);
      Varint.RoundTrip(W32, v.index, content + rest);
      SameMeansAnnounced(variants[v.index], v.content, rest);
  }

  lemma {:induction false} SameItemsAnnounced(elem: Schema, items: seq<Value>, rest: seq<byte>)
    requires forall i :: 0 <= i < |items| ==> HasSchema(elem, items[i])
    requires EncodeItems(elem, items).Ok? && DecodeItems(elem, |items|, EncodeItems(elem, items).value + rest).Ok?
    requires var read := DecodeItems(elem, |items|, EncodeItems(elem, items).value + rest).value.0;
             |read| == |items| && forall i :: 0 <= i < |items| ==> Same(items[i], read[i])
    ensures forall i :: 0 <= i < |items| ==> Announced(items[i])
    decreases items, 0
  {
    hide HasSchema, Announced, Encode, Decode, Same;
    if items != [] {
      var tail := EncodeItems(elem, items[1..]).value + rest;
      assert EncodeItems(elem, items).value + rest == Encode(elem, items[0]).value + tail;
      SameMeansAnnounced(elem, items[0], tail);
      RoundTrip(elem, items[0], tail);
      SameItemsAnnounced(elem, items[1..], rest);
    }
  }

  lemma {:induction false} SameFieldsAnnounced(schemas: seq<Schema>, fields: seq<Value>, rest: seq<byte>)
    requires |schemas| == |fields|
    requires forall i :: 0 <= i < |fields| ==> HasSchema(schemas[i], fields[i])
    requires EncodeFields(schemas, fields).Ok? && DecodeFields(schemas, EncodeFields(schemas, fields).value + rest).Ok?
    requires var read := DecodeFields(schemas, EncodeFields(schemas, fields).value + rest).value.0;
             |read| == |fields| && forall i :: 0 <= i < |fields| ==> Same(fields[i], read[i])
    ensures forall i :: 0 <= i < |fields| ==> Announced(fields[i])
    decreases fields, 0
  {
    hide HasSchema, Announced, Encode, Decode, Same;
    if fields != [] {
      var tail := EncodeFields(schemas[1..], fields[1..]).value + rest;
      assert EncodeFields(schemas, fields).value + rest == Encode(schemas[0], fields[0]).value + tail;
      SameMeansAnnounced(schemas[0], fields[0], tail);
      RoundTrip(schemas[0], fields[0], tail);
      SameFieldsAnnounced(schemas[1..], fields[1..], rest);
    }
  }

  lemma {:induction false} SameEntriesAnnounced(key: Schema, val: Schema, entries: seq<Entry>, rest: seq<byte>)
    requires forall i :: 0 <= i < |entries| ==> EntryTyped(key, val, entries[i])
    requires EncodeEntries(key, val, entries).Ok?
    requires DecodeEntries(key, val, |entries|, EncodeEntries(key, val, entries).value + rest).Ok?
    requires var read := DecodeEntries(key, val, |entries|, EncodeEntries(key, val, entries).value + rest).value.0;
             |read| == |entries| && forall i :: 0 <= i < |entries| ==> SameEntry(entries[i], read[i])
    ensures forall i :: 0 <= i < |entries| ==> EntryAnnounced(entries[i])
    decreases entries, 0
  {
    hide EntryTyped, EntryAnnounced, Encode, Decode, SameEntry, EncodeEntry, DecodeEntry, EncodeEntries, DecodeEntries;
    if entries != [] {
      FirstEntryWritten(key, val, entries, rest);
      var tail := EncodeEntries(key, val, entries[1..]).value + rest;
      FirstEntryParts(key, val, |entries|, EncodeEntry(key, val, entries[0]).value + tail);
      SameEntryAnnounced(key, val, entries[0], tail);
      EntryRoundTrip(key, val, entries[0], tail);
      SameEntriesAnnounced(key, val, entries[1..], rest);
    }
  }

  lemma FirstEntryParts(key: Schema, val: Schema, n: nat, bs: seq<byte>)
    requires n > 0 && DecodeEntries(key, val, n, bs).Ok?
    ensures DecodeEntry(key, val, bs).Ok?
    ensures var head := DecodeEntry(key, val, bs).value;
            var tail := DecodeEntries(key, val, n - 1, head.1);
            tail.Ok? && DecodeEntries(key, val, n, bs).value.0 == [head.0] + tail.value.0
  {
    hide DecodeEntry;
  }

  lemma {:induction false} SameEntryAnnounced(key: Schema, val: Schema, e: Entry, rest: seq<byte>)
    requires EntryTyped(key, val, e) && EncodeEntry(key, val, e).Ok?
    requires DecodeEntry(key, val, EncodeEntry(key, val, e).value + rest).Ok?
    requires SameEntry(e, DecodeEntry(key, val, EncodeEntry(key, val, e).value + rest).value.0)
    ensures EntryAnnounced(e)
    decreases e, 0
  {
    hide HasSchema, Announced, Encode, Decode, Same;
    var tail := Encode(val, e.val).value + rest;
    assert EncodeEntry(key, val, e).value + rest == Encode(key, e.key).value + tail;
    SameMeansAnnounced(key, e.key, tail);
    RoundTrip(key, e.key, tail);
    SameMeansAnnounced(val, e.val, rest);
  }

  /** The contents of a value survive being written and read exactly when every sequence and map in it
      announces its own length. */
  lemma RoundTripIff(s: Schema, v: Value, rest: seq<byte>)
    requires HasSchema(s, v)
    ensures Announced(v)
       <==> && Encode(s, v).Ok?
            && Decode(s, Encode(s, v).value + rest).Ok?
            && Same(v, Decode(s, Encode(s, v).value + rest).value.0)
  {
    hide HasSchema, Announced, Encode, Decode, Same;
    if Announced(v) {
      RoundTrip(s, v, rest);
      SameAsItself(v);
    } else if Encode(s, v).Ok? && Decode(s, Encode(s, v).value + rest).Ok? {
      if Same(v, Decode(s, Encode(s, v).value + rest).value.0) {
        SameMeansAnnounced(s, v, rest);
      }
    }
  }

  lemma {:induction false} ItemsConcat(elem: Schema, a: seq<Value>, b: seq<Value>)
    requires forall i :: 0 <= i < |a| ==> HasSchema(elem, a[i]) && Announced(a[i])
    requires forall i :: 0 <= i < |b| ==> HasSchema(elem, b[i]) && Announced(b[i])
    ensures forall i :: 0 <= i < |a + b| ==> HasSchema(elem, (a + b)[i]) && Announced((a + b)[i])
    ensures EncodeItems(elem, a).Ok? && EncodeItems(elem, b).Ok?
    ensures EncodeItems(elem, a + b) == Ok(EncodeItems(elem, a).value + EncodeItems(elem, b).value)
  {
    hide HasSchema, Announced, Encode;
    ItemsSucceed(elem, a);
    ItemsSucceed(elem, b);
    if a == [] {
      assert a + b == b && [] + EncodeItems(elem, b).value == EncodeItems(elem, b).value;
    } else {
      assert (a + b)[1..] == a[1..] + b;
      ItemsConcat(elem, a[1..], b);
      var x, y, z := Encode(elem, a[0]).value, EncodeItems(elem, a[1..]).value, EncodeItems(elem, b).value;
      assert x + (y + z) == x + y + z;
    }
  }

  /** A length that is too small is taken at its word: the items after it are read as what follows the sequence. */
  lemma ShortLength(elem: Schema, n: nat, items: seq<Value>, rest: seq<byte>)
    requires n <= |items| < U64_SIZE
    requires forall i :: 0 <= i < |items| ==> HasSchema(elem, items[i]) && Announced(items[i])
    ensures EncodeItems(elem, items[n..]).Ok? && Encode(SeqOf(elem), SeqV(Some(n), items)).Ok?
    ensures Decode(SeqOf(elem), Encode(SeqOf(elem), SeqV(Some(n), items)).value + rest)
         == Ok((SeqV(Some(n), items[..n]), EncodeItems(elem, items[n..]).value + rest))
  {
    hide HasSchema, Announced, Varint.Encode, Varint.Decode, EncodeItems, DecodeItems;
    assert items == items[..n] + items[n..];
    ItemsConcat(elem, items[..n], items[n..]);
    var head, tail := EncodeItems(elem, items[..n]).value, EncodeItems(elem, items[n..]).value;
    SeqWritten(elem, n, items);
    var bs := Encode(SeqOf(elem), SeqV(Some(n), items)).value + rest;
    assert bs == Varint.Encode(n) + (head + (tail + rest));
    Varint.RoundTrip(W64, n, head + (tail + rest));
    ItemsRoundTrip(elem, items[..n], tail + rest);
  }

  lemma SeqWritten(elem: Schema, n: nat, items: seq<Value>)
    requires n < U64_SIZE && |items| < U64_SIZE && forall i :: 0 <= i < |items| ==> HasSchema(elem, items[i])
    requires EncodeItems(elem, items).Ok?
    ensures HasSchema(SeqOf(elem), SeqV(Some(n), items))
    ensures Encode(SeqOf(elem), SeqV(Some(n), items)) == Ok(Varint.Encode(n) + EncodeItems(elem, items).value)
  {
  }

  /** No two values of a type share an encoding, and no encoding is the start of another. */
  lemma EncodingPrefixFree(s: Schema, v: Value, w: Value, rest: seq<byte>)
    requires HasSchema(s, v) && HasSchema(s, w) && Announced(v) && Announced(w)
    requires Encode(s, v).Ok? && Encode(s, w).Ok? && Encode(s, w).value == Encode(s, v).value + rest
    ensures v == w && rest == []
  {
    RoundTrip(s, v, rest);
    RoundTrip(s, w, []);
    assert Encode(s, w).value + [] == Encode(s, w).value;
  }
}
