/** The primitive values that serde hands to bincode, in its standard configuration. */
module SerdeLeaf {
  import opened Wrappers
  import opened Bytes
  import Utf8
  import opened Varint

  datatype LeafType = Bool | U8 | I8 | UInt(width: Width) | SInt(width: Width) | F32 | F64 | Char | Str | ByteBuf

  /** Numbers stand for integers and for the bits of floats. */
  datatype Leaf = BoolV(b: bool) | NumV(n: int) | CharV(c: char) | StrV(s: string) | BytesV(bs: seq<byte>)

  predicate Typed(t: LeafType, x: Leaf) {
    match t
    case Bool => x.BoolV?
    case U8 => x.NumV? && 0 <= x.n < 256
    case I8 => x.NumV? && -128 <= x.n < 128
    case UInt(w) => x.NumV? && 0 <= x.n < w.Size()
    case SInt(w) => x.NumV? && 0 <= 2 * x.n + w.Size() && 2 * x.n < w.Size()
    case F32 => x.NumV? && 0 <= x.n < U32_SIZE
    case F64 => x.NumV? && 0 <= x.n < U64_SIZE
    case Char => x.CharV?
    case Str => x.StrV? && |Utf8.EncodeString(x.s)| < U64_SIZE
    case ByteBuf => x.BytesV? && |x.bs| < U64_SIZE
  }

  function EncodeLeaf(t: LeafType, x: Leaf): seq<byte>
    requires Typed(t, x)
  {
    match t
    case Bool => [if x.b then 1 else 0]
    case U8 => [x.n]
    case I8 => [x.n % 256]
    case UInt(_) => Varint.Encode(x.n)
    case SInt(_) => Varint.Encode(ZigZag(x.n))
    case F32 => ToLE(x.n, 4)
    case F64 => ToLE(x.n, 8)
    case Char => Utf8.EncodeChar(x.c)
    case Str => var bs := Utf8.EncodeString(x.s); Varint.Encode(|bs|) + bs
    case ByteBuf => Varint.Encode(|x.bs|) + x.bs
  }

  function Signed(b: byte): int {
    var n: int := b;
    if n < 128 then n else n - 256
  }

  /** The next `k` bytes and the rest. */
  function Take(bs: seq<byte>, k: nat): Option<(seq<byte>, seq<byte>)> {
    if |bs| < k then None else Some((bs[..k], bs[k..]))
  }

  /** A length and that many bytes. */
  function DecodeBlock(bs: seq<byte>): (r: Option<(seq<byte>, seq<byte>)>)
    ensures r.Some? ==> |r.value.0| < U64_SIZE
  {
    var len := Varint.Decode(W64, bs);
    if len.None? then None else Take(len.value.1, len.value.0)
  }

  function DecodeLeaf(t: LeafType, bs: seq<byte>): Option<(Leaf, seq<byte>)> {
    match t
    case Bool =>
      if bs == [] || bs[0] > 1 then None else Some((BoolV(bs[0] == 1), bs[1..]))
    case U8 =>
      if bs == [] then None else Some((NumV(bs[0]), bs[1..]))
    case I8 =>
      if bs == [] then None else Some((NumV(Signed(bs[0])), bs[1..]))
    case UInt(w) =>
      var r := Varint.Decode(w, bs);
      if r.None? then None else Some((NumV(r.value.0), r.value.1))
    case SInt(w) =>
      var r := Varint.Decode(w, bs);
      if r.None? then None else Some((NumV(UnZigZag(r.value.0)), r.value.1))
    case F32 =>
      var r := Take(bs, 4);
      if r.None? then None else Some((NumV(FromLE(r.value.0)), r.value.1))
    case F64 =>
      var r := Take(bs, 8);
      if r.None? then None else Some((NumV(FromLE(r.value.0)), r.value.1))
    case Char =>
      var r := Utf8.DecodeChar(bs);
      if r.None? then None else Some((CharV(r.value.0), r.value.1))
    case Str =>
      var r := DecodeBlock(bs);
      if r.None? then None
      else
        var s := Utf8.DecodeString(r.value.0);
        if s.None? then None else Some((StrV(s.value), r.value.1))
    case ByteBuf =>
      var r := DecodeBlock(bs);
      if r.None? then None else Some((BytesV(r.value.0), r.value.1))
  }

  lemma BlockRoundTrip(block: seq<byte>, rest: seq<byte>)
    requires |block| < U64_SIZE
    ensures DecodeBlock(Varint.Encode(|block|) + block + rest) == Some((block, rest))
  {
    Varint.RoundTrip(W64, |block|, block + rest);
    assert Varint.Encode(|block|) + block + rest == Varint.Encode(|block|) + (block + rest);
  }

  /** Reading back a primitive value returns it and leaves exactly what follows. */
  lemma LeafRoundTrip(t: LeafType, x: Leaf, rest: seq<byte>)
    requires Typed(t, x)
    ensures DecodeLeaf(t, EncodeLeaf(t, x) + rest) == Some((x, rest))
  {
    match t
    case Bool =>
    case U8 =>
    case I8 =>
    case UInt(w) => Varint.RoundTrip(w, x.n, rest);
    case SInt(w) =>
      Varint.RoundTrip(w, ZigZag(x.n), rest);
      ZigZagRoundTrip(x.n);
    case F32 =>
      Sizes();
      FromToLE(x.n, 4);
      assert (ToLE(x.n, 4) + rest)[..4] == ToLE(x.n, 4) && (ToLE(x.n, 4) + rest)[4..] == rest;
    case F64 =>
      Sizes();
      FromToLE(x.n, 8);
      assert (ToLE(x.n, 8) + rest)[..8] == ToLE(x.n, 8) && (ToLE(x.n, 8) + rest)[8..] == rest;
    case Char => Utf8.CharRoundTrip(x.c, rest);
    case Str =>
      BlockRoundTrip(Utf8.EncodeString(x.s), rest);
      Utf8.StringRoundTrip(x.s);
    case ByteBuf => BlockRoundTrip(x.bs, rest);
  }

  /** What a primitive decoder accepts is a value of its type. */
  lemma DecodedLeafTyped(t: LeafType, bs: seq<byte>)
    requires DecodeLeaf(t, bs).Some?
    ensures Typed(t, DecodeLeaf(t, bs).value.0)
  {
    Sizes();
    if t.Str? { Utf8.StringSound(DecodeBlock(bs).value.0); }
    if t.F32? { ToFromLE(bs[..4]); }
    if t.F64? { ToFromLE(bs[..8]); }
  }
}
