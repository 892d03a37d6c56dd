/** The variable-length integers of bincode's standard configuration. */
module Varint {
  import opened Wrappers
  import opened Bytes

  datatype Width = W16 | W32 | W64 | W128 {
    function Bytes(): nat { match this case W16 => 2 case W32 => 4 case W64 => 8 case W128 => 16 }

    function Size(): nat {
      match this case W16 => U16_SIZE case W32 => U32_SIZE case W64 => U64_SIZE case W128 => U128_SIZE
    }
  }

  const SINGLE_BYTE_MAX := 250

  function Encode(n: nat): seq<byte> {
    if n <= SINGLE_BYTE_MAX then [n]
    else if n < U16_SIZE then [251] + ToLE(n, 2)
    else if n < U32_SIZE then [252] + ToLE(n, 4)
    else if n < U64_SIZE then [253] + ToLE(n, 8)
    else [254] + ToLE(n, 16)
  }

  /** The width announced by a tag byte. */
  function TagWidth(tag: byte): Option<Width> {
    if tag == 251 then Some(W16)
    else if tag == 252 then Some(W32)
    else if tag == 253 then Some(W64)
    else if tag == 254 then Some(W128)
    else None
  }

  /** Reads a number of type `w`, refusing the tags of wider types; also returns the rest of the input. */
  function Decode(w: Width, bs: seq<byte>): (r: Option<(nat, seq<byte>)>)
    ensures r.Some? ==> r.value.0 < w.Size() && |r.value.1| < |bs|
  {
    if bs == [] then None
    else if bs[0] <= SINGLE_BYTE_MAX then Some((bs[0], bs[1..]))
    else
      var t := TagWidth(bs[0]);
      if t.None? || t.value.Bytes() > w.Bytes() || |bs| < 1 + t.value.Bytes() then None
      else
        var k := t.value.Bytes();
        Sizes();
        ToFromLE(bs[1..1 + k]);
        Some((FromLE(bs[1..1 + k]), bs[1 + k..]))
  }

  lemma RoundTrip(w: Width, n: nat, rest: seq<byte>)
    requires n < w.Size()
    ensures Decode(w, Encode(n) + rest) == Some((n, rest))
  {
    Sizes();
    var k := if n < U16_SIZE then 2 else if n < U32_SIZE then 4 else if n < U64_SIZE then 8 else 16;
    var bs := Encode(n) + rest;
    if n > SINGLE_BYTE_MAX {
      FromToLE(n, k);
      assert bs[1..1 + k] == ToLE(n, k);
      assert bs[1 + k..] == rest;
    }
  }

  /** Signed numbers interleave: 0, -1, 1, -2, ... */
  function ZigZag(n: int): nat {
    if n >= 0 then 2 * n else -2 * n - 1
  }

  function UnZigZag(n: nat): int {
    if n % 2 == 0 then n / 2 else -(n / 2) - 1
  }

  lemma ZigZagRoundTrip(n: int)
    ensures UnZigZag(ZigZag(n)) == n
  {
  }
}
