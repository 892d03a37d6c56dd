/** UTF-8, for strings that the program keeps as bytes. */
module Utf8 {
  import opened Wrappers
  import opened Bytes

  /** The number of bytes of a character. */
  function Width(c: char): (w: nat)
    ensures 1 <= w <= 4
  {
    var n := c as int;
    if n < 0x80 then 1 else if n < 0x800 then 2 else if n < 0x1_0000 then 3 else 4
  }

  function EncodeChar(c: char): (bs: seq<byte>)
    ensures |bs| == Width(c)
  {
    var n := c as int;
    if n < 0x80 then [n]
    else if n < 0x800 then [0xC0 + n / 64, 0x80 + n % 64]
    else if n < 0x1_0000 then [0xE0 + n / 4096, 0x80 + n / 64 % 64, 0x80 + n % 64]
    else [0xF0 + n / 262144, 0x80 + n / 4096 % 64, 0x80 + n / 64 % 64, 0x80 + n % 64]
  }

  predicate Continues(b: byte) {
    0x80 <= b < 0xC0
  }

  predicate IsScalar(n: int) {
    0 <= n < 0xD800 || 0xE000 <= n < 0x11_0000
  }

  /** The bytes announced by a first byte, or none if no character starts with it. */
  function WidthOf(b: byte): Option<nat> {
    if b < 0x80 then Some(1)
    else if 0xC2 <= b < 0xE0 then Some(2)
    else if 0xE0 <= b < 0xF0 then Some(3)
    else if 0xF0 <= b < 0xF5 then Some(4)
    else None
  }

  /** The payload of a byte whose marker bits are `marker`. */
  function Bits(b: byte, marker: int): int {
    b - marker
  }

  /** The first character and the rest; none for truncated, overlong or surrogate forms. */
  function DecodeChar(bs: seq<byte>): (r: Option<(char, seq<byte>)>)
    ensures r.Some? ==> |r.value.1| < |bs|
  {
    if bs == [] || WidthOf(bs[0]).None? || |bs| < WidthOf(bs[0]).value then None
    else
      var w := WidthOf(bs[0]).value;
      if !(forall i :: 1 <= i < w ==> Continues(bs[i])) then None
      else
        var n: int := if w == 1 then bs[0]
                 else if w == 2 then Bits(bs[0], 0xC0) * 64 + Bits(bs[1], 0x80)
                 else if w == 3 then Bits(bs[0], 0xE0) * 4096 + Bits(bs[1], 0x80) * 64 + Bits(bs[2], 0x80)
                 else Bits(bs[0], 0xF0) * 262144 + Bits(bs[1], 0x80) * 4096 + Bits(bs[2], 0x80) * 64 + Bits(bs[3], 0x80);
        if IsScalar(n) && Width(n as char) == w then Some((n as char, bs[w..])) else None
  }

  /** The three low groups of six bits. */
  lemma Sextets(n: nat)
    ensures n == n / 64 * 64 + n % 64
    ensures n == n / 4096 * 4096 + n / 64 % 64 * 64 + n % 64
    ensures n == n / 262144 * 262144 + n / 4096 % 64 * 4096 + n / 64 % 64 * 64 + n % 64
  {
    assert n / 64 / 64 == n / 4096 && n / 4096 / 64 == n / 262144;
  }

  lemma ThreeBytes(c: char, rest: seq<byte>)
    requires 0x800 <= c as int < 0x1_0000
    ensures DecodeChar(EncodeChar(c) + rest) == Some((c, rest))
  {
    var n := c as int;
    var e := EncodeChar(c);
    var bs := e + rest;
    assert bs[..3] == e && bs[3..] == rest;
    Sextets(n);
    assert bs[0] == 0xE0 + n / 4096 && bs[1] == 0x80 + n / 64 % 64 && bs[2] == 0x80 + n % 64;
  }

  lemma FourBytes(c: char, rest: seq<byte>)
    requires c as int >= 0x1_0000
    ensures DecodeChar(EncodeChar(c) + rest) == Some((c, rest))
  {
    var n := c as int;
    var e := EncodeChar(c);
    var bs := e + rest;
    assert bs[..4] == e && bs[4..] == rest;
    Sextets(n);
    assert bs[0] == 0xF0 + n / 262144 && bs[1] == 0x80 + n / 4096 % 64;
    assert bs[2] == 0x80 + n / 64 % 64 && bs[3] == 0x80 + n % 64;
  }

  lemma CharRoundTrip(c: char, rest: seq<byte>)
    ensures DecodeChar(EncodeChar(c) + rest) == Some((c, rest))
  {
    if c as int >= 0x1_0000 {
      FourBytes(c, rest);
    } else if c as int >= 0x800 {
      ThreeBytes(c, rest);
    } else {
      var e := EncodeChar(c);
      assert (e + rest)[..|e|] == e && (e + rest)[|e|..] == rest;
    }
  }

  function EncodeString(s: string): seq<byte> {
    if s == "" then [] else EncodeChar(s[0]) + EncodeString(s[1..])
  }

  function DecodeString(bs: seq<byte>): Option<string>
    decreases |bs|
  {
    if bs == [] then Some("")
    else
      var first := DecodeChar(bs);
      if first.None? then None
      else
        var rest := DecodeString(first.value.1);
        if rest.None? then None else Some([first.value.0] + rest.value)
  }

  lemma {:induction false} StringRoundTrip(s: string)
    ensures DecodeString(EncodeString(s)) == Some(s)
  {
    if s != "" {
      CharRoundTrip(s[0], EncodeString(s[1..]));
      StringRoundTrip(s[1..]);
      assert [s[0]] + s[1..] == s;
    }
  }

  lemma Unsextets(a: nat, b: nat, c: nat, d: nat)
    requires b < 64 && c < 64 && d < 64
    ensures var n := a * 262144 + b * 4096 + c * 64 + d;
            n / 262144 == a && n / 4096 % 64 == b && n / 64 % 64 == c && n % 64 == d
  {
    var n := a * 262144 + b * 4096 + c * 64 + d;
    assert n / 64 == a * 4096 + b * 64 + c;
    assert n / 4096 == a * 64 + b;
  }

  lemma WideSound(bs: seq<byte>)
    requires DecodeChar(bs).Some? && WidthOf(bs[0]).value >= 3
    ensures bs[..WidthOf(bs[0]).value] == EncodeChar(DecodeChar(bs).value.0)
  {
    var w := WidthOf(bs[0]).value;
    if w == 3 {
      Unsextets(0, bs[0] - 0xE0, bs[1] - 0x80, bs[2] - 0x80);
      assert bs[..3] == [bs[0], bs[1], bs[2]];
    } else {
      Unsextets(bs[0] - 0xF0, bs[1] - 0x80, bs[2] - 0x80, bs[3] - 0x80);
      assert bs[..4] == [bs[0], bs[1], bs[2], bs[3]];
    }
  }

  /** Only the encoding of a character decodes to it. */
  lemma CharSound(bs: seq<byte>)
    requires DecodeChar(bs).Some?
    ensures bs == EncodeChar(DecodeChar(bs).value.0) + DecodeChar(bs).value.1
  {
    var w := WidthOf(bs[0]).value;
    if w >= 3 {
      WideSound(bs);
    } else if w == 2 {
      Unsextets(0, 0, bs[0] - 0xC0, bs[1] - 0x80);
      assert bs[..2] == [bs[0], bs[1]];
    }
    assert bs == bs[..w] + bs[w..];
  }

  lemma {:induction false} StringSound(bs: seq<byte>)
    requires DecodeString(bs).Some?
    ensures EncodeString(DecodeString(bs).value) == bs
    decreases |bs|
  {
    if bs != [] {
      CharSound(bs);
      StringSound(DecodeChar(bs).value.1);
      var s := DecodeString(bs).value;
      assert s[1..] == DecodeString(DecodeChar(bs).value.1).value;
    }
  }

  lemma {:induction false} EncodeConcat(a: string, b: string)
    ensures EncodeString(a + b) == EncodeString(a) + EncodeString(b)
  {
    if a == "" {
      assert a + b == b;
    } else {
      EncodeConcat(a[1..], b);
      assert (a + b)[1..] == a[1..] + b && (a + b)[0] == a[0];
    }
  }

  /** A line feed byte stands for a line feed and for nothing else. */
  lemma {:induction false} EncodeLineFeed(s: string)
    ensures 10 in EncodeString(s) <==> '\n' in s
  {
    if s != "" {
      EncodeLineFeed(s[1..]);
      assert 10 in EncodeChar(s[0]) <==> s[0] == '\n';
      assert '\n' in s <==> s[0] == '\n' || '\n' in s[1..];
    }
  }

  /** The layout of a character: its code, six bits to a continuation byte, below a first byte that tells the width. */
  lemma Layout(c: char)
    ensures var n, bs := c as int, EncodeChar(c);
            && (forall i :: 1 <= i < |bs| ==> 0x80 <= bs[i] < 0xC0)
            && (|bs| == 1 ==> n == bs[0] < 0x80)
            && (|bs| == 2 ==> 0xC2 <= bs[0] < 0xE0 && n == Bits(bs[0], 0xC0) * 64 + Bits(bs[1], 0x80))
            && (|bs| == 3 ==> 0xE0 <= bs[0] < 0xF0 && n == Bits(bs[0], 0xE0) * 4096 + Bits(bs[1], 0x80) * 64 + Bits(bs[2], 0x80))
            && (|bs| == 4 ==>
                  && 0xF0 <= bs[0] < 0xF5
                  && n == Bits(bs[0], 0xF0) * 262144 + Bits(bs[1], 0x80) * 4096 + Bits(bs[2], 0x80) * 64 + Bits(bs[3], 0x80))
  {
    Sextets(c as int);
  }
}
