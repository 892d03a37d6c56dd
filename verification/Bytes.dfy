/** Bytes and little-endian numbers. */
module Bytes {

  type byte = x: int | 0 <= x < 256

  function Pow256(k: nat): (p: nat)
    ensures p > 0
  {
    if k == 0 then 1 else 256 * Pow256(k - 1)
  }

  /** `n` in `k` little-endian bytes; higher bytes are dropped. */
  function ToLE(n: nat, k: nat): (bs: seq<byte>)
    ensures |bs| == k
  {
    if k == 0 then [] else [n % 256] + ToLE(n / 256, k - 1)
  }

  function FromLE(bs: seq<byte>): (n: nat) {
    if bs == [] then 0 else bs[0] + 256 * FromLE(bs[1..])
  }

  lemma {:induction false} FromToLE(n: nat, k: nat)
    requires n < Pow256(k)
    ensures FromLE(ToLE(n, k)) == n
  {
    if k > 0 {
      FromToLE(n / 256, k - 1);
      assert ToLE(n, k)[1..] == ToLE(n / 256, k - 1);
    }
  }

  lemma {:induction false} ToFromLE(bs: seq<byte>)
    ensures FromLE(bs) < Pow256(|bs|)
    ensures ToLE(FromLE(bs), |bs|) == bs
  {
    if bs != [] {
      ToFromLE(bs[1..]);
      assert FromLE(bs) / 256 == FromLE(bs[1..]) && FromLE(bs) % 256 == bs[0];
    }
  }

  /** Byte `i` of a little-endian number weighs 256 to the `i`. */
  lemma {:induction false} LittleEndian(n: nat, k: nat, i: nat)
    requires i < k
    ensures ToLE(n, k)[i] == n / Pow256(i) % 256
  {
    if i > 0 {
      LittleEndian(n / 256, k - 1, i - 1);
      DivDiv(n, Pow256(i - 1));
    }
  }

  lemma DivDiv(n: nat, b: nat)
    requires b > 0
    ensures n / 256 / b == n / (256 * b)
  {
    var q, r := n / 256 / b, n / 256 % b;
    assert n / 256 == q * b + r;
    assert q * (256 * b) == 256 * (q * b);
    Quotient(n, 256 * b, q, 256 * r + n % 256);
  }

  lemma Quotient(n: int, m: int, q: int, r: int)
    requires n == q * m + r && 0 <= r < m
    ensures n / m == q
  {
    Remainder(q, r, m);
    assert n / m * m == q * m;
    SameMultiple(n / m, q, m);
  }

  lemma SameMultiple(a: int, b: int, m: int)
    requires m > 0 && a * m == b * m
    ensures a == b
  {
    assert (a - b) * m == 0;
  }

  lemma Remainder(k: int, r: int, m: int)
    requires 0 <= r < m
    ensures (k * m + r) % m == r
  {
    var n := k * m + r;
    var d := k - n / m;
    assert d * m == n % m - r;
    assert -m < d * m < m;
    assert d == 0;
  }

  const U16_SIZE := 0x1_0000
  const U32_SIZE := 0x1_0000_0000
  const U64_SIZE := 0x1_0000_0000_0000_0000
  const U128_SIZE := 0x1_0000_0000_0000_0000_0000_0000_0000_0000

  lemma Sizes()
    ensures Pow256(2) == U16_SIZE && Pow256(4) == U32_SIZE && Pow256(8) == U64_SIZE && Pow256(16) == U128_SIZE
  {
    assert Pow256(4) == U32_SIZE;
    assert Pow256(6) == 0x1_0000_0000_0000;
    assert Pow256(8) == U64_SIZE;
    assert Pow256(12) == U64_SIZE * U32_SIZE;
    assert Pow256(14) == U64_SIZE * U32_SIZE * U16_SIZE;
  }
}
