/** The multiplicative hash that the hash table and the cardinality sketch share. */
module Hashing {
  import opened Bytes

  type u64 = x: int | 0 <= x < U64_SIZE

  const BIG_PRIME: u64 := 11400714819323198549

  /** A wrapping 64-bit product. */
  function Mix(x: u64): u64 {
    x * BIG_PRIME % U64_SIZE
  }

  /** The inverse of the multiplier modulo 2^64. */
  const INVERSE: u64 := 6236490470931210493

  lemma WrapProduct(x: int, y: int, m: int)
    requires m > 0
    ensures x % m * y % m == x * y % m
  {
    var q := x / m;
    assert x == q * m + x % m;
    assert x * y == q * y * m + x % m * y by {
      assert (q * m + x % m) * y == q * y * m + x % m * y;
    }
    WrapAdd(q * y, x % m * y, m);
  }

  lemma WrapAdd(k: int, r: int, m: int)
    requires m > 0
    ensures (k * m + r) % m == r % m
  {
    var q := r / m;
    assert k * m + r == (k + q) * m + r % m;
    Remainder(k + q, r % m, m);
  }

  /** Multiplying by the inverse undoes the hash, so different items never share one. */
  lemma MixInverts(x: u64)
    ensures Mix(x) * INVERSE % U64_SIZE == x
  {
    WrapProduct(x * BIG_PRIME, INVERSE, U64_SIZE);
    var k := BIG_PRIME * INVERSE / U64_SIZE;
    assert BIG_PRIME * INVERSE == k * U64_SIZE + 1;
    assert x * BIG_PRIME * INVERSE == x * (BIG_PRIME * INVERSE) == x * k * U64_SIZE + x;
    Remainder(x * k, x, U64_SIZE);
  }
}
