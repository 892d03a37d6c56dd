/** Near-duplicate detection: finding a 64-bit hash within three bits of a query. */
module SimHash {

  type Bits = bv64

  const K := 3
  const NUM_BLOCKS := K + 1
  const BLOCK_SIZE := 64 / NUM_BLOCKS

  // Bit operations by name, so that proofs can choose to treat them as symbols.
  function And(x: Bits, y: Bits): Bits { x & y }
  function Or(x: Bits, y: Bits): Bits { x | y }
  function Xor(x: Bits, y: Bits): Bits { x ^ y }
  function Half(x: Bits): Bits { x >> 1 }
  predicate Odd(x: Bits) { x & 1 == 1 }

  lemma Halved(x: Bits)
    requires x != 0
    ensures Half(x) < x
  {
  }

  /** The number of one bits. */
  function CountOnes(x: Bits): nat
    decreases x
  {
    if x == 0 then 0 else Halved(x); (if Odd(x) then 1 else 0) + CountOnes(Half(x))
  }

  function HammingDistance(x: Bits, y: Bits): nat {
    CountOnes(Xor(x, y))
  }

  // ----- what the distance measures -----

  /** Bit `i`, counted from the lowest. */
  predicate Bit(x: Bits, i: nat) {
    if i == 0 then Odd(x) else Bit(Half(x), i - 1)
  }

  function Halves(x: Bits, n: nat): Bits {
    if n == 0 then x else Halves(Half(x), n - 1)
  }

  lemma {:induction false} HalvesAdd(x: Bits, m: nat, n: nat)
    ensures Halves(x, m + n) == Halves(Halves(x, m), n)
  {
    if m > 0 {
      HalvesAdd(Half(x), m - 1, n);
    }
  }

  function Shift4(x: Bits): Bits { x >> 4 }
  function Shift16(x: Bits): Bits { x >> 16 }

  lemma FourHalves(x: Bits)
    ensures Half(Half(Half(Half(x)))) == Shift4(x)
  {
  }

  lemma FourNibbles(x: Bits)
    ensures Shift4(Shift4(Shift4(Shift4(x)))) == Shift16(x)
  {
  }

  lemma FourQuarters(x: Bits)
    ensures Shift16(Shift16(Shift16(Shift16(x)))) == 0
  {
  }

  lemma HalvesFour(x: Bits)
    ensures Halves(x, 4) == Shift4(x)
  {
    hide Half, Shift4;
    FourHalves(x);
    assert Halves(x, 4) == Halves(Half(x), 3);
    assert Halves(Half(x), 3) == Halves(Half(Half(x)), 2);
    assert Halves(Half(Half(x)), 2) == Halves(Half(Half(Half(x))), 1);
    assert Halves(Half(Half(Half(x))), 1) == Halves(Half(Half(Half(Half(x)))), 0);
  }

  lemma HalvesSixteen(x: Bits)
    ensures Halves(x, 16) == Shift16(x)
  {
    hide Halves, Half, Shift4, Shift16;
    HalvesAdd(x, 4, 12);
    HalvesFour(x);
    HalvesAdd(Shift4(x), 4, 8);
    HalvesFour(Shift4(x));
    HalvesAdd(Shift4(Shift4(x)), 4, 4);
    HalvesFour(Shift4(Shift4(x)));
    HalvesFour(Shift4(Shift4(Shift4(x))));
    FourNibbles(x);
  }

  /** Sixty-four halvings leave nothing. */
  lemma HalvesAll(x: Bits)
    ensures Halves(x, 64) == 0
  {
    hide Halves, Half, Shift16;
    HalvesAdd(x, 16, 48);
    HalvesSixteen(x);
    HalvesAdd(Shift16(x), 16, 32);
    HalvesSixteen(Shift16(x));
    HalvesAdd(Shift16(Shift16(x)), 16, 16);
    HalvesSixteen(Shift16(Shift16(x)));
    HalvesSixteen(Shift16(Shift16(Shift16(x))));
    FourQuarters(x);
  }

  /** The places of the one bits among the lowest `n`. */
  ghost function Ones(x: Bits, n: nat): set<nat> {
    set i: nat | i < n && Bit(x, i)
  }

  lemma {:induction false} ShiftedSize(s: set<nat>, t: set<nat>)
    requires forall i: nat :: i in t <==> i > 0 && i - 1 in s
    ensures |t| == |s|
    decreases |s|
  {
    if s == {} {
      assert forall i: nat :: i !in t;
      assert t == {};
    } else {
      var i :| i in s;
      assert i + 1 in t;
      ShiftedSize(s - {i}, t - {i + 1});
    }
  }

  lemma OnesStep(x: Bits, n: nat)
    ensures |Ones(x, n + 1)| == (if Odd(x) then 1 else 0) + |Ones(Half(x), n)|
  {
    hide Half, Odd;
    var t := Ones(x, n + 1) - {0};
    ShiftedSize(Ones(Half(x), n), t);
    if Odd(x) {
      assert Ones(x, n + 1) == t + {0};
    } else {
      assert Ones(x, n + 1) == t;
    }
  }

  lemma {:induction false} CountIsSize(x: Bits, n: nat)
    requires Halves(x, n) == 0
    ensures CountOnes(x) == |Ones(x, n)|
    decreases n
  {
    hide Half, Odd, CountOnes;
    if n == 0 {
      CountZero();
      assert Ones(x, 0) == {};
    } else {
      CountIsSize(Half(x), n - 1);
      CountStep(x);
      OnesStep(x, n - 1);
    }
  }

  lemma HalfOfXor(x: Bits, y: Bits)
    ensures Half(Xor(x, y)) == Xor(Half(x), Half(y))
  {
  }

  lemma OddOfXor(x: Bits, y: Bits)
    ensures Odd(Xor(x, y)) <==> Odd(x) != Odd(y)
  {
    assert (x ^ y) & 1 == (x & 1) ^ (y & 1);
  }

  lemma {:induction false} BitOfXor(x: Bits, y: Bits, i: nat)
    ensures Bit(Xor(x, y), i) <==> Bit(x, i) != Bit(y, i)
    decreases i
  {
    hide Half, Odd, Xor;
    if i == 0 {
      OddOfXor(x, y);
    } else {
      HalfOfXor(x, y);
      BitOfXor(Half(x), Half(y), i - 1);
    }
  }

  /** The places at which two hashes differ. */
  ghost function Differing(x: Bits, y: Bits): set<nat> {
    set i: nat | i < 64 && Bit(x, i) != Bit(y, i)
  }

  /** The distance is the number of places at which the hashes differ. */
  lemma DistanceIs(x: Bits, y: Bits)
    ensures HammingDistance(x, y) == |Differing(x, y)|
  {
    hide Half, Odd, Xor, CountOnes, Halves, Bit;
    HalvesAll(Xor(x, y));
    CountIsSize(Xor(x, y), 64);
    forall i: nat | i < 64 ensures Bit(Xor(x, y), i) <==> Bit(x, i) != Bit(y, i) {
      BitOfXor(x, y, i);
    }
    assert Ones(Xor(x, y), 64) == Differing(x, y);
  }

  /** Hashes that differ nowhere are the same. */
  lemma DistanceZero(x: Bits, y: Bits)
    ensures HammingDistance(x, y) == 0 <==> x == y
  {
    XorZero(x, y);
    hide Xor, CountOnes;
    CountZero();
    if Xor(x, y) != 0 {
      CountPositive(Xor(x, y));
    }
  }

  lemma XorZero(x: Bits, y: Bits)
    ensures Xor(x, y) == 0 <==> x == y
  {
  }

  /** The bits that block `i` compares. */
  function Mask(i: nat): Bits
    requires i < NUM_BLOCKS
  {
    (0xFFFF_FFFF_FFFF_FFFF << (64 - BLOCK_SIZE)) >> (BLOCK_SIZE * i)
  }

  // ----- four blocks cannot all differ in three bits -----

  lemma HalfOfOr(a: Bits, b: Bits)
    ensures Half(Or(a, b)) == Or(Half(a), Half(b))
  {
  }

  lemma HalvesDisjoint(a: Bits, b: Bits)
    requires And(a, b) == 0
    ensures And(Half(a), Half(b)) == 0
  {
    assert ((a & b) >> 1) == (a >> 1) & (b >> 1);
  }

  lemma OddOfOr(a: Bits, b: Bits)
    requires And(a, b) == 0
    ensures Odd(Or(a, b)) <==> Odd(a) || Odd(b)
    ensures !(Odd(a) && Odd(b))
  {
    assert (a & b) & 1 == (a & 1) & (b & 1);
    assert (a | b) & 1 == (a & 1) | (b & 1);
  }

  lemma OrZero(a: Bits, b: Bits)
    ensures Or(a, b) == 0 ==> a == 0 && b == 0
  {
  }

  lemma CountZero()
    ensures CountOnes(0) == 0
  {
  }

  lemma CountStep(x: Bits)
    ensures CountOnes(x) == (if Odd(x) then 1 else 0) + CountOnes(Half(x))
  {
    assert Half(0) == 0 && !Odd(0);
  }

  lemma CountDisjointStep(a: Bits, b: Bits)
    requires And(a, b) == 0
    requires CountOnes(Or(Half(a), Half(b))) == CountOnes(Half(a)) + CountOnes(Half(b))
    ensures CountOnes(Or(a, b)) == CountOnes(a) + CountOnes(b)
  {
    hide And, Or, Half, Odd, CountOnes;
    CountStep(a);
    CountStep(b);
    CountStep(Or(a, b));
    HalfOfOr(a, b);
    OddOfOr(a, b);
  }

  lemma {:induction false} CountDisjoint(a: Bits, b: Bits)
    requires And(a, b) == 0
    ensures CountOnes(Or(a, b)) == CountOnes(a) + CountOnes(b)
    decreases Or(a, b)
  {
    hide And, Or, Half, CountOnes;
    if Or(a, b) == 0 {
      OrZero(a, b);
      CountZero();
    } else {
      HalfOfOr(a, b);
      HalvesDisjoint(a, b);
      Halved(Or(a, b));
      CountDisjoint(Half(a), Half(b));
      CountDisjointStep(a, b);
    }
  }

  lemma {:induction false} CountPositive(x: Bits)
    requires x != 0
    ensures CountOnes(x) >= 1
    decreases x
  {
    if !Odd(x) {
      Halved(x);
      CountPositive(Half(x));
    }
  }

  lemma Masks()
    ensures Mask(0) == 0xFFFF_0000_0000_0000
    ensures Mask(1) == 0x0000_FFFF_0000_0000
    ensures Mask(2) == 0x0000_0000_FFFF_0000
    ensures Mask(3) == 0x0000_0000_0000_FFFF
  {
    var top: Bits := 0xFFFF_FFFF_FFFF_FFFF << 48;
    assert top == 0xFFFF_0000_0000_0000;
    assert top >> 0 == top && top >> 16 == 0xFFFF_0000_0000 && top >> 32 == 0xFFFF_0000 && top >> 48 == 0xFFFF;
  }

  lemma FirstTwo(x: Bits)
    ensures Or(And(x, 0xFFFF_0000_0000_0000), And(x, 0xFFFF_0000_0000)) == And(x, 0xFFFF_FFFF_0000_0000)
  {
  }

  lemma FirstThree(x: Bits)
    ensures Or(And(x, 0xFFFF_FFFF_0000_0000), And(x, 0xFFFF_0000)) == And(x, 0xFFFF_FFFF_FFFF_0000)
  {
  }

  lemma AllFour(x: Bits)
    ensures Or(And(x, 0xFFFF_FFFF_FFFF_0000), And(x, 0xFFFF)) == x
  {
  }

  lemma Disjoint(x: Bits)
    ensures And(And(x, 0xFFFF_0000_0000_0000), And(x, 0xFFFF_0000_0000)) == 0
    ensures And(And(x, 0xFFFF_FFFF_0000_0000), And(x, 0xFFFF_0000)) == 0
    ensures And(And(x, 0xFFFF_FFFF_FFFF_0000), And(x, 0xFFFF)) == 0
  {
  }

  /** The masks partition the word. */
  lemma Partition(x: Bits)
    ensures var a, b, c, d := And(x, Mask(0)), And(x, Mask(1)), And(x, Mask(2)), And(x, Mask(3));
            And(a, b) == 0 && And(Or(a, b), c) == 0 && And(Or(Or(a, b), c), d) == 0 && Or(Or(Or(a, b), c), d) == x
  {
    hide Mask, And, Or;
    Masks();
    FirstTwo(x);
    FirstThree(x);
    AllFour(x);
    Disjoint(x);
  }

  lemma CountByBlock(x: Bits)
    ensures CountOnes(x) == CountOnes(And(x, Mask(0))) + CountOnes(And(x, Mask(1)))
                            + CountOnes(And(x, Mask(2))) + CountOnes(And(x, Mask(3)))
  {
    hide CountOnes, Mask, And, Or;
    Partition(x);
    var a, b, c, d := And(x, Mask(0)), And(x, Mask(1)), And(x, Mask(2)), And(x, Mask(3));
    CountDisjoint(a, b);
    CountDisjoint(Or(a, b), c);
    CountDisjoint(Or(Or(a, b), c), d);
  }

  lemma DifferInMask(x: Bits, y: Bits, m: Bits)
    requires And(x, m) != And(y, m)
    ensures And(Xor(x, y), m) != 0
  {
  }

  /** Hashes at distance at most `K` agree on a whole block. */
  lemma Pigeonhole(x: Bits, y: Bits)
    requires HammingDistance(x, y) <= K
    ensures exists i: nat :: i < NUM_BLOCKS && And(x, Mask(i)) == And(y, Mask(i))
  {
    hide CountOnes, Mask, And, Xor;
    CountByBlock(Xor(x, y));
    if forall i: nat :: i < NUM_BLOCKS ==> And(x, Mask(i)) != And(y, Mask(i)) {
      forall i: nat | i < NUM_BLOCKS ensures CountOnes(And(Xor(x, y), Mask(i))) >= 1 {
        DifferInMask(x, y, Mask(i));
        CountPositive(And(Xor(x, y), Mask(i)));
      }
      assert false;
    }
  }

  // ----- the table -----

  /** A hash, and the part of one that a block compares. */
  datatype Hash = Hash(bits: Bits)
  datatype Prefix = Prefix(bits: Bits)

  function PrefixOf(h: Hash, mask: Bits): Prefix {
    Prefix(And(h.bits, mask))
  }

  predicate Close(x: Hash, y: Hash) {
    HammingDistance(x.bits, y.bits) <= K
  }

  /** Some inserted hash differs from `query` in three bits at most. */
  ghost predicate Near(inserted: seq<Hash>, query: Hash) {
    exists h :: h in inserted && |Differing(query.bits, h.bits)| <= 3
  }

  lemma CloseIs(x: Hash, y: Hash)
    ensures Close(x, y) <==> |Differing(x.bits, y.bits)| <= 3
  {
    hide HammingDistance, Differing;
    DistanceIs(x.bits, y.bits);
  }

  class Block {
    var hashes: map<Prefix, seq<Hash>>
    const mask: Bits

    constructor (index: nat)
      requires index < NUM_BLOCKS
      ensures mask == Mask(index) && Holds([])
    {
      mask, hashes := Mask(index), map[];
    }

    /** The block has filed exactly the inserted hashes, each under its prefix. */
    ghost predicate Holds(inserted: seq<Hash>)
      reads this
    {
      && (forall h :: h in inserted ==> PrefixOf(h, mask) in hashes && h in hashes[PrefixOf(h, mask)])
      && (forall p, h :: p in hashes && h in hashes[p] ==> h in inserted)
    }

    method Insert(hash: Hash, ghost inserted: seq<Hash>)
      requires Holds(inserted)
      modifies this
      ensures Holds(inserted + [hash])
    {
      hide PrefixOf;
      var prefix := PrefixOf(hash, mask);
      var filed := if prefix in hashes then hashes[prefix] else [];
      assert forall h :: h in filed + [hash] <==> h in filed || h == hash;
      hashes := hashes[prefix := filed + [hash]];
    }

    method Contains(hash: Hash, ghost inserted: seq<Hash>) returns (found: bool)
      requires Holds(inserted)
      ensures found ==> Near(inserted, hash)
      ensures forall h :: h in inserted && PrefixOf(h, mask) == PrefixOf(hash, mask) && |Differing(hash.bits, h.bits)| <= 3 ==> found
    {
      hide PrefixOf, Close, Differing;
      forall h | h in inserted ensures Close(hash, h) <==> |Differing(hash.bits, h.bits)| <= 3 {
        CloseIs(hash, h);
      }
      var prefix := PrefixOf(hash, mask);
      found := prefix in hashes && exists i :: 0 <= i < |hashes[prefix]| && Close(hash, hashes[prefix][i]);
    }
  }

  class Table {
    const blocks: seq<Block>
    ghost var inserted: seq<Hash>

    ghost predicate Valid()
      reads this, blocks
    {
      && |blocks| == NUM_BLOCKS
      && (forall i, j :: 0 <= i < j < NUM_BLOCKS ==> blocks[i] != blocks[j])
      && (forall i :: 0 <= i < NUM_BLOCKS ==> blocks[i].mask == Mask(i) && blocks[i].Holds(inserted))
    }

    constructor ()
      ensures Valid() && fresh(blocks) && inserted == []
    {
      hide Mask, PrefixOf;
      var b0 := new Block(0);
      var b1 := new Block(1);
      var b2 := new Block(2);
      var b3 := new Block(3);
      blocks, inserted := [b0, b1, b2, b3], [];
    }

    method Insert(hash: Hash)
      requires Valid()
      modifies this, blocks
      ensures Valid() && inserted == old(inserted) + [hash]
    {
      hide Mask, PrefixOf;
      for n := 0 to NUM_BLOCKS
        invariant inserted == old(inserted)
        invariant forall i :: 0 <= i < NUM_BLOCKS ==>
                    blocks[i].mask == Mask(i) && blocks[i].Holds(if i < n then inserted + [hash] else inserted)
      {
        blocks[n].Insert(hash, inserted);
      }
      inserted := inserted + [hash];
    }

    /** True exactly when some inserted hash differs from the query in three bits at most. */
    method Contains(hash: Hash) returns (found: bool)
      requires Valid()
      ensures found <==> Near(inserted, hash)
    {
      hide Mask, PrefixOf, Close, Differing;
      found := false;
      for n := 0 to NUM_BLOCKS
        invariant found ==> Near(inserted, hash)
        invariant forall i, h :: 0 <= i < n && h in inserted && PrefixOf(h, Mask(i)) == PrefixOf(hash, Mask(i)) ==>
                    |Differing(hash.bits, h.bits)| <= 3 ==> found
      {
        var here := blocks[n].Contains(hash, inserted);
        found := found || here;
      }
      forall h | h in inserted && |Differing(hash.bits, h.bits)| <= 3 ensures found {
        CloseIs(hash, h);
        SharedPrefix(hash, h);
      }
    }
  }

  lemma SharedPrefix(x: Hash, y: Hash)
    requires Close(x, y)
    ensures exists i :: 0 <= i < NUM_BLOCKS && PrefixOf(y, Mask(i)) == PrefixOf(x, Mask(i))
  {
    hide And, HammingDistance, Mask;
    Pigeonhole(x.bits, y.bits);
    var i: nat :| i < NUM_BLOCKS && And(x.bits, Mask(i)) == And(y.bits, Mask(i));
    assert PrefixOf(y, Mask(i)) == PrefixOf(x, Mask(i));
  }
}
