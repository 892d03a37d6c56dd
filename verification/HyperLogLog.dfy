/** The registers of a cardinality sketch, as a function of the set of items seen. */
module HyperLogLog {
  import opened Wrappers
  import opened Bytes
  import opened Hashing

  // ----- powers of two -----

  function Pow2(k: nat): (p: nat)
    ensures p > 0
  {
    if k == 0 then 1 else 2 * Pow2(k - 1)
  }

  /** The binary logarithm, rounded down. */
  function Log2(n: nat): (b: nat)
    requires n > 0
    ensures Pow2(b) <= n < 2 * Pow2(b)
  {
    if n == 1 then 0 else 1 + Log2(n / 2)
  }

  lemma {:induction false} Pow2Add(a: nat, b: nat)
    ensures Pow2(a + b) == Pow2(a) * Pow2(b)
  {
    if a > 0 {
      Pow2Add(a - 1, b);
      assert Pow2(a + b) == 2 * (Pow2(a - 1) * Pow2(b)) == Pow2(a) * Pow2(b);
    }
  }

  lemma {:induction false} Pow2Below(a: nat, b: nat)
    ensures Pow2(a) < Pow2(b) ==> a < b
  {
    if b <= a {
      Pow2Add(b, a - b);
      assert Pow2(b) * Pow2(a - b) >= Pow2(b);
    }
  }

  lemma MulMono(x: int, y: int, m: nat)
    requires x <= y
    ensures x * m <= y * m
  {
    assert (y - x) * m >= 0;
  }

  lemma Cancel(x: int, y: int, m: nat)
    ensures x * m < y * m ==> x < y
  {
    if y <= x {
      MulMono(y, x, m);
    }
  }

  lemma Pow2Word()
    ensures Pow2(64) == U64_SIZE
  {
    assert Pow2(8) == 256;
    assert Pow2(16) == 0x1_0000;
    Pow2Add(16, 16);
    Pow2Add(32, 32);
  }

  /** How many of the `bits` bits of `w` are zero before the first one. */
  function LeadingZeros(w: nat, bits: nat): (z: nat)
    requires w < Pow2(bits)
    ensures z <= bits && (z == bits <==> w == 0)
    ensures w > 0 ==> Pow2(bits - z - 1) <= w < Pow2(bits - z)
  {
    if bits == 0 || w >= Pow2(bits - 1) then 0 else 1 + LeadingZeros(w, bits - 1)
  }

  // ----- one item -----

  /** The number of index bits for `n` registers: the logarithm of zero, minus infinity, is cast to zero. */
  function IndexBits(n: nat): (b: nat)
    requires n < U64_SIZE
    ensures b <= 63 && (b == 0 <==> n < 2) && (n >= 2 ==> Pow2(b) <= n < 2 * Pow2(b))
  {
    BitsFit(n);
    if n == 0 then 0 else Log2(n)
  }

  lemma BitsFit(n: nat)
    requires n < U64_SIZE
    ensures n > 0 ==> Log2(n) <= 63 && (Log2(n) == 0 <==> n == 1)
  {
    if n > 0 {
      Pow2Word();
      Pow2Below(Log2(n), 64);
    }
  }

  /** The register of a hash: its first `b` bits. Without index bits the shift is by the whole width of the
      word, which wraps around to no shift at all. */
  function Slot(h: u64, b: nat): (j: int)
    requires b <= 63
  {
    if b == 0 then h else h / Pow2(64 - b)
  }

  lemma SlotBelow(h: u64, b: nat)
    requires 1 <= b <= 63
    ensures 0 <= Slot(h, b) < Pow2(b)
  {
    hide Pow2;
    Pow2Word();
    Pow2Add(b, 64 - b);
    Cancel(Slot(h, b), Pow2(b), Pow2(64 - b));
    Cancel(-1, Slot(h, b), Pow2(64 - b));
  }

  /** The hashes that go to register `j`: those that begin with the `b` bits of `j`. */
  ghost predicate Belongs(h: u64, b: nat, j: int)
    requires b <= 64
  {
    j * Pow2(64 - b) <= h < (j + 1) * Pow2(64 - b)
  }

  /** The register and the bits that are ranked make up the hash, so each hash belongs to its register alone. */
  lemma SlotIs(h: u64, b: nat, j: int)
    requires 1 <= b <= 63
    ensures h == Slot(h, b) * Pow2(64 - b) + h % Pow2(64 - b)
    ensures Belongs(h, b, j) <==> j == Slot(h, b)
  {
    hide Pow2;
    var m, q := Pow2(64 - b), Slot(h, b);
    Quotient(h, m);
    Spread(0, 0, q, m);
    Spread(0, 0, j, m);
    if j < q {
      MulMono(j + 1, q, m);
    } else if j > q {
      MulMono(q + 1, j, m);
    }
  }

  /** The word left after the index bits are shifted out. */
  function Shifted(h: u64, b: nat): u64 {
    h * Pow2(b) % U64_SIZE
  }

  function Rank(h: u64, b: nat): (p: nat)
    ensures 1 <= p <= 65
  {
    Pow2Word();
    LeadingZeros(Shifted(h, b), 64) + 1
  }

  lemma ShiftedIs(h: u64, b: nat)
    requires 1 <= b <= 63
    ensures Shifted(h, b) == h % Pow2(64 - b) * Pow2(b)
  {
    hide Pow2;
    Pow2Word();
    Pow2Add(64 - b, b);
    WrapsAway(h, Pow2(64 - b), Pow2(b), U64_SIZE);
  }

  /** Shifting left drops what is above the word. */
  lemma WrapsAway(h: nat, m: nat, p: nat, w: nat)
    requires m > 0 && p > 0 && w == m * p
    ensures h * p % w == h % m * p
  {
    var q, low := h / m, h % m;
    Quotient(h, m);
    Spread(q, m, low, p);
    MulMono(low + 1, m, p);
    Remainder(q, low * p, w);
  }

  lemma Quotient(h: nat, m: nat)
    requires m > 0
    ensures h == h / m * m + h % m && 0 <= h % m < m
  {
  }

  lemma Spread(q: int, m: int, low: int, p: int)
    ensures (q * m + low) * p == q * (m * p) + low * p
    ensures (low + 1) * p == low * p + p
  {
    assert (q * m + low) * p == q * m * p + low * p;
    assert q * m * p == q * (m * p);
  }

  /** The rank is the place of the first one among the bits after the index; no one at all ranks 65, above all of them. */
  lemma RankIs(h: u64, b: nat)
    requires 1 <= b <= 63
    ensures var low, p := h % Pow2(64 - b), Rank(h, b);
            && (low == 0 <==> p == 65)
            && (low > 0 ==> p <= 64 - b && Pow2(64 - b - p) <= low < 2 * Pow2(64 - b - p))
  {
    hide Pow2, Shifted, LeadingZeros;
    Pow2Word();
    ShiftedIs(h, b);
    var low, p, w := h % Pow2(64 - b), Rank(h, b), Shifted(h, b);
    if low == 0 {
      assert w == 0;
    } else {
      MulMono(1, low, Pow2(b));
      assert Pow2(b) <= w < Pow2(65 - p);
      Pow2Below(b, 65 - p);
      FirstOne(low, b, p);
    }
  }

  lemma FirstOne(low: nat, b: nat, p: nat)
    requires b + p <= 64 && Pow2(64 - p) <= low * Pow2(b) < Pow2(65 - p)
    ensures Pow2(64 - b - p) <= low < 2 * Pow2(64 - b - p)
  {
    var half := Pow2(64 - b - p);
    Pow2Add(64 - b - p, b);
    Pow2Add(65 - b - p, b);
    assert Pow2(65 - b - p) == 2 * half;
    hide Pow2;
    Cancel(half - 1, low, Pow2(b));
    Spread(0, 0, half - 1, Pow2(b));
    Cancel(low, 2 * half, Pow2(b));
  }

  // ----- a set of items -----

  /** `r` is the greatest rank of the items in register `j`, or zero. */
  ghost predicate MaxRank(r: nat, items: set<u64>, hash: u64 -> u64, b: nat, j: nat)
    requires b <= 63
  {
    && (forall x :: x in items && Slot(hash(x), b) == j ==> Rank(hash(x), b) <= r)
    && (r == 0 || exists x :: x in items && Slot(hash(x), b) == j && Rank(hash(x), b) == r)
  }

  ghost predicate Summarises(registers: seq<nat>, items: set<u64>, hash: u64 -> u64, b: nat)
    requires b <= 63
  {
    forall j :: 0 <= j < |registers| ==> MaxRank(registers[j], items, hash, b, j)
  }

  /** The registers depend on the set of items alone: not on their order, nor on repetitions. */
  lemma SameSetSameRegisters(r1: seq<nat>, r2: seq<nat>, items: set<u64>, hash: u64 -> u64, b: nat)
    requires b <= 63 && |r1| == |r2|
    requires Summarises(r1, items, hash, b) && Summarises(r2, items, hash, b)
    ensures r1 == r2
  {
    hide Slot, Rank;
    forall j | 0 <= j < |r1| ensures r1[j] == r2[j] {
      assert MaxRank(r1[j], items, hash, b, j) && MaxRank(r2[j], items, hash, b, j);
    }
  }

  function Max(x: nat, y: nat): nat {
    if x < y then y else x
  }

  /** Registers, taken the greater of each pair. */
  ghost function Merged(a: seq<nat>, b: seq<nat>): (r: seq<nat>)
    requires |a| == |b|
    ensures |r| == |a|
  {
    seq(|a|, i requires 0 <= i < |a| => Max(a[i], b[i]))
  }

  lemma MaxRankAdd(r: nat, items: set<u64>, hash: u64 -> u64, b: nat, j: nat, x: u64)
    requires b <= 63 && MaxRank(r, items, hash, b, j)
    ensures MaxRank(if Slot(hash(x), b) == j then Max(r, Rank(hash(x), b)) else r, items + {x}, hash, b, j)
  {
    hide Slot, Rank;
    if r > 0 {
      var y :| y in items && Slot(hash(y), b) == j && Rank(hash(y), b) == r;
      assert y in items + {x};
    }
    assert x in items + {x};
  }

  lemma MaxRankUnion(r1: nat, s1: set<u64>, r2: nat, s2: set<u64>, hash: u64 -> u64, b: nat, j: nat)
    requires b <= 63 && MaxRank(r1, s1, hash, b, j) && MaxRank(r2, s2, hash, b, j)
    ensures MaxRank(Max(r1, r2), s1 + s2, hash, b, j)
  {
    hide Slot, Rank;
    if r1 >= r2 {
      if r1 > 0 {
        var y :| y in s1 && Slot(hash(y), b) == j && Rank(hash(y), b) == r1;
        assert y in s1 + s2;
      }
    } else {
      var y :| y in s2 && Slot(hash(y), b) == j && Rank(hash(y), b) == r2;
      assert y in s1 + s2;
    }
  }

  lemma UnionSummarised(r1: seq<nat>, s1: set<u64>, r2: seq<nat>, s2: set<u64>, hash: u64 -> u64, b: nat)
    requires b <= 63 && |r1| == |r2| && Summarises(r1, s1, hash, b) && Summarises(r2, s2, hash, b)
    ensures Summarises(Merged(r1, r2), s1 + s2, hash, b)
  {
    hide Slot, Rank, MaxRank;
    forall k | 0 <= k < |r1| ensures MaxRank(Merged(r1, r2)[k], s1 + s2, hash, b, k) {
      MaxRankUnion(r1[k], s1, r2[k], s2, hash, b, k);
    }
  }

  /** Merging is the join of a semilattice. */
  lemma MergeLaws(a: seq<nat>, b: seq<nat>, c: seq<nat>)
    requires |a| == |b| == |c|
    ensures Merged(a, b) == Merged(b, a) && Merged(a, a) == a
    ensures Merged(Merged(a, b), c) == Merged(a, Merged(b, c))
  {
    assert forall i :: 0 <= i < |a| ==> Merged(Merged(a, b), c)[i] == Merged(a, Merged(b, c))[i];
  }

  // ----- whole runs -----

  /** The registers after one more item. */
  ghost function Added(registers: seq<nat>, h: u64, b: nat): (r: seq<nat>)
    requires b <= 63 && 0 <= Slot(h, b) < |registers|
    ensures |r| == |registers|
  {
    registers[Slot(h, b) := Max(registers[Slot(h, b)], Rank(h, b))]
  }

  lemma AddedSummarised(registers: seq<nat>, items: set<u64>, hash: u64 -> u64, b: nat, x: u64)
    requires b <= 63 && 0 <= Slot(hash(x), b) < |registers| && Summarises(registers, items, hash, b)
    ensures Summarises(Added(registers, hash(x), b), items + {x}, hash, b)
  {
    hide Slot, Rank, MaxRank;
    forall k | 0 <= k < |registers| ensures MaxRank(Added(registers, hash(x), b)[k], items + {x}, hash, b, k) {
      MaxRankAdd(registers[k], items, hash, b, k, x);
    }
  }

  ghost function SetOf(items: seq<u64>): set<u64> {
    set x | x in items
  }

  /** The registers after a run of items, one after the other. */
  ghost function Sketch(items: seq<u64>, n: nat, hash: u64 -> u64): (r: seq<nat>)
    requires 2 <= n < U64_SIZE
    ensures |r| == n
  {
    if items == [] then seq(n, _ => 0)
    else
      var b, h := IndexBits(n), hash(items[|items| - 1]);
      SlotBelow(h, b);
      Added(Sketch(items[..|items| - 1], n, hash), h, b)
  }

  lemma {:induction false} SketchSummarises(items: seq<u64>, n: nat, hash: u64 -> u64)
    requires 2 <= n < U64_SIZE
    ensures Summarises(Sketch(items, n, hash), SetOf(items), hash, IndexBits(n))
  {
    hide Slot, Rank, Added, IndexBits;
    if items != [] {
      var init, x := items[..|items| - 1], items[|items| - 1];
      var b := IndexBits(n);
      SketchSummarises(init, n, hash);
      SlotBelow(hash(x), b);
      AddedSummarised(Sketch(init, n, hash), SetOf(init), hash, b, x);
      assert items == init + [x];
      assert SetOf(items) == SetOf(init) + {x};
    }
  }

  /** Runs over the same set of items, in any order and with any repetitions, end with the same registers. */
  lemma SameSetSameSketch(xs: seq<u64>, ys: seq<u64>, n: nat, hash: u64 -> u64)
    requires 2 <= n < U64_SIZE && forall x :: x in xs <==> x in ys
    ensures Sketch(xs, n, hash) == Sketch(ys, n, hash)
  {
    hide Sketch, Summarises;
    SketchSummarises(xs, n, hash);
    SketchSummarises(ys, n, hash);
    assert SetOf(xs) == SetOf(ys);
    SameSetSameRegisters(Sketch(xs, n, hash), Sketch(ys, n, hash), SetOf(xs), hash, IndexBits(n));
  }

  /** Merging the registers of two runs gives those of one run over both. */
  lemma MergedSketches(xs: seq<u64>, ys: seq<u64>, n: nat, hash: u64 -> u64)
    requires 2 <= n < U64_SIZE
    ensures Merged(Sketch(xs, n, hash), Sketch(ys, n, hash)) == Sketch(xs + ys, n, hash)
  {
    hide Sketch, Summarises;
    var a, b := Sketch(xs, n, hash), Sketch(ys, n, hash);
    SketchSummarises(xs, n, hash);
    SketchSummarises(ys, n, hash);
    SketchSummarises(xs + ys, n, hash);
    UnionSummarised(a, SetOf(xs), b, SetOf(ys), hash, IndexBits(n));
    assert SetOf(xs) + SetOf(ys) == SetOf(xs + ys);
    SameSetSameRegisters(Merged(a, b), Sketch(xs + ys, n, hash), SetOf(xs + ys), hash, IndexBits(n));
  }

  // ----- the sketch -----

  /** What stops the program: a shift by the whole width of a word in a build that checks for it, or a register
      that is not there. */
  datatype Fault = ShiftOverflow | IndexOutOfBounds

  class HyperLogLog {
    const hash: u64 -> u64
    const checked: bool
    const registers: array<nat>
    ghost var items: set<u64>

    ghost predicate Valid()
      reads this, registers
    {
      registers.Length < U64_SIZE && Summarises(registers[..], items, hash, IndexBits(registers.Length))
    }

    /** `checked` says whether the build checks shifts for overflow. */
    constructor (n: u64, hash: u64 -> u64, checked: bool)
      ensures Valid() && items == {} && fresh(registers)
      ensures registers[..] == seq(n, _ => 0) && this.hash == hash && this.checked == checked
    {
      this.hash, this.checked := hash, checked;
      registers := new nat[n](_ => 0);
      items := {};
    }

    /** Faults exactly when there are fewer than two registers, and, in a build without overflow checks, none
        at the place of the whole hash. */
    method Add(item: u64) returns (r: Result<(), Fault>)
      requires Valid()
      modifies this, registers
      ensures Valid()
      ensures r.Err? <==> registers.Length < 2 && (checked || hash(item) >= registers.Length)
      ensures r.Err? ==> items == old(items) && registers[..] == old(registers[..])
      ensures r.Ok? ==> items == old(items) + {item}
      ensures r.Ok? ==>
                var b := IndexBits(registers.Length);
                0 <= Slot(hash(item), b) < registers.Length && registers[..] == Added(old(registers[..]), hash(item), b)
      ensures forall k :: 0 <= k < registers.Length && registers[k] != old(registers[k]) && registers.Length >= 2 ==>
                Belongs(hash(item), IndexBits(registers.Length), k)
    {
      hide Slot, Rank, Summarises, IndexBits;
      var b := IndexBits(registers.Length);
      var h := hash(item);
      if b == 0 && checked { return Err(ShiftOverflow); }
      SlotRange(h, b, registers.Length);
      var j, p := Slot(h, b), Rank(h, b);
      if j >= registers.Length { return Err(IndexOutOfBounds); }
      AddedSummarised(registers[..], items, hash, b, item);
      if b > 0 { SlotIs(h, b, j); }
      registers[j] := Max(registers[j], p);
      assert registers[..] == Added(old(registers[..]), h, b);
      items := items + {item};
      r := Ok(());
    }

    method Clear()
      requires Valid()
      modifies this, registers
      ensures Valid() && items == {} && registers[..] == seq(registers.Length, _ => 0)
    {
      for i := 0 to registers.Length
        invariant forall k :: 0 <= k < i ==> registers[k] == 0
      {
        registers[i] := 0;
      }
      items := {};
    }

    /** Merging a sketch into this one gives the sketch of both sets together. */
    method Merge(other: HyperLogLog)
      requires Valid() && other.Valid() && other != this && other.registers != registers
      requires other.registers.Length == registers.Length && other.hash == hash
      modifies this, registers
      ensures Valid() && items == old(items) + other.items
      ensures registers[..] == Merged(old(registers[..]), other.registers[..])
    {
      hide Summarises, IndexBits;
      ghost var was, theirs := registers[..], other.registers[..];
      for i := 0 to registers.Length
        invariant items == old(items) && other.registers[..] == theirs
        invariant forall k :: 0 <= k < registers.Length ==>
                    registers[k] == if k < i then Max(was[k], other.registers[k]) else was[k]
      {
        registers[i] := Max(registers[i], other.registers[i]);
      }
      assert registers[..] == Merged(was, theirs);
      UnionSummarised(was, items, theirs, other.items, hash, IndexBits(registers.Length));
      items := items + other.items;
    }

    method MergeInto(other: HyperLogLog, out: HyperLogLog)
      requires Valid() && other.Valid() && out.Valid() && out != this && out != other
      requires out.registers != registers && out.registers != other.registers
      requires other.registers.Length == registers.Length == out.registers.Length && other.hash == hash == out.hash
      modifies out, out.registers
      ensures out.Valid() && out.items == items + other.items
      ensures out.registers[..] == Merged(registers[..], other.registers[..])
    {
      hide Summarises, IndexBits;
      ghost var ours, theirs := registers[..], other.registers[..];
      for i := 0 to registers.Length
        invariant registers[..] == ours && other.registers[..] == theirs
        invariant forall k :: 0 <= k < i ==> out.registers[k] == Max(registers[k], other.registers[k])
      {
        out.registers[i] := Max(registers[i], other.registers[i]);
      }
      assert out.registers[..] == Merged(ours, theirs);
      UnionSummarised(ours, items, theirs, other.items, hash, IndexBits(registers.Length));
      out.items := items + other.items;
    }
  }

  lemma SlotRange(h: u64, b: nat, n: nat)
    requires b <= 63 && n < U64_SIZE && b == IndexBits(n)
    ensures 0 <= Slot(h, b) && (n >= 2 ==> Slot(h, b) < n) && (n < 2 ==> Slot(h, b) == h)
  {
    hide IndexBits;
    if n >= 2 {
      SlotBelow(h, b);
    }
  }

  /** An item that a sketch of `n` registers can take. */
  ghost predicate Fits(x: u64, n: nat, hash: u64 -> u64, checked: bool) {
    n >= 2 || (!checked && hash(x) < n)
  }

  /** Adding items one by one: the sketch of their set, unless one of them does not fit. */
  method FromIter(items: seq<u64>, n: u64, hash: u64 -> u64, checked: bool) returns (r: Result<HyperLogLog, Fault>)
    ensures r.Err? <==> exists x :: x in items && !Fits(x, n, hash, checked)
    ensures r.Ok? ==>
              && fresh(r.value) && fresh(r.value.registers) && r.value.Valid()
              && r.value.registers.Length == n && r.value.hash == hash && r.value.checked == checked
              && r.value.items == SetOf(items)
              && (n >= 2 ==> r.value.registers[..] == Sketch(items, n, hash))
  {
    hide Slot, Rank, Summarises, IndexBits;
    var sketch := new HyperLogLog(n, hash, checked);
    for i := 0 to |items|
      invariant fresh(sketch) && fresh(sketch.registers) && sketch.Valid()
      invariant sketch.registers.Length == n && sketch.hash == hash && sketch.checked == checked
      invariant sketch.items == SetOf(items[..i]) && forall x :: x in items[..i] ==> Fits(x, n, hash, checked)
      invariant n >= 2 ==> sketch.registers[..] == Sketch(items[..i], n, hash)
    {
      var added := sketch.Add(items[i]);
      if added.Err? {
        assert !Fits(items[i], n, hash, checked);
        return Err(added.error);
      }
      assert items[..i + 1] == items[..i] + [items[i]] && items[..i + 1][..i] == items[..i];
    }
    assert items[..|items|] == items;
    r := Ok(sketch);
  }
}
