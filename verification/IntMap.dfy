/** A hash table from 64-bit integers, with bins that are kept sorted and grow by half. */
module IntMap {
  import opened Wrappers
  import opened Hashing
  import opened Ordering

  /** The bin of a key among `n`. */
  function BinOf(key: u64, n: nat): (i: nat)
    requires n > 0
    ensures i < n
  {
    Mix(key) % n
  }

  /** What stops the program: a remainder of a division by zero. */
  datatype Fault = RemainderByZero

  /** Choosing a bin, which a table without bins cannot do. */
  function BinIndex(key: u64, n: nat): Result<nat, Fault> {
    if n == 0 then Err(RemainderByZero) else Ok(BinOf(key, n))
  }

  /** Half as much again, rounded down. */
  function Grown(n: nat): nat {
    n * 3 / 2
  }

  type Entry<V> = (u64, V)

  predicate KeyLeq<V(!new)>(a: Entry<V>, b: Entry<V>) {
    a.0 <= b.0
  }

  ghost predicate DistinctKeys<V(!new)>(s: seq<Entry<V>>) {
    forall i, j :: 0 <= i < j < |s| ==> s[i].0 != s[j].0
  }

  ghost predicate StrictlySorted<V(!new)>(s: seq<Entry<V>>) {
    forall i, j :: 0 <= i < j < |s| ==> s[i].0 < s[j].0
  }

  function SortByKey<V(!new)>(s: seq<Entry<V>>): seq<Entry<V>> {
    SortOf(KeyLeq<V>, s)
  }

  ghost predicate SameEntries<V(!new)>(a: seq<Entry<V>>, b: seq<Entry<V>>) {
    forall e :: e in a <==> e in b
  }

  /** Entries with distinct keys keep them in any order. */
  lemma DistinctPermutes<V(!new)>(s: seq<Entry<V>>, t: seq<Entry<V>>)
    requires multiset(s) == multiset(t) && DistinctKeys(s)
    ensures DistinctKeys(t)
  {
    forall i, j | 0 <= i < j < |t| ensures t[i].0 != t[j].0 {
      assert t[i] in multiset(s) && t[j] in multiset(s);
      var a :| 0 <= a < |s| && s[a] == t[i];
      var b :| 0 <= b < |s| && s[b] == t[j];
      if t[i] == t[j] {
        Twice(t, i, j);
        Once(s, a);
      }
    }
  }

  lemma Twice<T>(t: seq<T>, i: nat, j: nat)
    requires i < j < |t| && t[i] == t[j]
    ensures multiset(t)[t[i]] >= 2
  {
    assert t == t[..i] + [t[i]] + t[i + 1..j] + [t[j]] + t[j + 1..];
  }

  lemma Once<V(!new)>(s: seq<Entry<V>>, a: nat)
    requires DistinctKeys(s) && a < |s|
    ensures multiset(s)[s[a]] == 1
  {
    var before, after := s[..a], s[a + 1..];
    assert forall k :: 0 <= k < |before| ==> before[k] == s[k];
    assert forall k :: 0 <= k < |after| ==> after[k] == s[k + a + 1];
    assert s[a] !in before && s[a] !in after;
    assert s == before + [s[a]] + after;
    assert multiset(s) == multiset(before) + multiset{s[a]} + multiset(after);
  }

  /** Sorting keeps the entries; entries with distinct keys come out strictly sorted. */
  lemma SortByKeyIs<V(!new)>(s: seq<Entry<V>>)
    ensures SameEntries(SortByKey(s), s)
    ensures DistinctKeys(s) ==> StrictlySorted(SortByKey(s))
  {
    hide SortOf;
    SortOfCorrect(KeyLeq<V>, s);
    var sorted := SortByKey(s);
    assert forall e :: e in sorted <==> e in multiset(sorted);
    assert forall e :: e in s <==> e in multiset(s);
    if DistinctKeys(s) {
      DistinctPermutes(s, sorted);
    }
  }

  // ----- what a table holds -----

  /** The entries of `s` that belong in bin `i` of `n`, in order. */
  ghost function Belonging<V(!new)>(s: seq<Entry<V>>, n: nat, i: nat): seq<Entry<V>>
    requires n > 0
  {
    if s == [] then []
    else
      var last := s[|s| - 1];
      Belonging(s[..|s| - 1], n, i) + if BinOf(last.0, n) == i then [last] else []
  }

  lemma {:induction false} BelongingIs<V(!new)>(s: seq<Entry<V>>, n: nat, i: nat)
    requires n > 0
    ensures forall e :: e in Belonging(s, n, i) <==> e in s && BinOf(e.0, n) == i
    ensures DistinctKeys(s) ==> DistinctKeys(Belonging(s, n, i))
  {
    hide BinOf;
    if s != [] {
      var init, last := s[..|s| - 1], s[|s| - 1];
      assert s == init + [last];
      BelongingIs(init, n, i);
      if DistinctKeys(s) {
        assert forall i :: 0 <= i < |init| ==> init[i] == s[i];
        assert DistinctKeys(init);
        var r := Belonging(init, n, i);
        forall k | 0 <= k < |r| ensures r[k].0 != last.0 {
          assert r[k] in init;
          var j :| 0 <= j < |init| && init[j] == r[k];
        }
      }
    }
  }

  /** Bin `i` of `n` holds, strictly sorted, entries of `model` that belong there. */
  ghost predicate BinOk<V(!new)>(bin: seq<Entry<V>>, n: nat, i: nat, model: map<u64, V>)
    requires n > 0
  {
    && StrictlySorted(bin)
    && (forall e :: e in bin ==> BinOf(e.0, n) == i && e.0 in model && model[e.0] == e.1)
  }

  /** The bins represent `model`. */
  ghost predicate Represents<V(!new)>(bins: seq<seq<Entry<V>>>, model: map<u64, V>) {
    && |bins| > 0
    && (forall i :: 0 <= i < |bins| ==> BinOk(bins[i], |bins|, i, model))
    && (forall k :: k in model ==> (k, model[k]) in bins[BinOf(k, |bins|)])
  }

  /** Looking in the one bin of a key decides whether it is in the map. */
  lemma LookupDecides<V(!new)>(bins: seq<seq<Entry<V>>>, model: map<u64, V>, key: u64)
    requires Represents(bins, model)
    ensures var bin := bins[BinOf(key, |bins|)];
            && StrictlySorted(bin)
            && (forall i :: 0 <= i < |bin| && bin[i].0 == key ==> key in model && model[key] == bin[i].1)
            && ((forall i :: 0 <= i < |bin| ==> bin[i].0 != key) ==> key !in model)
  {
    hide BinOf, StrictlySorted;
    var i := BinOf(key, |bins|);
    assert BinOk(bins[i], |bins|, i, model);
  }

  class IntMap<V(!new)> {
    var bins: seq<seq<Entry<V>>>
    var len: nat
    ghost var model: map<u64, V>

    ghost predicate Valid()
      reads this
    {
      && (if bins == [] then model == map[] else Represents(bins, model))
      && len == |model|
      && (|bins| >= 2 ==> len <= Grown(|bins|))
    }

    constructor (capacity: nat)
      ensures Valid() && model == map[] && |bins| == capacity
    {
      bins := seq(capacity, _ => []);
      len, model := 0, map[];
    }

    /** Faults exactly on a table without bins. */
    method Get(key: u64) returns (r: Result<Option<V>, Fault>)
      requires Valid()
      ensures r.Err? <==> bins == []
      ensures r.Ok? ==> r.value == if key in model then Some(model[key]) else None
    {
      hide BinOf, Represents;
      var idx := BinIndex(key, |bins|);
      if idx.Err? { return Err(idx.error); }
      LookupDecides(bins, model, key);
      var bin := bins[idx.value];
      var lo, hi := 0, |bin|;
      while lo < hi
        invariant 0 <= lo <= hi <= |bin|
        invariant forall i :: 0 <= i < lo ==> bin[i].0 < key
        invariant forall i :: hi <= i < |bin| ==> key < bin[i].0
      {
        var mid := lo + (hi - lo) / 2;
        if bin[mid].0 == key {
          return Ok(Some(bin[mid].1));
        }
        if bin[mid].0 < key { lo := mid + 1; } else { hi := mid; }
      }
      r := Ok(None);
    }

    /** Writes through the reference that `get_mut` returns, if it returns one. */
    method GetMutAndSet(key: u64, value: V) returns (found: Result<bool, Fault>)
      requires Valid()
      modifies this
      ensures Valid() && (found.Err? <==> old(bins) == [])
      ensures found.Ok? ==> found.value == (key in old(model))
      ensures model == if found == Ok(true) then old(model)[key := value] else old(model)
      ensures len == old(len) && |bins| == old(|bins|)
    {
      hide BinOf, Represents;
      if BinIndex(key, |bins|).Err? { return Err(RemainderByZero); }
      var b, idx := FindInBin(key);
      if idx.None? { return Ok(false); }
      ReplaceEntry(bins, model, key, value, idx.value);
      bins := bins[b := bins[b][idx.value := (key, value)]];
      assert model[key := value].Keys == model.Keys;
      model := model[key := value];
      found := Ok(true);
    }

    /** The bin of the key and its place there. */
    method FindInBin(key: u64) returns (b: nat, idx: Option<nat>)
      requires Valid() && bins != []
      ensures b == BinOf(key, |bins|) && b < |bins|
      ensures idx.Some? ==> idx.value < |bins[b]| && bins[b][idx.value].0 == key && key in model
      ensures idx.None? ==> key !in model && forall e :: e in bins[b] ==> e.0 != key
    {
      hide BinOf, StrictlySorted;
      b := BinOf(key, |bins|);
      assert BinOk(bins[b], |bins|, b, model);
      for i := 0 to |bins[b]|
        invariant forall j :: 0 <= j < i ==> bins[b][j].0 != key
      {
        if bins[b][i].0 == key {
          assert bins[b][i] in bins[b];
          return b, Some(i);
        }
      }
      idx := None;
    }

    /** With two bins or more the load stays at one and a half entries a bin; a single bin never becomes two. */
    method Insert(key: u64, value: V) returns (r: Result<(), Fault>)
      requires Valid()
      modifies this
      ensures Valid() && (r.Err? <==> old(bins) == [])
      ensures model == if r.Ok? then old(model)[key := value] else old(model)
      ensures |bins| >= old(|bins|) && (|bins| == 1 <==> old(|bins|) == 1)
    {
      hide BinOf, Represents;
      if len >= Grown(|bins|) {
        Grow();
      }
      if BinIndex(key, |bins|).Err? { return Err(RemainderByZero); }
      var b, idx := FindInBin(key);
      if idx.Some? {
        ReplaceEntry(bins, model, key, value, idx.value);
        bins := bins[b := bins[b][idx.value := (key, value)]];
        assert model[key := value].Keys == model.Keys;
      } else {
        AddEntry(bins, model, key, value);
        bins := bins[b := SortByKey(bins[b] + [(key, value)])];
        len := len + 1;
        assert model[key := value].Keys == model.Keys + {key};
      }
      model := model[key := value];
      r := Ok(());
    }

    /** Rehashes every entry into half as many bins again; the contents do not change. */
    method Grow()
      requires Valid()
      modifies this`bins
      ensures Valid() && |bins| == Grown(old(|bins|)) && |bins| >= old(|bins|)
    {
      hide BinOf, Represents, Belonging;
      var was := bins;
      var n := Grown(|was|);
      bins := seq(n, _ => []);
      ghost var done: seq<Entry<V>> := [];
      BelongingNone<V>(n);
      for a := 0 to |was|
        invariant |bins| == n && done == Flat(was[..a])
        invariant forall i :: 0 <= i < n ==> bins[i] == Belonging(done, n, i)
      {
        for b := 0 to |was[a]|
          invariant |bins| == n && done == Flat(was[..a]) + was[a][..b]
          invariant forall i :: 0 <= i < n ==> bins[i] == Belonging(done, n, i)
        {
          var e := was[a][b];
          var idx := BinOf(e.0, n);
          BelongingOne(done, e, n);
          bins := bins[idx := bins[idx] + [e]];
          done := done + [e];
        }
        FlatOne(was, a);
      }
      assert was[..|was|] == was;
      SortBins();
      if was != [] {
        Rehashed(was, model, bins);
      }
    }

    method SortBins()
      modifies this`bins
      ensures |bins| == |old(bins)| && forall j :: 0 <= j < |bins| ==> bins[j] == SortByKey(old(bins)[j])
    {
      hide SortByKey;
      for i := 0 to |bins|
        invariant |bins| == |old(bins)|
        invariant forall j :: 0 <= j < |bins| ==> bins[j] == if j < i then SortByKey(old(bins)[j]) else old(bins)[j]
      {
        bins := bins[i := SortByKey(bins[i])];
      }
    }
  }

  // ----- changing one bin -----

  /** Bin `b` with one entry for `key` set to `value`. */
  ghost predicate BinSet<V(!new)>(bin: seq<Entry<V>>, bin': seq<Entry<V>>, key: u64, value: V) {
    StrictlySorted(bin') && forall e :: e in bin' <==> e == (key, value) || (e in bin && e.0 != key)
  }

  lemma UpdateBin<V(!new)>(bins: seq<seq<Entry<V>>>, model: map<u64, V>, key: u64, value: V, bin': seq<Entry<V>>)
    requires Represents(bins, model) && BinSet(bins[BinOf(key, |bins|)], bin', key, value)
    ensures Represents(bins[BinOf(key, |bins|) := bin'], model[key := value])
  {
    hide BinOf, StrictlySorted;
    var n, b := |bins|, BinOf(key, |bins|);
    var bins', model' := bins[b := bin'], model[key := value];
    forall i | 0 <= i < n ensures BinOk(bins'[i], n, i, model') {
      assert BinOk(bins[i], n, i, model);
    }
    forall k | k in model' ensures (k, model'[k]) in bins'[BinOf(k, n)] {
      if k != key { assert (k, model[k]) in bins[BinOf(k, n)]; }
    }
  }

  lemma ReplaceEntry<V(!new)>(bins: seq<seq<Entry<V>>>, model: map<u64, V>, key: u64, value: V, idx: nat)
    requires Represents(bins, model)
    requires idx < |bins[BinOf(key, |bins|)]| && bins[BinOf(key, |bins|)][idx].0 == key
    ensures var b := BinOf(key, |bins|);
            Represents(bins[b := bins[b][idx := (key, value)]], model[key := value])
  {
    var b := BinOf(key, |bins|);
    assert BinOk(bins[b], |bins|, b, model);
    ReplacedBin(bins[b], key, value, idx);
    hide BinOf, BinSet;
    UpdateBin(bins, model, key, value, bins[b][idx := (key, value)]);
  }

  lemma ReplacedBin<V(!new)>(bin: seq<Entry<V>>, key: u64, value: V, idx: nat)
    requires StrictlySorted(bin) && idx < |bin| && bin[idx].0 == key
    ensures BinSet(bin, bin[idx := (key, value)], key, value)
  {
    var bin' := bin[idx := (key, value)];
    forall e | e in bin && e.0 != key ensures e in bin' {
      var j :| 0 <= j < |bin| && bin[j] == e;
      assert bin'[j] == e;
    }
    assert bin'[idx] in bin';
    forall e | e in bin' && e != (key, value) ensures e in bin && e.0 != key {
      var j :| 0 <= j < |bin'| && bin'[j] == e;
    }
  }

  lemma AddedBin<V(!new)>(bin: seq<Entry<V>>, key: u64, value: V)
    requires StrictlySorted(bin) && forall e :: e in bin ==> e.0 != key
    ensures BinSet(bin, SortByKey(bin + [(key, value)]), key, value)
  {
    var more := bin + [(key, value)];
    forall j | 0 <= j < |bin| ensures bin[j].0 != key {
      assert bin[j] in bin;
    }
    assert DistinctKeys(more);
    SortByKeyIs(more);
  }

  lemma AddEntry<V(!new)>(bins: seq<seq<Entry<V>>>, model: map<u64, V>, key: u64, value: V)
    requires Represents(bins, model) && key !in model
    ensures var b := BinOf(key, |bins|);
            Represents(bins[b := SortByKey(bins[b] + [(key, value)])], model[key := value])
  {
    var b := BinOf(key, |bins|);
    assert BinOk(bins[b], |bins|, b, model);
    AddedBin(bins[b], key, value);
    hide BinOf, BinSet;
    UpdateBin(bins, model, key, value, SortByKey(bins[b] + [(key, value)]));
  }

  // ----- rehashing -----

  ghost function Flat<V(!new)>(bins: seq<seq<Entry<V>>>): seq<Entry<V>> {
    if bins == [] then [] else Flat(bins[..|bins| - 1]) + bins[|bins| - 1]
  }

  lemma FlatOne<V(!new)>(bins: seq<seq<Entry<V>>>, a: nat)
    requires a < |bins|
    ensures Flat(bins[..a + 1]) == Flat(bins[..a]) + bins[a][..|bins[a]|]
  {
    assert bins[..a + 1][..a] == bins[..a] && bins[a][..|bins[a]|] == bins[a];
  }

  lemma BelongingNone<V(!new)>(n: nat)
    ensures forall i :: 0 <= i < n ==> Belonging<V>([], n, i) == []
  {
  }

  lemma BelongingOne<V(!new)>(s: seq<Entry<V>>, e: Entry<V>, n: nat)
    requires n > 0
    ensures forall i :: 0 <= i < n ==>
              Belonging(s + [e], n, i) == Belonging(s, n, i) + if BinOf(e.0, n) == i then [e] else []
  {
    assert (s + [e])[..|s|] == s;
  }

  /** Entries of different bins have different keys. */
  lemma {:induction false} FlatDistinct<V(!new)>(bins: seq<seq<Entry<V>>>, model: map<u64, V>, m: nat)
    requires Represents(bins, model) && m <= |bins|
    ensures DistinctKeys(Flat(bins[..m]))
  {
    hide BinOf, Represents, DistinctKeys, StrictlySorted;
    if m == 0 {
      NoneDistinct<V>();
    } else {
      FlatDistinct(bins, model, m - 1);
      var front, last := Flat(bins[..m - 1]), bins[m - 1];
      assert bins[..m][..m - 1] == bins[..m - 1] && bins[..m][m - 1] == last;
      FlatMembers(bins, m - 1);
      forall x, y | x in front && y in last ensures x.0 != y.0 {
        var i :| 0 <= i < m - 1 && x in bins[i];
        KeysApart(bins, model, i, m - 1, x, y);
      }
      BinSorted(bins, model, m - 1);
      DistinctJoin(front, last);
    }
  }

  lemma NoneDistinct<V(!new)>()
    ensures DistinctKeys<V>([])
  {
  }

  lemma BinSorted<V(!new)>(bins: seq<seq<Entry<V>>>, model: map<u64, V>, i: nat)
    requires Represents(bins, model) && i < |bins|
    ensures StrictlySorted(bins[i])
  {
    assert BinOk(bins[i], |bins|, i, model);
  }

  lemma KeysApart<V(!new)>(bins: seq<seq<Entry<V>>>, model: map<u64, V>, i: nat, j: nat, x: Entry<V>, y: Entry<V>)
    requires Represents(bins, model) && i < |bins| && j < |bins| && i != j && x in bins[i] && y in bins[j]
    ensures x.0 != y.0
  {
    assert BinOk(bins[i], |bins|, i, model) && BinOk(bins[j], |bins|, j, model);
  }

  lemma {:induction false} FlatMembers<V(!new)>(bins: seq<seq<Entry<V>>>, m: nat)
    requires m <= |bins|
    ensures forall e :: e in Flat(bins[..m]) <==> exists i :: 0 <= i < m && e in bins[i]
  {
    if m > 0 {
      FlatMembers(bins, m - 1);
      assert bins[..m][..m - 1] == bins[..m - 1] && bins[..m][m - 1] == bins[m - 1];
      forall e ensures e in Flat(bins[..m]) <==> exists i :: 0 <= i < m && e in bins[i] {
        if e in bins[m - 1] { assert e in Flat(bins[..m]); }
      }
    }
  }

  lemma DistinctJoin<V(!new)>(a: seq<Entry<V>>, b: seq<Entry<V>>)
    requires DistinctKeys(a) && StrictlySorted(b) && forall x, y :: x in a && y in b ==> x.0 != y.0
    ensures DistinctKeys(a + b)
  {
  }

  /** Sorted bins of the entries that belong in each represent the same map. */
  lemma Rehashed<V(!new)>(was: seq<seq<Entry<V>>>, model: map<u64, V>, bins: seq<seq<Entry<V>>>)
    requires Represents(was, model) && |bins| > 0
    requires forall i :: 0 <= i < |bins| ==> bins[i] == SortByKey(Belonging(Flat(was), |bins|, i))
    ensures Represents(bins, model)
  {
    hide BinOf, SortByKey, Belonging;
    FlatDistinct(was, model, |was|);
    FlatMembers(was, |was|);
    assert was[..|was|] == was;
    var all, n := Flat(was), |bins|;
    forall i | 0 <= i < n ensures BinOk(bins[i], n, i, model) {
      SortByKeyIs(Belonging(all, n, i));
      BelongingIs(all, n, i);
      forall e | e in bins[i] ensures e.0 in model && model[e.0] == e.1 {
        assert e in all;
        var j :| 0 <= j < |was| && e in was[j];
        assert BinOk(was[j], |was|, j, model);
      }
    }
    forall k | k in model ensures (k, model[k]) in bins[BinOf(k, n)] {
      var i := BinOf(k, n);
      SortByKeyIs(Belonging(all, n, i));
      BelongingIs(all, n, i);
      assert (k, model[k]) in was[BinOf(k, |was|)];
      assert (k, model[k]) in all;
    }
  }

  // ----- from an iterator -----

  /** The map that inserting the entries in order makes. */
  ghost function Collected<V(!new)>(items: seq<Entry<V>>): map<u64, V> {
    if items == [] then map[]
    else Collected(items[..|items| - 1])[items[|items| - 1].0 := items[|items| - 1].1]
  }

  /** The capacity is the upper bound that the iterator gives for its length, or two. */
  method FromIter<V(!new)>(items: seq<Entry<V>>, upper: Option<nat>) returns (r: Result<IntMap<V>, Fault>)
    ensures r.Err? <==> upper == Some(0) && items != []
    ensures r.Ok? ==> fresh(r.value) && r.value.Valid() && r.value.model == Collected(items)
    ensures r.Ok? ==> (r.value.bins == [] <==> upper == Some(0))
  {
    hide Represents;
    var table := new IntMap<V>(if upper.Some? then upper.value else 2);
    for i := 0 to |items|
      invariant fresh(table) && table.Valid() && table.model == Collected(items[..i])
      invariant table.bins == [] <==> upper == Some(0)
      invariant upper == Some(0) ==> i == 0
    {
      var inserted := table.Insert(items[i].0, items[i].1);
      if inserted.Err? { return Err(inserted.error); }
      assert items[..i + 1][..i] == items[..i];
    }
    assert items[..|items|] == items;
    r := Ok(table);
  }

  /** Looking anything up in the table made from an empty iterator of known length stops the program. */
  method LookUpInEmpty<V(!new)>(key: u64) returns (r: Result<Option<V>, Fault>)
    ensures r == Err(RemainderByZero)
  {
    var table := FromIter<V>([], Some(0));
    r := table.value.Get(key);
    assert r.error.RemainderByZero?;
  }
}
