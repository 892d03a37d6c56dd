/** The `k` smallest items by key, with a buffer of at most `2 * k` items and a threshold that only goes down. */
module TopK {
  import opened Wrappers
  import opened Ordering

  /** Keys with a total order, and the key of each item. */
  datatype Keyed<!T, !Key> = Keyed(key: T -> Key, leq: (Key, Key) -> bool) {
    predicate ItemLeq(x: T, y: T) {
      leq(key(x), key(y))
    }
  }

  ghost predicate TotalOrder<Key(!new)>(leq: (Key, Key) -> bool) {
    TotalPreorder(leq) && forall x, y :: leq(x, y) && leq(y, x) ==> x == y
  }

  ghost predicate ByKey<T, Key>(o: Keyed<T, Key>, s: seq<T>) {
    forall i, j :: 0 <= i < j < |s| ==> o.ItemLeq(s[i], s[j])
  }

  /** Every item of `m` has a key of at least `t`. */
  ghost predicate AtLeast<T, Key>(o: Keyed<T, Key>, t: Key, m: multiset<T>) {
    forall x :: x in m ==> o.leq(t, o.key(x))
  }

  // ----- the library's sorting and selection -----

  method SortByKey<T(!new), Key(!new)>(o: Keyed<T, Key>, s: seq<T>) returns (r: seq<T>)
    requires TotalOrder(o.leq)
    ensures multiset(r) == multiset(s) && ByKey(o, r)
  {
    var leq := (x, y) => o.ItemLeq(x, y);
    SortOfCorrect(leq, s);
    r := SortOf(leq, s);
  }

  /** Moves the item of rank `n` to its place, smaller items before it and larger ones after it. */
  method SelectNth<T(!new), Key(!new)>(o: Keyed<T, Key>, s: seq<T>, n: nat) returns (r: seq<T>)
    requires TotalOrder(o.leq) && n < |s|
    ensures multiset(r) == multiset(s) && |r| == |s|
    ensures forall i :: 0 <= i < n ==> o.ItemLeq(r[i], r[n])
    ensures forall i :: n < i < |r| ==> o.ItemLeq(r[n], r[i])
  {
    r := SortByKey(o, s);
    assert |multiset(r)| == |r| && |multiset(s)| == |s|;
  }

  // ----- counting -----

  lemma SubsetSize<T>(a: multiset<T>, b: multiset<T>)
    requires a <= b
    ensures |a| <= |b|
  {
    assert b == a + (b - a);
  }

  /** If `k` items of `s` have keys of at most `t`, the item of rank `k - 1` does too. */
  lemma RankBelow<T(!new), Key(!new)>(o: Keyed<T, Key>, small: seq<T>, r: seq<T>, k: nat, t: Key)
    requires TotalOrder(o.leq) && 0 < k <= |r| && |small| == k && multiset(small) <= multiset(r)
    requires forall i :: 0 <= i < k ==> o.leq(o.key(small[i]), t)
    requires forall i :: k - 1 < i < |r| ==> o.ItemLeq(r[k - 1], r[i])
    ensures o.leq(o.key(r[k - 1]), t)
  {
    if !o.leq(o.key(r[k - 1]), t) {
      var front, back := r[..k - 1], r[k - 1..];
      assert r == front + back;
      forall i | 0 <= i < |back| ensures !o.leq(o.key(back[i]), t) {
        assert back[i] == r[k - 1 + i];
      }
      forall x | x in multiset(small) ensures multiset(small)[x] <= multiset(front)[x] {
        assert x in small;
        var j :| 0 <= j < k && small[j] == x;
        assert x !in back;
      }
      SubsetSize(multiset(small), multiset(front));
      assert false;
    }
  }

  // ----- the loop -----

  /** What the loop knows after `seen`: nothing was dropped yet, or `k` kept items are within the threshold
      and everything dropped is at or beyond it. */
  ghost predicate Kept<T, Key>(o: Keyed<T, Key>, k: nat, seen: seq<T>, topK: seq<T>, threshold: Option<Key>, dropped: multiset<T>) {
    && multiset(seen) == multiset(topK) + dropped
    && match threshold
       case None => dropped == multiset{}
       case Some(t) =>
         |topK| >= k && AtLeast(o, t, dropped) && forall i :: 0 <= i < k ==> o.leq(o.key(topK[i]), t)
  }

  lemma KeptSkip<T(!new), Key(!new)>(o: Keyed<T, Key>, k: nat, seen: seq<T>, topK: seq<T>, t: Key, dropped: multiset<T>, hit: T)
    requires TotalOrder(o.leq) && Kept(o, k, seen, topK, Some(t), dropped) && !o.leq(o.key(hit), t)
    ensures Kept(o, k, seen + [hit], topK, Some(t), dropped + multiset{hit})
  {
  }

  lemma KeptPush<T, Key>(o: Keyed<T, Key>, k: nat, seen: seq<T>, topK: seq<T>, threshold: Option<Key>, dropped: multiset<T>, hit: T)
    requires Kept(o, k, seen, topK, threshold, dropped)
    ensures Kept(o, k, seen + [hit], topK + [hit], threshold, dropped)
  {
  }

  lemma KeptTruncate<T(!new), Key(!new)>(o: Keyed<T, Key>, k: nat, seen: seq<T>, topK: seq<T>, threshold: Option<Key>,
                                         dropped: multiset<T>, selected: seq<T>)
    requires TotalOrder(o.leq) && Kept(o, k, seen, topK, threshold, dropped) && 0 < k <= |topK|
    requires multiset(selected) == multiset(topK) && |selected| == |topK|
    requires forall i :: 0 <= i < k - 1 ==> o.ItemLeq(selected[i], selected[k - 1])
    requires forall i :: k - 1 < i < |selected| ==> o.ItemLeq(selected[k - 1], selected[i])
    ensures Kept(o, k, seen, selected[..k], Some(o.key(selected[k - 1])), dropped + multiset(selected[k..]))
  {
    var t := o.key(selected[k - 1]);
    assert selected == selected[..k] + selected[k..];
    if threshold.Some? {
      assert topK == topK[..k] + topK[k..];
      RankBelow(o, topK[..k], selected, k, threshold.value);
    }
    forall x | x in multiset(selected[k..]) ensures o.leq(t, o.key(x)) {
      assert x in selected[k..];
      var i :| 0 <= i < |selected[k..]| && selected[k..][i] == x;
      assert selected[k + i] == x;
    }
  }

  // ----- the result -----

  ghost function KeysOf<T, Key>(o: Keyed<T, Key>, s: seq<T>): seq<Key> {
    seq(|s|, i requires 0 <= i < |s| => o.key(s[i]))
  }

  method SortedK<T(!new), Key(!new)>(o: Keyed<T, Key>, hits: seq<T>, k: nat) returns (r: seq<T>)
    requires TotalOrder(o.leq)
    ensures |r| == Min(k, |hits|) && ByKey(o, r) && multiset(r) <= multiset(hits)
    ensures forall s :: ByKey(o, s) && multiset(s) == multiset(hits) ==> KeysOf(o, r) <= KeysOf(o, s)
  {
    hide TotalOrder, Kept, ByKey, AtLeast, KeysOf;
    if k == 0 {
      NoKeys(o, hits);
      return [];
    }
    var taken := Min(k, |hits|);
    var topK := hits[..taken];
    var threshold: Option<Key> := None;
    ghost var dropped: multiset<T> := multiset{};
    KeptInit(o, k, topK);
    for i := taken to |hits|
      invariant Kept(o, k, hits[..i], topK, threshold, dropped)
      invariant taken <= |topK| < 2 * k
    {
      var hit := hits[i];
      assert hits[..i + 1] == hits[..i] + [hit];
      if threshold.Some? {
        if !o.leq(o.key(hit), threshold.value) {
          KeptSkip(o, k, hits[..i], topK, threshold.value, dropped, hit);
          dropped := dropped + multiset{hit};
          continue;
        }
      }
      KeptPush(o, k, hits[..i], topK, threshold, dropped, hit);
      topK := topK + [hit];
      if |topK| >= 2 * k {
        var selected := SelectNth(o, topK, k - 1);
        KeptTruncate(o, k, hits[..i + 1], topK, threshold, dropped, selected);
        threshold := Some(o.key(selected[k - 1]));
        dropped := dropped + multiset(selected[k..]);
        topK := selected[..k];
      }
    }
    assert hits[..|hits|] == hits;
    var sorted := SortByKey(o, topK);
    KeptResult(o, k, hits, topK, threshold, dropped, sorted);
    r := sorted[..Min(k, |sorted|)];
    dropped := dropped + multiset(sorted[Min(k, |sorted|)..]);
    forall s | ByKey(o, s) && multiset(s) == multiset(hits) ensures KeysOf(o, r) <= KeysOf(o, s) {
      FirstKeys(o, r, dropped, s);
    }
  }

  lemma NoKeys<T, Key>(o: Keyed<T, Key>, hits: seq<T>)
    ensures ByKey(o, []) && forall s :: KeysOf(o, []) <= KeysOf(o, s)
  {
  }

  lemma KeptInit<T, Key>(o: Keyed<T, Key>, k: nat, topK: seq<T>)
    ensures Kept(o, k, topK, topK, None, multiset{})
  {
  }

  lemma TailAtLeast<T, Key>(o: Keyed<T, Key>, sorted: seq<T>, cut: nat, i: nat)
    requires ByKey(o, sorted) && i < cut <= |sorted|
    ensures AtLeast(o, o.key(sorted[i]), multiset(sorted[cut..]))
  {
    forall x | x in multiset(sorted[cut..]) ensures o.leq(o.key(sorted[i]), o.key(x)) {
      assert x in sorted[cut..];
      var j :| 0 <= j < |sorted[cut..]| && sorted[cut..][j] == x;
      assert sorted[cut + j] == x;
    }
  }

  /** Everything dropped has a key of at least that of every item kept. */
  lemma DroppedAtLeast<T(!new), Key(!new)>(o: Keyed<T, Key>, k: nat, hits: seq<T>, topK: seq<T>, t: Key,
                                           dropped: multiset<T>, sorted: seq<T>, i: nat)
    requires TotalOrder(o.leq) && Kept(o, k, hits, topK, Some(t), dropped) && i < k <= |sorted|
    requires multiset(sorted) == multiset(topK) && ByKey(o, sorted)
    ensures AtLeast(o, o.key(sorted[i]), dropped)
  {
    assert topK == topK[..k] + topK[k..];
    RankBelow(o, topK[..k], sorted, k, t);
    assert i < k - 1 ==> o.ItemLeq(sorted[i], sorted[k - 1]);
  }

  lemma KeptResult<T(!new), Key(!new)>(o: Keyed<T, Key>, k: nat, hits: seq<T>, topK: seq<T>, threshold: Option<Key>,
                                       dropped: multiset<T>, sorted: seq<T>)
    requires TotalOrder(o.leq) && Kept(o, k, hits, topK, threshold, dropped) && 0 < k
    requires multiset(sorted) == multiset(topK) && ByKey(o, sorted)
    ensures var cut := Min(k, |sorted|);
            && cut == Min(k, |hits|) && ByKey(o, sorted[..cut])
            && multiset(hits) == multiset(sorted[..cut]) + (dropped + multiset(sorted[cut..]))
            && forall i :: 0 <= i < cut ==> AtLeast(o, o.key(sorted[i]), dropped + multiset(sorted[cut..]))
  {
    hide TotalOrder;
    var cut := Min(k, |sorted|);
    assert sorted == sorted[..cut] + sorted[cut..];
    assert |multiset(sorted)| == |sorted| && |multiset(topK)| == |topK| && |multiset(hits)| == |hits|;
    forall i | 0 <= i < cut ensures AtLeast(o, o.key(sorted[i]), dropped + multiset(sorted[cut..])) {
      TailAtLeast(o, sorted, cut, i);
      if threshold.Some? {
        DroppedAtLeast(o, k, hits, topK, threshold.value, dropped, sorted, i);
      }
    }
  }

  // ----- the result is the start of the sorted input -----

  lemma KeysParts<T, Key>(o: Keyed<T, Key>, a: seq<T>, b: seq<T>)
    ensures KeysOf(o, a + b) == KeysOf(o, a) + KeysOf(o, b)
  {
  }

  lemma {:induction false} KeysPermute<T, Key>(o: Keyed<T, Key>, a: seq<T>, b: seq<T>)
    requires multiset(a) == multiset(b)
    ensures multiset(KeysOf(o, a)) == multiset(KeysOf(o, b))
    decreases |a|
  {
    assert |multiset(a)| == |a| && |multiset(b)| == |b|;
    if a != [] {
      assert a[0] in multiset(b);
      var j :| 0 <= j < |b| && b[j] == a[0];
      var others := b[..j] + b[j + 1..];
      MultisetCons(a);
      MultisetRemove(b, j);
      assert multiset(a[1..]) == multiset(others);
      KeysPermute(o, a[1..], others);
      MultisetCons(KeysOf(o, a));
      MultisetRemove(KeysOf(o, b), j);
      assert KeysOf(o, a)[1..] == KeysOf(o, a[1..]);
      assert KeysOf(o, b)[..j] + KeysOf(o, b)[j + 1..] == KeysOf(o, others);
    }
  }

  lemma {:induction false} SortedUnique<Key(!new)>(leq: (Key, Key) -> bool, a: seq<Key>, b: seq<Key>)
    requires TotalOrder(leq) && Sorted(leq, a) && Sorted(leq, b) && multiset(a) == multiset(b)
    ensures a == b
    decreases |a|
  {
    assert |multiset(a)| == |a| && |multiset(b)| == |b|;
    if a != [] {
      SortedTail(leq, a);
      SortedTail(leq, b);
      MultisetCons(a);
      MultisetCons(b);
      assert a[0] in multiset(b) && b[0] in multiset(a);
      assert a[0] == b[0];
      assert multiset(a[1..]) == multiset(a) - multiset{a[0]};
      SortedUnique(leq, a[1..], b[1..]);
    }
  }

  lemma SortedKeysUnique<T(!new), Key(!new)>(o: Keyed<T, Key>, a: seq<T>, b: seq<T>)
    requires TotalOrder(o.leq) && ByKey(o, a) && ByKey(o, b) && multiset(a) == multiset(b)
    ensures KeysOf(o, a) == KeysOf(o, b)
  {
    KeysPermute(o, a, b);
    SortedUnique(o.leq, KeysOf(o, a), KeysOf(o, b));
  }

  ghost function Listed<T>(m: multiset<T>): (s: seq<T>)
    ensures multiset(s) == m
  {
    if m == multiset{} then [] else var x :| x in m; [x] + Listed(m - multiset{x})
  }

  lemma JoinByKey<T, Key>(o: Keyed<T, Key>, r: seq<T>, rest: seq<T>)
    requires ByKey(o, r) && ByKey(o, rest)
    requires forall i :: 0 <= i < |r| ==> AtLeast(o, o.key(r[i]), multiset(rest))
    ensures ByKey(o, r + rest)
  {
    forall i, j | 0 <= i < j < |r + rest| ensures o.ItemLeq((r + rest)[i], (r + rest)[j]) {
      if i < |r| <= j { assert (r + rest)[j] in multiset(rest); }
    }
  }

  lemma SortedIsByKey<T(!new), Key(!new)>(o: Keyed<T, Key>, m: multiset<T>) returns (s: seq<T>)
    requires TotalOrder(o.leq)
    ensures ByKey(o, s) && multiset(s) == m
  {
    var leq := (x, y) => o.ItemLeq(x, y);
    s := SortOf(leq, Listed(m));
    SortOfCorrect(leq, Listed(m));
  }

  /** Items that come before or with all others have the first keys of any sorted arrangement. */
  lemma FirstKeys<T(!new), Key(!new)>(o: Keyed<T, Key>, r: seq<T>, dropped: multiset<T>, s: seq<T>)
    requires TotalOrder(o.leq) && ByKey(o, r) && ByKey(o, s) && multiset(s) == multiset(r) + dropped
    requires forall i :: 0 <= i < |r| ==> AtLeast(o, o.key(r[i]), dropped)
    ensures KeysOf(o, r) <= KeysOf(o, s)
  {
    hide TotalOrder, ByKey, AtLeast;
    var rest := SortedIsByKey(o, dropped);
    JoinByKey(o, r, rest);
    SortedKeysUnique(o, r + rest, s);
    KeysParts(o, r, rest);
  }
}
