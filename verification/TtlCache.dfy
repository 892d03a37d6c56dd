/** A cache whose entries expire: two maps and a queue of keys, against the log of every insertion. */
module TtlCache {
  import opened Wrappers
  import opened Rows

  /** One call of `Insert`, at a clock reading. */
  datatype Insertion<K, V> = Insertion(key: K, value: V, at: nat)

  // ----- the reference: a log that forgets nothing -----

  /** Where `key` was last inserted, or -1. */
  ghost function LastAt<K(!new), V>(log: seq<Insertion<K, V>>, key: K): (i: int)
    ensures -1 <= i < |log|
    ensures i >= 0 ==> log[i].key == key
  {
    if log == [] then -1
    else if log[|log| - 1].key == key then |log| - 1
    else LastAt(log[..|log| - 1], key)
  }

  lemma {:induction false} LastAtIsLast<K(!new), V>(log: seq<Insertion<K, V>>, key: K)
    ensures forall j :: LastAt(log, key) < j < |log| ==> log[j].key != key
  {
    if log != [] && log[|log| - 1].key != key {
      LastAtIsLast(log[..|log| - 1], key);
    }
  }

  /** The latest value of `key` while it is younger than `ttl`. */
  ghost function Fresh<K(!new), V>(log: seq<Insertion<K, V>>, key: K, ttl: nat, now: nat): Option<V> {
    var i := LastAt(log, key);
    if i >= 0 && now - log[i].at < ttl then Some(log[i].value) else None
  }

  /** A key's latest insertion decides: its value, while it is younger than `ttl`; other keys do not see it. */
  lemma FreshStep<K(!new), V>(log: seq<Insertion<K, V>>, e: Insertion<K, V>, key: K, ttl: nat, now: nat)
    ensures Fresh<K, V>([], key, ttl, now) == None
    ensures e.key == key ==> (Fresh(log + [e], key, ttl, now) == if now - e.at < ttl then Some(e.value) else None)
    ensures e.key != key ==> Fresh(log + [e], key, ttl, now) == Fresh(log, key, ttl, now)
  {
    LastAtAppend(log, e, key);
  }

  /** `key` was last inserted by one of the last `max` calls. */
  ghost predicate Recent<K(!new), V>(log: seq<Insertion<K, V>>, key: K, max: Option<nat>) {
    LastAt(log, key) >= 0 && (max.None? || |log| - LastAt(log, key) <= max.value)
  }

  ghost predicate InTimeOrder<K, V>(log: seq<Insertion<K, V>>, clock: nat) {
    && (forall i, j :: 0 <= i < j < |log| ==> log[i].at <= log[j].at)
    && (forall i :: 0 <= i < |log| ==> log[i].at <= clock)
  }

  lemma LastAtAppend<K(!new), V>(log: seq<Insertion<K, V>>, e: Insertion<K, V>, key: K)
    ensures LastAt(log + [e], key) == if e.key == key then |log| else LastAt(log, key)
  {
    assert (log + [e])[..|log|] == log;
  }

  // ----- the three collections -----

  /** The queue lists the keys of both maps, each once. */
  ghost predicate Tracks<K(!new), V>(data: map<K, V>, times: map<K, nat>, order: seq<K>) {
    && NoDup(order)
    && (forall k :: k in order <==> k in data)
    && (forall k :: k in order <==> k in times)
  }

  ghost predicate ByInsertion<K(!new), V>(log: seq<Insertion<K, V>>, order: seq<K>) {
    forall i, j :: 0 <= i < j < |order| ==> LastAt(log, order[i]) < LastAt(log, order[j])
  }

  /** Each key carries its latest insertion, and the queue is in order of those. */
  ghost predicate Logged<K(!new), V>(log: seq<Insertion<K, V>>, data: map<K, V>, times: map<K, nat>, order: seq<K>)
    requires Tracks(data, times, order)
  {
    && (forall k :: k in order ==> LastAt(log, k) >= 0 && log[LastAt(log, k)] == Insertion(k, data[k], times[k]))
    && ByInsertion(log, order)
  }

  /** No key that is recent and not expired at `clock` is missing. */
  ghost predicate Complete<K(!new), V>(log: seq<Insertion<K, V>>, order: seq<K>, ttl: nat, max: Option<nat>, clock: nat) {
    forall k :: Recent(log, k, max) && clock - log[LastAt(log, k)].at <= ttl ==> k in order
  }

  ghost predicate Fitting<K>(order: seq<K>, max: Option<nat>) {
    max.Some? ==> |order| <= max.value
  }

  lemma {:induction false} DistinctCount<K(!new)>(order: seq<K>, keys: set<K>)
    requires NoDup(order) && forall k :: k in order <==> k in keys
    ensures |keys| == |order|
  {
    if order == [] {
      assert keys == {};
    } else {
      var tail := order[1..];
      assert order == [order[0]] + tail;
      assert forall i :: 0 <= i < |tail| ==> tail[i] == order[i + 1];
      DistinctCount(tail, keys - {order[0]});
    }
  }

  lemma SizeIs<K(!new), V>(data: map<K, V>, times: map<K, nat>, order: seq<K>)
    requires Tracks(data, times, order)
    ensures |data| == |order|
  {
    DistinctCount(order, data.Keys);
  }

  // ----- what pruning keeps -----

  /** The queue after dropping from its front until there is room for one more. */
  ghost function WithRoom<K>(order: seq<K>, max: Option<nat>): seq<K>
    requires max != Some(0)
  {
    if max.Some? && |order| >= max.value then order[|order| - max.value + 1..] else order
  }

  /** The queue after dropping expired keys from its front. */
  ghost function Unexpired<K>(order: seq<K>, times: map<K, nat>, ttl: nat, now: nat): (r: seq<K>)
    requires forall k :: k in order ==> k in times
    ensures |r| <= |order| && r == order[|order| - |r|..]
  {
    if order == [] || now - times[order[0]] <= ttl then order else Unexpired(order[1..], times, ttl, now)
  }

  ghost function Kept<K>(order: seq<K>, times: map<K, nat>, max: Option<nat>, ttl: nat, now: nat): (r: seq<K>)
    requires max != Some(0) && forall k :: k in order ==> k in times
    ensures |r| <= |order| && r == order[|order| - |r|..]
  {
    var room := WithRoom(order, max);
    WithRoomIs(order, max);
    var r := Unexpired(room, times, ttl, now);
    EndOfEnd(order, |room|, |r|);
    r
  }

  lemma WithRoomIs<K>(order: seq<K>, max: Option<nat>)
    requires max != Some(0)
    ensures var room := WithRoom(order, max);
            |room| <= |order| && room == order[|order| - |room|..] && forall k :: k in room ==> k in order
  {
  }

  lemma EndOfEnd<K>(order: seq<K>, n: nat, k: nat)
    requires k <= n <= |order|
    ensures order[|order| - n..][n - k..] == order[|order| - k..]
  {
  }

  ghost predicate ByTime<K>(order: seq<K>, times: map<K, nat>) {
    && (forall k :: k in order ==> k in times)
    && (forall i, j :: 0 <= i < j < |order| ==> times[order[i]] <= times[order[j]])
  }

  lemma ByTimeSuffix<K>(order: seq<K>, times: map<K, nat>, d: nat)
    requires ByTime(order, times) && d <= |order|
    ensures ByTime(order[d..], times)
  {
    assert forall i :: 0 <= i < |order[d..]| ==> order[d..][i] == order[i + d];
  }

  /** In a queue ordered by time, exactly the expired keys go. */
  lemma {:induction false} UnexpiredIs<K(!new)>(order: seq<K>, times: map<K, nat>, ttl: nat, now: nat)
    requires ByTime(order, times)
    ensures forall k :: k in Unexpired(order, times, ttl, now) <==> k in order && now - times[k] <= ttl
  {
    if order == [] {
    } else {
      var tail := order[1..];
      assert order == [order[0]] + tail;
      if now - times[order[0]] > ttl {
        ByTimeSuffix(order, times, 1);
        UnexpiredIs(tail, times, ttl, now);
      }
    }
  }

  /** Every unexpired key of the queue is still there after an insertion. */
  ghost predicate Spared<K>(order: seq<K>, times: map<K, nat>, ttl: nat, now: nat, order': seq<K>)
    requires forall k :: k in order ==> k in times
  {
    forall k :: k in order && now - times[k] <= ttl ==> k in order'
  }

  /** There is no need to evict: the queue is not full, its front is expired or is the key itself. */
  ghost predicate RoomToSpare<K>(order: seq<K>, times: map<K, nat>, max: Option<nat>, ttl: nat, now: nat, key: K)
    requires forall k :: k in order ==> k in times
  {
    max.None? || |order| < max.value || (order != [] && (now - times[order[0]] > ttl || key == order[0]))
  }

  /** An insertion evicts an unexpired key exactly when the queue is full and its front neither expired nor the
      key: also when the key is there already and no room is needed. */
  lemma SparedIff<K(!new)>(order: seq<K>, times: map<K, nat>, max: Option<nat>, ttl: nat, now: nat, key: K)
    requires NoDup(order) && ByTime(order, times) && Fitting(order, max) && max != Some(0)
    ensures Spared(order, times, ttl, now, Remove(Kept(order, times, max, ttl, now), key) + [key])
       <==> RoomToSpare(order, times, max, ttl, now, key)
  {
    hide Unexpired, Remove;
    var room := WithRoom(order, max);
    var d := |order| - |room|;
    assert room == order[d..];
    ByTimeSuffix(order, times, d);
    UnexpiredIs(room, times, ttl, now);
    var kept := Kept(order, times, max, ttl, now);
    NoDupSuffix(order, |order| - |kept|);
    RemoveLinks(kept, key);
    if d > 0 {
      assert d == 1 && order == [order[0]] + room;
      NoDupSuffix(order, 1);
      assert order[0] in order && order[0] !in room by { FrontOnce(order); }
    }
  }

  lemma NoDupSuffix<K>(order: seq<K>, d: nat)
    requires NoDup(order) && d <= |order|
    ensures NoDup(order[d..])
  {
    assert forall i :: 0 <= i < |order[d..]| ==> order[d..][i] == order[i + d];
  }

  lemma FrontOnce<K>(order: seq<K>)
    requires NoDup(order) && order != []
    ensures order[0] in order && order[0] !in order[1..]
  {
    assert forall i :: 0 <= i < |order[1..]| ==> order[1..][i] == order[i + 1];
  }

  // ----- keeping step with the log -----

  /** The later collections are the earlier ones without some keys at the front of the queue. */
  ghost predicate Dropped<K(!new), V>(data: map<K, V>, times: map<K, nat>, order: seq<K>,
                                      data': map<K, V>, times': map<K, nat>, order': seq<K>)
    requires Tracks(data, times, order) && Tracks(data', times', order')
  {
    && |order'| <= |order|
    && order' == order[|order| - |order'|..]
    && (forall k :: k in order' ==> k in order && data'[k] == data[k] && times'[k] == times[k])
  }

  /** Dropping from the front of the queue keeps step with the log. */
  lemma DroppedLogged<K(!new), V>(log: seq<Insertion<K, V>>, data: map<K, V>, times: map<K, nat>, order: seq<K>,
                                  data': map<K, V>, times': map<K, nat>, order': seq<K>)
    requires Tracks(data, times, order) && Logged(log, data, times, order)
    requires Tracks(data', times', order') && Dropped(data, times, order, data', times', order')
    ensures Logged(log, data', times', order')
  {
    hide LastAt, ByInsertion, NoDup;
    SuffixInOrder(log, order, |order| - |order'|);
  }

  lemma SuffixInOrder<K(!new), V>(log: seq<Insertion<K, V>>, order: seq<K>, d: nat)
    requires ByInsertion(log, order) && d <= |order|
    ensures ByInsertion(log, order[d..])
  {
    hide LastAt;
    assert forall i :: 0 <= i < |order[d..]| ==> order[d..][i] == order[i + d];
  }

  lemma DroppedNone<K(!new), V>(data: map<K, V>, times: map<K, nat>, order: seq<K>)
    requires Tracks(data, times, order)
    ensures Dropped(data, times, order, data, times, order)
  {
    hide NoDup;
    assert order[0..] == order;
  }

  lemma DroppedSuffix<K(!new), V>(data: map<K, V>, times: map<K, nat>, order: seq<K>,
                                  data': map<K, V>, times': map<K, nat>, order': seq<K>)
    requires Tracks(data, times, order) && Tracks(data', times', order')
    requires Dropped(data, times, order, data', times', order')
    ensures |order'| <= |order| && order' == order[|order| - |order'|..]
  {
  }

  lemma DroppedMore<K(!new), V>(data: map<K, V>, times: map<K, nat>, order: seq<K>,
                                data1: map<K, V>, times1: map<K, nat>, order1: seq<K>,
                                data2: map<K, V>, times2: map<K, nat>, order2: seq<K>)
    requires Tracks(data, times, order) && Tracks(data1, times1, order1) && Tracks(data2, times2, order2)
    requires Dropped(data, times, order, data1, times1, order1) && Dropped(data1, times1, order1, data2, times2, order2)
    ensures Dropped(data, times, order, data2, times2, order2)
  {
    hide NoDup;
  }

  lemma TimesSorted<K(!new), V>(log: seq<Insertion<K, V>>, data: map<K, V>, times: map<K, nat>, order: seq<K>, clock: nat)
    requires Tracks(data, times, order) && Logged(log, data, times, order) && InTimeOrder(log, clock)
    ensures ByTime(order, times)
  {
    hide LastAt;
    forall i | 0 <= i < |order| ensures times[order[i]] == log[LastAt(log, order[i])].at {
      assert order[i] in order;
    }
  }

  /** The oldest of `max` keys was last inserted at least `max` calls ago. */
  lemma {:induction false} OldestIsOld<K(!new), V>(log: seq<Insertion<K, V>>, order: seq<K>, n: nat)
    requires n < |order|
    requires forall i :: 0 <= i < |order| ==> LastAt(log, order[i]) >= 0
    requires ByInsertion(log, order)
    ensures LastAt(log, order[0]) + n <= LastAt(log, order[n])
  {
    if n > 0 {
      OldestIsOld(log, order, n - 1);
    }
  }

  /** Making room for one more spares the keys that will still be recent after it. */
  lemma RoomSpares<K(!new), V>(log: seq<Insertion<K, V>>, order: seq<K>, max: Option<nat>, k: K)
    requires k in order && ByInsertion(log, order) && Fitting(order, max) && max != Some(0)
    requires forall i :: 0 <= i < |order| ==> LastAt(log, order[i]) >= 0
    requires max.Some? ==> |log| + 1 - LastAt(log, k) <= max.value
    ensures k in WithRoom(order, max)
  {
    hide LastAt;
    var room := WithRoom(order, max);
    if room != order {
      assert room == order[1..] && order == [order[0]] + room;
      OldestIsOld(log, order, |order| - 1);
    }
  }

  /** A key that will be recent after one more insertion, and is not expired, survives pruning. */
  lemma PruningSpares<K(!new), V>(log: seq<Insertion<K, V>>, data: map<K, V>, times: map<K, nat>, order: seq<K>,
                                  ttl: nat, max: Option<nat>, clock: nat, now: nat, k: K)
    requires Tracks(data, times, order) && Logged(log, data, times, order) && InTimeOrder(log, clock)
    requires Complete(log, order, ttl, max, clock) && Fitting(order, max) && max != Some(0) && clock <= now
    requires LastAt(log, k) >= 0 && (max.Some? ==> |log| + 1 - LastAt(log, k) <= max.value)
    requires now - log[LastAt(log, k)].at <= ttl
    ensures k in Kept(order, times, max, ttl, now)
  {
    hide Unexpired, LastAt, ByInsertion, ByTime, InTimeOrder, NoDup;
    assert Recent(log, k, max);
    AtMostNow(log, k, clock);
    assert k in order;
    TimesSorted(log, data, times, order, clock);
    assert log[LastAt(log, k)].at == times[k];
    KeysLogged(log, data, times, order);
    hide Tracks, Logged, Complete;
    RoomSpares(log, order, max, k);
    ByTimeSuffix(order, times, |order| - |WithRoom(order, max)|);
    UnexpiredIs(WithRoom(order, max), times, ttl, now);
  }

  lemma AtMostNow<K(!new), V>(log: seq<Insertion<K, V>>, k: K, clock: nat)
    requires InTimeOrder(log, clock) && LastAt(log, k) >= 0
    ensures log[LastAt(log, k)].at <= clock
  {
  }

  lemma KeysLogged<K(!new), V>(log: seq<Insertion<K, V>>, data: map<K, V>, times: map<K, nat>, order: seq<K>)
    requires Tracks(data, times, order) && Logged(log, data, times, order)
    ensures forall i :: 0 <= i < |order| ==> LastAt(log, order[i]) >= 0
  {
    hide LastAt;
    assert forall i :: 0 <= i < |order| ==> order[i] in order;
  }

  /** Adding the newest insertion at the end of the queue keeps step with the log. */
  lemma AddedLogged<K(!new), V>(log: seq<Insertion<K, V>>, data: map<K, V>, times: map<K, nat>, order: seq<K>,
                                e: Insertion<K, V>)
    requires Tracks(data, times, order) && Logged(log, data, times, order)
    ensures var data', times', order' := data[e.key := e.value], times[e.key := e.at], Remove(order, e.key) + [e.key];
            Tracks(data', times', order') && Logged(log + [e], data', times', order')
  {
    hide LastAt, ByInsertion, NoDup, Remove;
    var rest := Remove(order, e.key);
    RemoveLinks(order, e.key);
    NoDupAppend(rest, e.key);
    RemovedInOrder(log, order, e.key);
    AppendedInOrder(log, rest, e);
    forall k | k in rest + [e.key] ensures LastAt(log + [e], k) == if k == e.key then |log| else LastAt(log, k) {
      LastAtAppend(log, e, k);
    }
  }

  lemma NoDupAppend<K>(s: seq<K>, x: K)
    requires NoDup(s) && x !in s
    ensures NoDup(s + [x])
  {
  }

  lemma AppendedInOrder<K(!new), V>(log: seq<Insertion<K, V>>, order: seq<K>, e: Insertion<K, V>)
    requires ByInsertion(log, order) && e.key !in order
    ensures ByInsertion(log + [e], order + [e.key])
  {
    hide LastAt;
    forall i | 0 <= i <= |order|
      ensures LastAt(log + [e], (order + [e.key])[i]) == if i < |order| then LastAt(log, order[i]) else |log|
    {
      LastAtAppend(log, e, (order + [e.key])[i]);
    }
  }

  lemma RemovedInOrder<K(!new), V>(log: seq<Insertion<K, V>>, order: seq<K>, key: K)
    requires ByInsertion(log, order)
    ensures ByInsertion(log, Remove(order, key))
  {
    hide LastAt, IndexOf;
    if key in order {
      CutInOrder(log, order, IndexOf(order, key));
    }
  }

  lemma CutInOrder<K(!new), V>(log: seq<Insertion<K, V>>, order: seq<K>, x: nat)
    requires ByInsertion(log, order) && x < |order|
    ensures ByInsertion(log, order[..x] + order[x + 1..])
  {
    hide LastAt;
    var rest := order[..x] + order[x + 1..];
    assert forall i :: 0 <= i < |rest| ==> rest[i] == order[if i < x then i else i + 1];
  }

  /** After pruning and inserting, no recent unexpired key is missing. */
  lemma AddedComplete<K(!new), V>(log: seq<Insertion<K, V>>, data: map<K, V>, times: map<K, nat>, order: seq<K>,
                                  ttl: nat, max: Option<nat>, clock: nat, now: nat, e: Insertion<K, V>)
    requires Tracks(data, times, order) && Logged(log, data, times, order) && InTimeOrder(log, clock)
    requires Complete(log, order, ttl, max, clock) && Fitting(order, max) && max != Some(0) && clock <= now <= e.at
    ensures Complete(log + [e], Remove(Kept(order, times, max, ttl, now), e.key) + [e.key], ttl, max, e.at)
  {
    hide Kept, Remove;
    var log' := log + [e];
    var kept := Kept(order, times, max, ttl, now);
    assert NoDup(kept) by {
      var d := |order| - |kept|;
      assert forall i :: 0 <= i < |kept| ==> kept[i] == order[i + d];
    }
    RemoveLinks(kept, e.key);
    forall k | Recent(log', k, max) && e.at - log'[LastAt(log', k)].at <= ttl ensures k in Remove(kept, e.key) + [e.key] {
      LastAtAppend(log, e, k);
      if k != e.key {
        PruningSpares(log, data, times, order, ttl, max, clock, now, k);
      }
    }
  }

  /** What stops the program: taking from an empty queue. */
  datatype Fault = EmptyQueue

  lemma TracksKeys<K(!new), V>(data: map<K, V>, times: map<K, nat>, order: seq<K>)
    requires Tracks(data, times, order)
    ensures NoDup(order) && forall k :: k in order ==> k in times
  {
  }

  class TtlCache<K(==, !new), V(!new)> {
    const ttl: nat
    const maxSize: Option<nat>
    var data: map<K, V>
    var order: seq<K>
    var times: map<K, nat>
    ghost var log: seq<Insertion<K, V>>
    ghost var clock: nat

    ghost predicate Valid()
      reads this
    {
      && Tracks(data, times, order)
      && Logged(log, data, times, order)
      && InTimeOrder(log, clock)
      && Complete(log, order, ttl, maxSize, clock)
      && Fitting(order, maxSize)
    }

    constructor (ttl: nat, maxSize: Option<nat>)
      ensures Valid() && this.ttl == ttl && this.maxSize == maxSize && log == [] && clock == 0 && data == map[]
    {
      this.ttl, this.maxSize := ttl, maxSize;
      data, order, times := map[], [], map[];
      log, clock := [], 0;
    }

    /** Agrees with the log on every recent key, and never answers anything the log does not. */
    method Get(key: K, now: nat) returns (r: Option<V>)
      requires Valid() && clock <= now
      ensures Recent(log, key, maxSize) ==> r == Fresh(log, key, ttl, now)
      ensures r == Fresh(log, key, ttl, now) || r == None
      ensures maxSize == None ==> r == Fresh(log, key, ttl, now)
    {
      if key in times && now - times[key] < ttl {
        r := Some(data[key]);
      } else {
        r := None;
      }
    }

    /** Faults exactly when the maximal size is zero: making room then takes from an empty queue. */
    method Insert(key: K, val: V, pruneTime: nat, now: nat) returns (r: Result<(), Fault>)
      requires Valid() && clock <= pruneTime <= now
      modifies this
      ensures Valid() && (r.Err? <==> maxSize == Some(0))
      ensures r.Err? ==> log == old(log) && clock == old(clock) && order == old(order) == []
      ensures r.Ok? ==> clock == now && log == old(log) + [Insertion(key, val, now)]
      ensures r.Ok? ==> order == Remove(Kept(old(order), old(times), maxSize, ttl, pruneTime), key) + [key]
      ensures r.Ok? ==>
                (Spared(old(order), old(times), ttl, pruneTime, order)
                 <==> RoomToSpare(old(order), old(times), maxSize, ttl, pruneTime, key))
      ensures maxSize.Some? ==> |data| <= maxSize.value
    {
      hide Kept, Remove, LastAt, Complete, Tracks, Logged, InTimeOrder, Spared, RoomToSpare, ByTime;
      TracksKeys(data, times, order);
      SizeIs(data, times, order);
      if maxSize != Some(0) {
        AddedComplete(log, data, times, order, ttl, maxSize, clock, pruneTime, Insertion(key, val, now));
        TimesSorted(log, data, times, order, clock);
        SparedIff(order, times, maxSize, ttl, pruneTime, key);
      }
      var pruned := Prune(pruneTime);
      if pruned.Err? { return Err(pruned.error); }
      var e := Insertion(key, val, now);
      AddedLogged(log, data, times, order, e);
      RemoveSize(order, key);
      TimeOrderAppend(log, clock, e);
      if key in data {
        var idx := Position(key);
        order := order[..idx] + order[idx + 1..];
      } else {
        NothingToRemove(data, times, order, key);
      }
      data := data[key := val];
      times := times[key := now];
      order := order + [key];
      log, clock := log + [e], now;
      SizeIs(data, times, order);
      r := Ok(());
    }

    /** Where the key stands in the queue. */
    method Position(key: K) returns (idx: nat)
      requires Tracks(data, times, order) && key in data
      ensures idx < |order| && order[..idx] + order[idx + 1..] == Remove(order, key)
    {
      idx := 0;
      while order[idx] != key
        invariant idx < |order| && key !in order[..idx]
        decreases |order| - idx
      {
        idx := idx + 1;
      }
      IndexOfUnique(order, idx);
    }

    method PopFront()
      requires Tracks(data, times, order) && order != []
      modifies this`data, this`order, this`times
      ensures Tracks(data, times, order) && order == old(order)[1..]
      ensures Dropped(old(data), old(times), old(order), data, times, order)
    {
      var front := order[0];
      assert order == [front] + order[1..];
      assert forall i :: 0 <= i < |order[1..]| ==> order[1..][i] == order[i + 1];
      order := order[1..];
      times := times - {front};
      data := data - {front};
    }

    method Prune(now: nat) returns (r: Result<(), Fault>)
      requires Valid() && clock <= now
      modifies this`data, this`order, this`times
      ensures r.Err? <==> maxSize == Some(0)
      ensures r.Err? ==> data == old(data) && times == old(times) && order == old(order) == []
      ensures r.Ok? ==>
                && Tracks(data, times, order) && Logged(log, data, times, order)
                && (forall k :: k in old(order) ==> k in old(times))
                && order == Kept(old(order), old(times), maxSize, ttl, now)
                && (maxSize.Some? ==> |order| < maxSize.value)
    {
      hide LastAt, ByInsertion, Complete, Tracks, Logged, ByTime, InTimeOrder, Recent;
      TracksKeys(data, times, order);
      r := MakeRoom();
      if r.Err? { return; }
      ghost var data1, times1, order1 := data, times, order;
      DropExpired(now);
      PrunedIs(old(data), old(times), old(order), data1, times1, order1, maxSize, ttl, now);
      DroppedMore(old(data), old(times), old(order), data1, times1, order1, data, times, order);
      DroppedLogged(log, old(data), old(times), old(order), data, times, order);
    }

    /** The first loop of pruning: room for one more entry. */
    method MakeRoom() returns (r: Result<(), Fault>)
      requires Tracks(data, times, order)
      modifies this`data, this`order, this`times
      ensures Tracks(data, times, order) && Dropped(old(data), old(times), old(order), data, times, order)
      ensures r.Err? <==> maxSize == Some(0)
      ensures r.Err? ==> order == [] && (old(order) == [] ==> data == old(data) && times == old(times))
      ensures r.Ok? ==> order == WithRoom(old(order), maxSize)
    {
      hide NoDup, Tracks, Dropped;
      DroppedNone(data, times, order);
      if maxSize.Some? {
        SizeIs(data, times, order);
        while |data| >= maxSize.value
          invariant Tracks(data, times, order) && Dropped(old(data), old(times), old(order), data, times, order)
          invariant |data| == |order| && (maxSize != Some(0) ==> |order| >= |WithRoom(old(order), maxSize)|)
          invariant old(order) == [] ==> data == old(data) && times == old(times) && order == []
          decreases |order|
        {
          if order == [] { return Err(EmptyQueue); }
          ghost var data1, times1, order1 := data, times, order;
          PopFront();
          DroppedMore(old(data), old(times), old(order), data1, times1, order1, data, times, order);
          SizeIs(data, times, order);
        }
      }
      DroppedSuffix(old(data), old(times), old(order), data, times, order);
      r := Ok(());
    }

    /** The second loop of pruning: expired entries at the front. */
    method DropExpired(now: nat)
      requires Tracks(data, times, order)
      modifies this`data, this`order, this`times
      ensures Tracks(data, times, order) && Dropped(old(data), old(times), old(order), data, times, order)
      ensures order == Unexpired(old(order), old(times), ttl, now)
    {
      hide NoDup;
      while order != []
        invariant Tracks(data, times, order) && Dropped(old(data), old(times), old(order), data, times, order)
        invariant Unexpired(order, old(times), ttl, now) == Unexpired(old(order), old(times), ttl, now)
        decreases |order|
      {
        if now - times[order[0]] <= ttl { break; }
        ghost var data1, times1, order1 := data, times, order;
        PopFront();
        DroppedMore(old(data), old(times), old(order), data1, times1, order1, data, times, order);
      }
    }
  }

  /** Times that are carried over expire alike. */
  lemma {:induction false} UnexpiredSame<K>(order: seq<K>, times: map<K, nat>, times': map<K, nat>, ttl: nat, now: nat)
    requires forall k :: k in order ==> k in times && k in times' && times[k] == times'[k]
    ensures Unexpired(order, times, ttl, now) == Unexpired(order, times', ttl, now)
  {
    if order != [] {
      assert order[0] in order;
      UnexpiredSame(order[1..], times, times', ttl, now);
    }
  }

  lemma PrunedIs<K(!new), V>(data: map<K, V>, times: map<K, nat>, order: seq<K>,
                             data1: map<K, V>, times1: map<K, nat>, order1: seq<K>, max: Option<nat>, ttl: nat, now: nat)
    requires Tracks(data, times, order) && Tracks(data1, times1, order1) && max != Some(0)
    requires Dropped(data, times, order, data1, times1, order1) && order1 == WithRoom(order, max)
    ensures Unexpired(order1, times1, ttl, now) == Kept(order, times, max, ttl, now)
    ensures max.Some? ==> |Kept(order, times, max, ttl, now)| < max.value
  {
    hide NoDup;
    UnexpiredSame(order1, times1, times, ttl, now);
  }

  lemma NothingToRemove<K(!new), V>(data: map<K, V>, times: map<K, nat>, order: seq<K>, key: K)
    requires Tracks(data, times, order) && key !in data
    ensures Remove(order, key) == order
  {
  }

  lemma RemoveSize<K(!new)>(order: seq<K>, key: K)
    ensures |Remove(order, key)| <= |order|
  {
  }

  lemma TimeOrderAppend<K(!new), V>(log: seq<Insertion<K, V>>, clock: nat, e: Insertion<K, V>)
    requires InTimeOrder(log, clock) && clock <= e.at
    ensures InTimeOrder(log + [e], e.at)
  {
  }

  /** Right after its insertion a key has its value, for exactly the time to live. */
  method InsertThenGet<K(==, !new), V(!new)>(cache: TtlCache<K, V>, key: K, val: V, pruneTime: nat, now: nat, later: nat)
    returns (r: Result<Option<V>, Fault>)
    requires cache.Valid() && cache.clock <= pruneTime <= now <= later
    modifies cache
    ensures r.Err? <==> cache.maxSize == Some(0)
    ensures r.Ok? ==> r.value == if later - now < cache.ttl then Some(val) else None
  {
    hide Fresh, LastAt, Tracks, Logged, InTimeOrder, Complete, Fitting, Kept, Remove;
    ghost var log := cache.log;
    var inserted := cache.Insert(key, val, pruneTime, now);
    if inserted.Err? { return Err(inserted.error); }
    ghost var e := Insertion(key, val, now);
    FreshStep(log, e, key, cache.ttl, later);
    LastAtAppend(log, e, key);
    var value := cache.Get(key, later);
    r := Ok(value);
  }
}
