/** Duplicate-free sequences seen as rows of neighbours. */
module Rows {
  import opened Wrappers

  ghost predicate NoDup<N>(s: seq<N>) {
    forall i, j :: 0 <= i < j < |s| ==> s[i] != s[j]
  }

  ghost function IndexOf<N>(s: seq<N>, x: N): (k: nat)
    requires x in s
    ensures k < |s| && s[k] == x
  {
    if s[0] == x then 0 else 1 + IndexOf(s[1..], x)
  }

  lemma IndexOfUnique<N>(s: seq<N>, k: nat)
    requires NoDup(s) && k < |s|
    ensures IndexOf(s, s[k]) == k
  {
    var j := IndexOf(s, s[k]);
    assert s[j] == s[k];
  }

  /** The element just before `x` in the row. */
  ghost function Before<N>(s: seq<N>, x: N): Option<N>
    requires x in s
  {
    var k := IndexOf(s, x);
    if k == 0 then None else Some(s[k - 1])
  }

  /** The element just after `x` in the row. */
  ghost function After<N>(s: seq<N>, x: N): Option<N>
    requires x in s
  {
    var k := IndexOf(s, x);
    if k + 1 == |s| then None else Some(s[k + 1])
  }

  ghost function First<N>(s: seq<N>): Option<N> {
    if s == [] then None else Some(s[0])
  }

  ghost function Last<N>(s: seq<N>): Option<N> {
    if s == [] then None else Some(s[|s| - 1])
  }

  ghost function Remove<N>(s: seq<N>, x: N): seq<N> {
    if x in s then var k := IndexOf(s, x); s[..k] + s[k + 1..] else s
  }

  ghost function InsertAt<N>(s: seq<N>, k: nat, x: N): seq<N>
    requires k <= |s|
  {
    s[..k] + [x] + s[k..]
  }

  lemma Neighbours<N>(s: seq<N>, x: N, y: N)
    requires NoDup(s) && x in s && y in s
    ensures After(s, x) == Some(y) <==> Before(s, y) == Some(x)
    ensures After(s, x) == None <==> Last(s) == Some(x)
    ensures Before(s, x) == None <==> First(s) == Some(x)
    ensures After(s, x) != Some(x) && Before(s, x) != Some(x)
    ensures After(s, x).Some? ==> After(s, x).value in s
    ensures Before(s, x).Some? ==> Before(s, x).value in s
  {
    var i, j := IndexOf(s, x), IndexOf(s, y);
    if i + 1 < |s| { IndexOfUnique(s, i + 1); }
    if 0 < j { IndexOfUnique(s, j - 1); }
  }

  lemma SoleRow<N>(x: N)
    ensures Before([x], x) == After([x], x) == None
    ensures First<N>([]) == Last<N>([]) == None
  {
  }

  /** Removing from a row relinks only the two neighbours of the removed element. */
  lemma RemoveLinks<N>(s: seq<N>, x: N)
    requires NoDup(s)
    ensures NoDup(Remove(s, x))
    ensures x !in Remove(s, x)
    ensures forall y :: y in Remove(s, x) <==> y in s && y != x
    ensures x in s ==> First(Remove(s, x)) == if First(s) == Some(x) then After(s, x) else First(s)
    ensures x in s ==> Last(Remove(s, x)) == if Last(s) == Some(x) then Before(s, x) else Last(s)
  {
    RemoveMembers(s, x);
    RemoveEnds(s, x);
  }

  lemma RemoveMembers<N>(s: seq<N>, x: N)
    requires NoDup(s)
    ensures NoDup(Remove(s, x))
    ensures forall y :: y in Remove(s, x) <==> y in s && y != x
  {
    hide IndexOf;
    if x in s {
      var k := IndexOf(s, x);
      var r := Remove(s, x);
      assert forall i :: 0 <= i < |r| ==> r[i] == if i < k then s[i] else s[i + 1];
      forall y | y in s && y != x ensures y in r {
        var j := IndexOf(s, y);
        assert r[if j < k then j else j - 1] == y;
      }
    }
  }

  lemma RemoveEnds<N>(s: seq<N>, x: N)
    requires NoDup(s)
    ensures x in s ==> First(Remove(s, x)) == if First(s) == Some(x) then After(s, x) else First(s)
    ensures x in s ==> Last(Remove(s, x)) == if Last(s) == Some(x) then Before(s, x) else Last(s)
  {
    hide IndexOf;
  }

  lemma RemoveHead<N>(s: seq<N>)
    requires s != []
    ensures Remove(s, s[0]) == s[1..]
  {
  }

  lemma RemoveNeighbours<N>(s: seq<N>, x: N, y: N)
    requires NoDup(s) && x in s && y in s && y != x
    ensures y in Remove(s, x)
    ensures Before(Remove(s, x), y) == if Before(s, y) == Some(x) then Before(s, x) else Before(s, y)
    ensures After(Remove(s, x), y) == if After(s, y) == Some(x) then After(s, x) else After(s, y)
  {
    RemoveLinks(s, x);
    var k, j := IndexOf(s, x), IndexOf(s, y);
    var r := Remove(s, x);
    var m := if j < k then j else j - 1;
    assert r[m] == y;
    IndexOfUnique(r, m);
  }

  /** Inserting into a row relinks only the two neighbours of the gap. */
  lemma InsertLinks<N>(s: seq<N>, k: nat, x: N)
    requires NoDup(s) && x !in s && k <= |s|
    ensures NoDup(InsertAt(s, k, x))
    ensures forall y :: y in InsertAt(s, k, x) <==> y in s || y == x
    ensures Before(InsertAt(s, k, x), x) == if k == 0 then None else Some(s[k - 1])
    ensures After(InsertAt(s, k, x), x) == if k == |s| then None else Some(s[k])
    ensures First(InsertAt(s, k, x)) == if k == 0 then Some(x) else First(s)
    ensures Last(InsertAt(s, k, x)) == if k == |s| then Some(x) else Last(s)
  {
    var r := InsertAt(s, k, x);
    assert forall i :: 0 <= i < |r| ==> r[i] == if i < k then s[i] else if i == k then x else s[i - 1];
    assert r[k] == x;
    IndexOfUnique(r, k);
    forall y | y in s ensures y in r {
      var j := IndexOf(s, y);
      assert r[if j < k then j else j + 1] == y;
    }
  }

  /** The neighbours of the element at `k`. */
  lemma NeighboursAt<N>(s: seq<N>, k: nat)
    requires NoDup(s) && k < |s|
    ensures s[k] in s
    ensures Before(s, s[k]) == if k == 0 then None else Some(s[k - 1])
    ensures After(s, s[k]) == if k + 1 == |s| then None else Some(s[k + 1])
  {
    hide IndexOf;
    IndexOfUnique(s, k);
  }

  lemma InsertNeighbours<N>(s: seq<N>, k: nat, x: N, y: N)
    requires NoDup(s) && x !in s && k <= |s| && y in s
    ensures y in InsertAt(s, k, x)
    ensures Before(InsertAt(s, k, x), y) == if k < |s| && y == s[k] then Some(x) else Before(s, y)
    ensures After(InsertAt(s, k, x), y) == if k > 0 && y == s[k - 1] then Some(x) else After(s, y)
  {
    hide Before, After, First, Last, IndexOf;
    InsertLinks(s, k, x);
    var r := InsertAt(s, k, x);
    var j := IndexOf(s, y);
    var m := if j < k then j else j + 1;
    assert forall i :: 0 <= i < |r| ==> r[i] == if i < k then s[i] else if i == k then x else s[i - 1];
    hide InsertAt;
    NeighboursAt(r, m);
    NeighboursAt(s, j);
  }

  /** Removing an element and inserting it again before its successor, or at the end, changes nothing. */
  lemma Reinsert<N>(s: seq<N>, x: N)
    requires NoDup(s) && x in s
    ensures var r := Remove(s, x);
            match After(s, x)
            case Some(a) => a in r && a != x && InsertAt(r, IndexOf(r, a), x) == s
            case None => r + [x] == s
  {
    hide Before, After, First, Last, IndexOf;
    var k, r := IndexOf(s, x), Remove(s, x);
    RemoveLinks(s, x);
    NeighboursAt(s, k);
    PutBack(s, k);
    if k + 1 < |s| {
      assert r[k] == s[k + 1];
      IndexOfUnique(r, k);
    }
  }

  lemma PutBack<N>(s: seq<N>, k: nat)
    requires k < |s|
    ensures InsertAt(s[..k] + s[k + 1..], k, s[k]) == s
  {
    var r := s[..k] + s[k + 1..];
    assert r[..k] == s[..k] && r[k..] == s[k + 1..];
  }
}
