/**
  An ordered forest as a value: the abstract state that the five links of every DOM node describe.

  `row[x]` is the list of siblings that `x` belongs to, itself included, whether or not they have
  a parent; `kids[x]` is the list of children of `x`. Nodes without a parent may still have
  siblings: the insert operations allow that.
 */
module OrderedForest {
  import opened Wrappers
  import opened Rows

  datatype Shape<N> = Shape(parent: map<N, Option<N>>, row: map<N, seq<N>>, kids: map<N, seq<N>>)

  ghost predicate SameKeys<N>(s: Shape<N>) {
    s.parent.Keys == s.row.Keys == s.kids.Keys
  }

  /** The row of `x` holds `x` once and is shared by all its members. */
  ghost predicate RowOk<N>(s: Shape<N>, x: N)
    requires SameKeys(s) && x in s.row
  {
    && x in s.row[x]
    && NoDup(s.row[x])
    && (forall y :: y in s.row[x] ==> y in s.row && s.row[y] == s.row[x] && s.parent[y] == s.parent[x])
  }

  ghost predicate ParentOk<N>(s: Shape<N>, x: N)
    requires SameKeys(s) && x in s.row
  {
    s.parent[x].Some? ==> s.parent[x].value in s.kids && s.kids[s.parent[x].value] == s.row[x]
  }

  ghost predicate KidsOk<N>(s: Shape<N>, p: N)
    requires SameKeys(s) && p in s.kids
  {
    forall c :: c in s.kids[p] ==> c in s.parent && s.parent[c] == Some(p)
  }

  ghost predicate WellFormed<N>(s: Shape<N>) {
    && SameKeys(s)
    && (forall x {:trigger RowOk(s, x)} :: x in s.row ==> RowOk(s, x))
    && (forall x {:trigger ParentOk(s, x)} :: x in s.row ==> ParentOk(s, x))
    && (forall x {:trigger KidsOk(s, x)} :: x in s.row ==> KidsOk(s, x))
  }

  lemma WellFormedAt<N>(s: Shape<N>, x: N)
    requires WellFormed(s) && x in s.row
    ensures SameKeys(s) && RowOk(s, x) && ParentOk(s, x) && KidsOk(s, x)
  {
  }

  /** `rank` witnesses that no node is its own ancestor: every child ranks below its parent. */
  ghost predicate Ranked<N>(kids: map<N, seq<N>>, rank: map<N, nat>) {
    && kids.Keys == rank.Keys
    && (forall p, c :: p in kids && c in kids[p] ==> c in rank && rank[c] < rank[p])
  }

  /** `n` is `a` or one of its descendants. */
  ghost predicate InSubtree<N>(kids: map<N, seq<N>>, rank: map<N, nat>, a: N, n: N)
    requires Ranked(kids, rank) && a in kids
    decreases rank[a]
  {
    n == a || exists c :: c in kids[a] && InSubtree(kids, rank, c, n)
  }

  // ----- the five links of a node -----

  datatype Links<N> = Links(parent: Option<N>, prev: Option<N>, next: Option<N>, first: Option<N>, last: Option<N>)

  ghost function LinksOf<N>(s: Shape<N>, x: N): Links<N>
    requires WellFormed(s) && x in s.row
  {
    assert RowOk(s, x);
    Links(s.parent[x], Before(s.row[x], x), After(s.row[x], x), First(s.kids[x]), Last(s.kids[x]))
  }

  /** Sibling links are mutually inverse, and the first and last child are the children at the ends. */
  lemma LinksAgree<N>(s: Shape<N>, x: N, y: N)
    requires WellFormed(s) && x in s.row && y in s.row
    ensures LinksOf(s, x).next == Some(y) <==> LinksOf(s, y).prev == Some(x)
    ensures LinksOf(s, x).first == Some(y) <==> LinksOf(s, y).parent == Some(x) && LinksOf(s, y).prev == None
    ensures LinksOf(s, x).last == Some(y) <==> LinksOf(s, y).parent == Some(x) && LinksOf(s, y).next == None
  {
    assert RowOk(s, x) && RowOk(s, y);
    assert ParentOk(s, y) && KidsOk(s, x);
    Neighbours(s.row[y], y, y);
    if LinksOf(s, x).next == Some(y) { Neighbours(s.row[x], x, y); }
    if LinksOf(s, y).prev == Some(x) { Neighbours(s.row[y], x, y); }
  }

  /** The links of a node lead to other nodes of the forest. */
  lemma LinkTargets<N>(s: Shape<N>, rank: map<N, nat>, x: N)
    requires WellFormed(s) && Ranked(s.kids, rank) && x in s.row
    ensures var l := LinksOf(s, x);
            && (l.parent.Some? ==> l.parent.value in s.row && l.parent.value != x)
            && (l.prev.Some? ==> l.prev.value in s.row && l.prev.value != x)
            && (l.next.Some? ==> l.next.value in s.row && l.next.value != x)
            && (l.first.Some? ==> l.first.value in s.row && l.first.value != x)
            && (l.last.Some? ==> l.last.value in s.row && l.last.value != x)
  {
    assert RowOk(s, x) && ParentOk(s, x) && KidsOk(s, x);
    Neighbours(s.row[x], x, x);
  }

  /** The links around `x` mirror each other. */
  lemma NeighbourLinks<N>(s: Shape<N>, rank: map<N, nat>, x: N)
    requires WellFormed(s) && Ranked(s.kids, rank) && x in s.row
    ensures LinksOf(s, x).last == None <==> LinksOf(s, x).first == None
    ensures forall z :: LinksOf(s, x).next == Some(z) ==> z in s.row && z != x && LinksOf(s, z).prev == Some(x)
    ensures forall z :: LinksOf(s, x).prev == Some(z) ==> z in s.row && z != x && LinksOf(s, z).next == Some(x)
    ensures forall z :: LinksOf(s, x).first == Some(z) ==>
                          z in s.row && z != x && LinksOf(s, z).prev == None && LinksOf(s, z).parent == Some(x)
    ensures forall z :: LinksOf(s, x).last == Some(z) ==>
                          z in s.row && z != x && LinksOf(s, z).next == None && LinksOf(s, z).parent == Some(x)
    ensures forall p :: LinksOf(s, x).parent == Some(p) ==>
                          && p in s.row && p != x
                          && (LinksOf(s, x).prev == None ==> LinksOf(s, p).first == Some(x))
                          && (LinksOf(s, x).next == None ==> LinksOf(s, p).last == Some(x))
  {
    LinkTargets(s, rank, x);
    hide WellFormed, Ranked, LinksOf;
    var l := LinksOf(s, x);
    if l.next.Some? { LinksAgree(s, x, l.next.value); }
    if l.prev.Some? { LinksAgree(s, l.prev.value, x); }
    if l.first.Some? { LinksAgree(s, x, l.first.value); }
    if l.last.Some? { LinksAgree(s, x, l.last.value); }
    if l.parent.Some? { LinksAgree(s, l.parent.value, x); }
  }

  // ----- taking a node out of its row -----

  ghost function Detached<N>(s: Shape<N>, x: N): Shape<N> {
    Shape(s.parent[x := None],
          map y | y in s.row :: if y == x then [x] else Remove(s.row[y], x),
          map p | p in s.kids :: Remove(s.kids[p], x))
  }

  lemma KidsAreARow<N>(s: Shape<N>, p: N)
    requires WellFormed(s) && p in s.row
    ensures NoDup(s.kids[p])
    ensures forall c :: c in s.kids[p] ==> c in s.row && s.row[c] == s.kids[p]
  {
    assert KidsOk(s, p);
    forall c | c in s.kids[p] ensures s.row[c] == s.kids[p] && NoDup(s.kids[p]) {
      assert ParentOk(s, c) && RowOk(s, c);
    }
    if s.kids[p] != [] { assert s.kids[p][0] in s.kids[p]; }
  }

  lemma DetachedRow<N>(s: Shape<N>, x: N, y: N)
    requires WellFormed(s) && x in s.row && y in s.row
    ensures SameKeys(Detached(s, x)) && RowOk(Detached(s, x), y)
  {
    var d := Detached(s, x);
    assert RowOk(s, y);
    if y != x {
      RemoveLinks(s.row[y], x);
      forall z | z in d.row[y] ensures z in d.row && d.row[z] == d.row[y] && d.parent[z] == d.parent[y] {
        assert z in s.row[y];
      }
    }
  }

  lemma DetachedKids<N>(s: Shape<N>, x: N, y: N)
    requires WellFormed(s) && x in s.row && y in s.row
    ensures SameKeys(Detached(s, x)) && ParentOk(Detached(s, x), y) && KidsOk(Detached(s, x), y)
  {
    assert ParentOk(s, y) && KidsOk(s, y);
    KidsAreARow(s, y);
    RemoveLinks(s.kids[y], x);
  }

  lemma DetachedWellFormed<N>(s: Shape<N>, x: N)
    requires WellFormed(s) && x in s.row
    ensures WellFormed(Detached(s, x))
  {
    var d := Detached(s, x);
    assert SameKeys(d);
    forall y | y in d.row ensures RowOk(d, y) {
      DetachedRow(s, x, y);
    }
    forall y | y in d.row ensures ParentOk(d, y) {
      DetachedKids(s, x, y);
    }
    forall y | y in d.row ensures KidsOk(d, y) {
      DetachedKids(s, x, y);
    }
  }

  /** The neighbours of `x` close the gap and every other row link stays. */
  lemma DetachedSiblingLinks<N>(s: Shape<N>, x: N, y: N)
    requires WellFormed(s) && x in s.row && y in s.row && y != x
    requires WellFormed(Detached(s, x))
    ensures var l, lx, d := LinksOf(s, y), LinksOf(s, x), LinksOf(Detached(s, x), y);
            && d.parent == l.parent
            && d.prev == (if lx.next == Some(y) then lx.prev else l.prev)
            && d.next == (if lx.prev == Some(y) then lx.next else l.next)
  {
    assert RowOk(s, x) && RowOk(s, y);
    LinksAgree(s, x, y);
    LinksAgree(s, y, x);
    if x in s.row[y] {
      RemoveNeighbours(s.row[y], x, y);
      assert s.row[x] == s.row[y];
    } else {
      Neighbours(s.row[y], y, y);
    }
  }

  lemma DetachedChildLinks<N>(s: Shape<N>, x: N, y: N)
    requires WellFormed(s) && x in s.row && y in s.row
    requires WellFormed(Detached(s, x))
    ensures var l, lx, d := LinksOf(s, y), LinksOf(s, x), LinksOf(Detached(s, x), y);
            && d.first == (if lx.parent == Some(y) && lx.prev == None then lx.next else l.first)
            && d.last == (if lx.parent == Some(y) && lx.next == None then lx.prev else l.last)
  {
    assert RowOk(s, x) && ParentOk(s, x) && KidsOk(s, y);
    KidsAreARow(s, y);
    RemoveLinks(s.kids[y], x);
    if x in s.kids[y] {
      assert s.row[x] == s.kids[y];
      Neighbours(s.row[x], x, x);
    }
  }

  /** What detaching `x`, with links `lx`, does to the links `l` of `y`. */
  ghost function Unlink<N>(x: N, lx: Links<N>, y: N, l: Links<N>): Links<N> {
    if y == x then l.(parent := None, prev := None, next := None)
    else Links(l.parent,
               if lx.next == Some(y) then lx.prev else l.prev,
               if lx.prev == Some(y) then lx.next else l.next,
               if lx.parent == Some(y) && lx.prev == None then lx.next else l.first,
               if lx.parent == Some(y) && lx.next == None then lx.prev else l.last)
  }

  /** Detaching `x` touches the links of `x`, of its two neighbours and of its parent, and no others. */
  lemma DetachedLinks<N>(s: Shape<N>, x: N, y: N)
    requires WellFormed(s) && x in s.row && y in s.row && s.parent[x] != Some(x)
    requires WellFormed(Detached(s, x))
    ensures LinksOf(Detached(s, x), y) == Unlink(x, LinksOf(s, x), y, LinksOf(s, y))
  {
    DetachedChildLinks(s, x, y);
    if y != x { DetachedSiblingLinks(s, x, y); }
  }

  lemma FewerKids<N>(s: Shape<N>, x: N, p: N)
    requires WellFormed(s) && p in s.kids
    ensures p in Detached(s, x).kids
    ensures forall c :: c in Detached(s, x).kids[p] ==> c in s.kids[p]
  {
    KidsAreARow(s, p);
    RemoveLinks(s.kids[p], x);
  }

  /** Detaching, seen from the links of every node. */
  lemma DetachedForest<N>(s: Shape<N>, rank: map<N, nat>, x: N)
    requires WellFormed(s) && Ranked(s.kids, rank) && x in s.row
    ensures WellFormed(Detached(s, x)) && Ranked(Detached(s, x).kids, rank)
    ensures Detached(s, x).row.Keys == s.row.Keys == s.parent.Keys == rank.Keys
    ensures var l := LinksOf(Detached(s, x), x); l.parent == l.prev == l.next == None
    ensures forall y :: y in s.row && y != x ==> LinksOf(Detached(s, x), y).parent == s.parent[y]
    ensures forall y :: y in s.row ==> LinksOf(Detached(s, x), y) == Unlink(x, LinksOf(s, x), y, LinksOf(s, y))
  {
    DetachedWellFormed(s, x);
    DetachedRanked(s, rank, x);
    LinkTargets(s, rank, x);
    forall y | y in s.row ensures LinksOf(Detached(s, x), y) == Unlink(x, LinksOf(s, x), y, LinksOf(s, y)) {
      DetachedLinks(s, x, y);
    }
  }

  // ----- putting a node into a row -----

  ghost function Placed<N>(s: Shape<N>, x: N, par: Option<N>, list: seq<N>): Shape<N> {
    Shape(s.parent[x := par],
          map y | y in s.row :: if y in list then list else s.row[y],
          if par.Some? then s.kids[par.value := list] else s.kids)
  }

  ghost predicate Alone<N>(s: Shape<N>, x: N) {
    x in s.row && s.row[x] == [x] && x in s.parent && s.parent[x] == None
  }

  /** `list` is a whole row under `par` that a detached `x` can join. */
  ghost predicate Slot<N>(s: Shape<N>, x: N, par: Option<N>, list: seq<N>)
    requires SameKeys(s)
  {
    && x !in list
    && NoDup(list)
    && par != Some(x)
    && (if par.Some? then par.value in s.kids && s.kids[par.value] == list else list != [])
    && (forall y :: y in list ==> y in s.row && s.row[y] == list && s.parent[y] == par)
  }

  /** The three components of a placed shape at one node. */
  lemma PlacedAt<N>(s: Shape<N>, x: N, par: Option<N>, list: seq<N>, k: nat, y: N)
    requires WellFormed(s) && Alone(s, x) && Slot(s, x, par, list) && k <= |list| && y in s.row
    ensures var d := Placed(s, x, par, InsertAt(list, k, x));
            && y in d.row && y in d.kids && y in d.parent && y in s.row[y]
            && d.parent[y] == (if y == x then par else s.parent[y])
            && d.kids[y] == (if par == Some(y) then InsertAt(list, k, x) else s.kids[y])
            && d.row[y] == (if y == x || y in list then InsertAt(list, k, x) else s.row[y])
            && (y in list ==> s.row[y] == list)
            && (par == Some(y) ==> s.kids[y] == list)
  {
    InsertLinks(list, k, x);
    assert RowOk(s, y);
  }

  lemma PlacedRow<N>(s: Shape<N>, x: N, par: Option<N>, list: seq<N>, k: nat, y: N)
    requires WellFormed(s) && Alone(s, x) && Slot(s, x, par, list) && k <= |list| && y in s.row
    requires SameKeys(Placed(s, x, par, InsertAt(list, k, x)))
    ensures RowOk(Placed(s, x, par, InsertAt(list, k, x)), y)
  {
    hide WellFormed, Placed, InsertAt, NoDup;
    WellFormedAt(s, y);
    PlacedAt(s, x, par, list, k, y);
    InsertLinks(list, k, x);
    var d := Placed(s, x, par, InsertAt(list, k, x));
    forall z | z in d.row[y] ensures z in d.row && d.row[z] == d.row[y] && d.parent[z] == d.parent[y] {
      PlacedAt(s, x, par, list, k, z);
    }
  }

  lemma PlacedKids<N>(s: Shape<N>, x: N, par: Option<N>, list: seq<N>, k: nat, y: N)
    requires WellFormed(s) && Alone(s, x) && Slot(s, x, par, list) && k <= |list| && y in s.row
    requires SameKeys(Placed(s, x, par, InsertAt(list, k, x)))
    ensures ParentOk(Placed(s, x, par, InsertAt(list, k, x)), y)
    ensures KidsOk(Placed(s, x, par, InsertAt(list, k, x)), y)
  {
    hide WellFormed, Placed, InsertAt, NoDup;
    WellFormedAt(s, y);
    PlacedAt(s, x, par, list, k, y);
    InsertLinks(list, k, x);
    var d := Placed(s, x, par, InsertAt(list, k, x));
    if d.parent[y].Some? {
      PlacedAt(s, x, par, list, k, d.parent[y].value);
    }
    forall c | c in d.kids[y] ensures c in d.parent && d.parent[c] == Some(y) {
      PlacedAt(s, x, par, list, k, c);
    }
  }

  lemma PlacedWellFormed<N>(s: Shape<N>, x: N, par: Option<N>, list: seq<N>, k: nat)
    requires WellFormed(s) && Alone(s, x) && Slot(s, x, par, list) && k <= |list|
    ensures WellFormed(Placed(s, x, par, InsertAt(list, k, x)))
    ensures Placed(s, x, par, InsertAt(list, k, x)).row.Keys == s.row.Keys
  {
    var d := Placed(s, x, par, InsertAt(list, k, x));
    assert SameKeys(d);
    forall y | y in d.row ensures RowOk(d, y) {
      PlacedRow(s, x, par, list, k, y);
    }
    forall y | y in d.row ensures ParentOk(d, y) {
      PlacedKids(s, x, par, list, k, y);
    }
    forall y | y in d.row ensures KidsOk(d, y) {
      PlacedKids(s, x, par, list, k, y);
    }
  }

  /** What placing `x` between `prev` and `next` under `par` does to the links `l` of `y`. */
  ghost function Relink<N>(x: N, par: Option<N>, prev: Option<N>, next: Option<N>, y: N, l: Links<N>): Links<N> {
    if y == x then l.(parent := par, prev := prev, next := next)
    else Links(l.parent,
               if next == Some(y) then Some(x) else l.prev,
               if prev == Some(y) then Some(x) else l.next,
               if par == Some(y) && prev == None then Some(x) else l.first,
               if par == Some(y) && next == None then Some(x) else l.last)
  }

  ghost function LeftOf<N>(list: seq<N>, k: nat): Option<N>
    requires k <= |list|
  {
    if k == 0 then None else Some(list[k - 1])
  }

  ghost function RightOf<N>(list: seq<N>, k: nat): Option<N>
    requires k <= |list|
  {
    if k == |list| then None else Some(list[k])
  }

  /** Placing `x` touches the links of `x`, of its new neighbours and of its new parent, and no others. */
  lemma PlacedLinks<N>(s: Shape<N>, x: N, par: Option<N>, list: seq<N>, k: nat, y: N)
    requires WellFormed(s) && Alone(s, x) && Slot(s, x, par, list) && k <= |list| && y in s.row
    requires WellFormed(Placed(s, x, par, InsertAt(list, k, x)))
    ensures LinksOf(Placed(s, x, par, InsertAt(list, k, x)), y)
            == Relink(x, par, LeftOf(list, k), RightOf(list, k), y, LinksOf(s, y))
  {
    hide WellFormed, Placed, Before, After, InsertAt, First, Last;
    PlacedAt(s, x, par, list, k, y);
    InsertLinks(list, k, x);
    if y in list {
      InsertNeighbours(list, k, x, y);
    }
  }

  // ----- acyclicity -----

  lemma SubtreeRank<N>(kids: map<N, seq<N>>, rank: map<N, nat>, a: N, n: N)
    requires Ranked(kids, rank) && a in kids && InSubtree(kids, rank, a, n)
    ensures n in kids && (n == a || rank[n] < rank[a])
    decreases rank[a]
  {
    if n != a {
      var c :| c in kids[a] && InSubtree(kids, rank, c, n);
      SubtreeRank(kids, rank, c, n);
    }
  }

  /** The ranks after hanging `x` below `p`: all ancestors of `p` move up past `x`. */
  ghost function Raised<N>(kids: map<N, seq<N>>, rank: map<N, nat>, p: N, x: N): map<N, nat>
    requires Ranked(kids, rank) && x in rank
  {
    map a | a in rank :: if InSubtree(kids, rank, a, p) then rank[a] + rank[x] + 1 else rank[a]
  }

  lemma PlacedRanked<N>(kids: map<N, seq<N>>, rank: map<N, nat>, p: N, x: N, k: nat)
    requires Ranked(kids, rank) && x in kids && p in kids && k <= |kids[p]|
    requires !InSubtree(kids, rank, x, p)
    ensures Ranked(kids[p := InsertAt(kids[p], k, x)], Raised(kids, rank, p, x))
  {
    var kids' := kids[p := InsertAt(kids[p], k, x)];
    var rank' := Raised(kids, rank, p, x);
    forall q, c | q in kids' && c in kids'[q] ensures c in rank' && rank'[c] < rank'[q] {
      if c in kids[q] && InSubtree(kids, rank, c, p) {
        assert InSubtree(kids, rank, q, p);
      }
    }
  }

  ghost function PlacedRank<N>(s: Shape<N>, rank: map<N, nat>, x: N, par: Option<N>): map<N, nat>
    requires Ranked(s.kids, rank) && x in rank
  {
    if par.Some? then Raised(s.kids, rank, par.value, x) else rank
  }

  /** `t` is `d` with `x` linked in between `prev` and `next` under `par`. */
  ghost predicate Joins<N>(d: Shape<N>, t: Shape<N>, x: N, par: Option<N>, prev: Option<N>, next: Option<N>) {
    && WellFormed(d)
    && WellFormed(t)
    && t.row.Keys == d.row.Keys
    && (forall y :: y in d.row ==> LinksOf(t, y) == Relink(x, par, prev, next, y, LinksOf(d, y)))
  }

  lemma PlacedShapeRanked<N>(s: Shape<N>, rank: map<N, nat>, x: N, par: Option<N>, list: seq<N>, k: nat)
    requires WellFormed(s) && Ranked(s.kids, rank) && Alone(s, x) && Slot(s, x, par, list) && k <= |list|
    requires par.Some? ==> !InSubtree(s.kids, rank, x, par.value)
    ensures Ranked(Placed(s, x, par, InsertAt(list, k, x)).kids, PlacedRank(s, rank, x, par))
  {
    hide Ranked, InSubtree, Raised;
    if par.Some? {
      PlacedRanked(s.kids, rank, par.value, x, k);
    }
  }

  /** Placing, seen from the links of every node. */
  lemma PlacedJoins<N>(s: Shape<N>, x: N, par: Option<N>, list: seq<N>, k: nat)
    requires WellFormed(s) && Alone(s, x) && Slot(s, x, par, list) && k <= |list|
    ensures Joins(s, Placed(s, x, par, InsertAt(list, k, x)), x, par, LeftOf(list, k), RightOf(list, k))
  {
    hide WellFormed, Placed, Slot, Alone, LinksOf, Relink;
    PlacedWellFormed(s, x, par, list, k);
    var d := Placed(s, x, par, InsertAt(list, k, x));
    forall y | y in s.row ensures LinksOf(d, y) == Relink(x, par, LeftOf(list, k), RightOf(list, k), y, LinksOf(s, y)) {
      PlacedLinks(s, x, par, list, k, y);
    }
  }

  /** Any ranks of a shape that keeps the children below `a`, apart from `x`, go down along the way from `a` to `p`. */
  lemma {:induction false} RanksGoDown<N>(kids: map<N, seq<N>>, rank: map<N, nat>, kids': map<N, seq<N>>, r: map<N, nat>,
                                          x: N, a: N, p: N)
    requires Ranked(kids, rank) && Ranked(kids', r) && kids.Keys == kids'.Keys && x in kids && a in kids
    requires forall q, c :: q in kids && c in kids[q] && c != x ==> c in kids'[q]
    requires InSubtree(kids, rank, a, p) && rank[a] <= rank[x]
    ensures p in r && r[p] <= r[a]
    decreases rank[a]
  {
    if p != a {
      var c :| c in kids[a] && InSubtree(kids, rank, c, p);
      RanksGoDown(kids, rank, kids', r, x, c, p);
      assert c in kids'[a];
    }
  }

  /** A node hung below one of its own descendants closes a cycle: no ranks fit. */
  lemma PlacedCyclic<N>(s: Shape<N>, rank: map<N, nat>, x: N, q: N, list: seq<N>, r: map<N, nat>)
    requires Has(s, x) && Has(s, q) && Ranked(s.kids, rank) && InSubtree(s.kids, rank, x, q)
    requires x in list && forall c :: c in s.kids[q] ==> c in list
    ensures !Ranked(Placed(Detached(s, x), x, Some(q), list).kids, r)
  {
    var kids' := Placed(Detached(s, x), x, Some(q), list).kids;
    if Ranked(kids', r) {
      forall p, c | p in s.kids && c in s.kids[p] && c != x ensures c in kids'[p] {
        OtherKids(s, x, p, c);
      }
      RanksGoDown(s.kids, rank, kids', r, x, x, q);
    }
  }

  lemma OtherKids<N>(s: Shape<N>, x: N, p: N, c: N)
    requires Has(s, p) && c in s.kids[p] && c != x
    ensures p in Detached(s, x).kids && c in Detached(s, x).kids[p]
  {
    WellFormedAt(s, p);
    KidsAreARow(s, p);
    RemoveLinks(s.kids[p], x);
  }

  /** Detaching creates no new ancestor relations. */
  lemma {:induction false} DetachedSubtree<N>(s: Shape<N>, rank: map<N, nat>, x: N, a: N, n: N)
    requires WellFormed(s) && Ranked(s.kids, rank) && a in s.kids
    requires Ranked(Detached(s, x).kids, rank) && InSubtree(Detached(s, x).kids, rank, a, n)
    ensures InSubtree(s.kids, rank, a, n)
    decreases rank[a]
  {
    hide WellFormed, Detached;
    if n != a {
      var c :| c in Detached(s, x).kids[a] && InSubtree(Detached(s, x).kids, rank, c, n);
      FewerKids(s, x, a);
      DetachedSubtree(s, rank, x, c, n);
    }
  }

  lemma DetachedRanked<N>(s: Shape<N>, rank: map<N, nat>, x: N)
    requires WellFormed(s) && Ranked(s.kids, rank)
    ensures Ranked(Detached(s, x).kids, rank)
  {
    hide WellFormed, Remove;
    forall p, c | p in s.kids && c in Detached(s, x).kids[p] ensures c in rank && rank[c] < rank[p] {
      FewerKids(s, x, p);
    }
  }

  // ----- adding a new node -----

  ghost function Grown<N>(s: Shape<N>, x: N): Shape<N> {
    Shape(s.parent[x := None], s.row[x := [x]], s.kids[x := []])
  }

  lemma GrownWellFormed<N>(s: Shape<N>, x: N)
    requires WellFormed(s) && x !in s.row
    ensures WellFormed(Grown(s, x))
  {
    var g := Grown(s, x);
    forall y | y in g.row ensures RowOk(g, y) {
      if y != x { assert RowOk(s, y); }
    }
    forall y | y in g.row ensures ParentOk(g, y) {
      if y != x { assert ParentOk(s, y); }
    }
    forall y | y in g.row ensures KidsOk(g, y) {
      if y != x { assert KidsOk(s, y); }
    }
  }

  lemma GrownForest<N>(s: Shape<N>, rank: map<N, nat>, x: N)
    requires WellFormed(s) && Ranked(s.kids, rank) && x !in s.row
    ensures WellFormed(Grown(s, x)) && Ranked(Grown(s, x).kids, rank[x := 0])
    ensures Grown(s, x).row.Keys == s.row.Keys + {x}
    ensures LinksOf(Grown(s, x), x) == Links(None, None, None, None, None)
    ensures forall y :: y in s.row ==> LinksOf(Grown(s, x), y) == LinksOf(s, y)
  {
    hide WellFormed, Ranked, LinksOf, Grown;
    GrownWellFormed(s, x);
    GrownRanked(s, rank, x);
    NewLinks(s, x);
    forall y | y in s.row ensures LinksOf(Grown(s, x), y) == LinksOf(s, y) {
      OldLinks(s, x, y);
    }
  }

  lemma GrownRanked<N>(s: Shape<N>, rank: map<N, nat>, x: N)
    requires WellFormed(s) && Ranked(s.kids, rank) && x !in s.row
    ensures Ranked(Grown(s, x).kids, rank[x := 0]) && Grown(s, x).row.Keys == s.row.Keys + {x}
  {
    assert s.kids.Keys == s.row.Keys;
    hide WellFormed;
  }

  lemma NewLinks<N>(s: Shape<N>, x: N)
    requires WellFormed(Grown(s, x))
    ensures LinksOf(Grown(s, x), x) == Links(None, None, None, None, None)
  {
    hide WellFormed, Before, After, First, Last;
    SoleRow(x);
  }

  lemma OldLinks<N>(s: Shape<N>, x: N, y: N)
    requires WellFormed(s) && WellFormed(Grown(s, x)) && x !in s.row && y in s.row
    ensures LinksOf(Grown(s, x), y) == LinksOf(s, y)
  {
    WellFormedAt(s, y);
    hide WellFormed, Before, After, First, Last;
  }

  // ----- the list-level meaning of the insert operations -----

  ghost predicate Has<N>(s: Shape<N>, x: N) {
    WellFormed(s) && x in s.row
  }

  ghost function Appended<N>(s: Shape<N>, p: N, x: N): Shape<N>
    requires Has(s, p)
  {
    var d := Detached(s, x);
    Placed(d, x, Some(p), d.kids[p] + [x])
  }

  ghost function Prepended<N>(s: Shape<N>, p: N, x: N): Shape<N>
    requires Has(s, p)
  {
    var d := Detached(s, x);
    Placed(d, x, Some(p), [x] + d.kids[p])
  }

  ghost function InsertedAfter<N>(s: Shape<N>, a: N, x: N): Shape<N>
    requires Has(s, a) && Has(s, x) && a != x
  {
    DetachedWellFormed(s, x);
    var d := Detached(s, x);
    assert RowOk(d, a);
    Placed(d, x, s.parent[a], InsertAt(d.row[a], IndexOf(d.row[a], a) + 1, x))
  }

  ghost function InsertedBefore<N>(s: Shape<N>, a: N, x: N): Shape<N>
    requires Has(s, a) && Has(s, x) && a != x
  {
    DetachedWellFormed(s, x);
    var d := Detached(s, x);
    assert RowOk(d, a);
    Placed(d, x, s.parent[a], InsertAt(d.row[a], IndexOf(d.row[a], a), x))
  }

  /** The children of `p`, and the row of `a`, are slots for a detached node. */
  lemma KidsSlot<N>(s: Shape<N>, p: N, x: N)
    requires Has(s, p) && Has(s, x) && p != x
    ensures WellFormed(Detached(s, x)) && Alone(Detached(s, x), x)
    ensures p in Detached(s, x).kids && p in Detached(s, x).row
    ensures Slot(Detached(s, x), x, Some(p), Detached(s, x).kids[p])
  {
    DetachedWellFormed(s, x);
    var d := Detached(s, x);
    KidsAreARow(d, p);
    KidsAreARow(s, p);
    assert KidsOk(d, p);
    RemoveLinks(s.kids[p], x);
  }

  lemma RowSlot<N>(s: Shape<N>, a: N, x: N)
    requires Has(s, a) && Has(s, x) && a != x && s.parent[a] != Some(x)
    ensures WellFormed(Detached(s, x)) && Alone(Detached(s, x), x)
    ensures a in Detached(s, x).row && a in s.parent
    ensures Slot(Detached(s, x), x, s.parent[a], Detached(s, x).row[a])
    ensures a in Detached(s, x).row[a]
  {
    DetachedWellFormed(s, x);
    var d := Detached(s, x);
    assert RowOk(d, a) && ParentOk(d, a) && RowOk(s, a);
    RemoveLinks(s.row[a], x);
  }

  lemma SubtreeChild<N>(kids: map<N, seq<N>>, rank: map<N, nat>, x: N, p: N, a: N)
    requires Ranked(kids, rank) && x in kids && InSubtree(kids, rank, x, p)
    requires p in kids && a in kids[p]
    ensures InSubtree(kids, rank, x, a)
    decreases rank[x]
  {
    if p == x {
      assert InSubtree(kids, rank, a, a);
    } else {
      var c :| c in kids[x] && InSubtree(kids, rank, c, p);
      SubtreeChild(kids, rank, c, p, a);
    }
  }

  /** A node that `x` does not contain is not contained in `x` once `x` is detached. */
  lemma DetachedOutside<N>(s: Shape<N>, rank: map<N, nat>, x: N, p: N)
    requires WellFormed(s) && Ranked(s.kids, rank) && x in s.row && !InSubtree(s.kids, rank, x, p)
    ensures Ranked(Detached(s, x).kids, rank) && !InSubtree(Detached(s, x).kids, rank, x, p)
  {
    DetachedRanked(s, rank, x);
    if InSubtree(Detached(s, x).kids, rank, x, p) {
      DetachedSubtree(s, rank, x, x, p);
    }
  }

  /** The links after an append are those of joining after the old last child. The result is a forest exactly
      when the node does not contain its new parent (`AppendedCyclic` is the other half). */
  lemma AppendedForest<N>(s: Shape<N>, rank: map<N, nat>, p: N, x: N)
    requires Has(s, p) && Has(s, x) && Ranked(s.kids, rank) && p != x
    ensures Has(Detached(s, x), p) && Ranked(Detached(s, x).kids, rank)
    ensures Joins(Detached(s, x), Appended(s, p, x), x, Some(p), LinksOf(Detached(s, x), p).last, None)
    ensures !InSubtree(s.kids, rank, x, p) ==> Ranked(Appended(s, p, x).kids, PlacedRank(Detached(s, x), rank, x, Some(p)))
  {
    hide WellFormed, Ranked, Joins, Detached, Placed, Slot, Alone, PlacedRank;
    var d := Detached(s, x);
    WellFormedAt(s, x);
    KidsSlot(s, p, x);
    DetachedRanked(s, rank, x);
    var list := d.kids[p];
    PlacedJoins(d, x, Some(p), list, |list|);
    assert InsertAt(list, |list|, x) == list + [x];
    assert LeftOf(list, |list|) == Last(list);
    if !InSubtree(s.kids, rank, x, p) {
      DetachedOutside(s, rank, x, p);
      PlacedShapeRanked(d, rank, x, Some(p), list, |list|);
    }
  }

  lemma AppendedCyclic<N>(s: Shape<N>, rank: map<N, nat>, p: N, x: N, r: map<N, nat>)
    requires Has(s, p) && Has(s, x) && Ranked(s.kids, rank) && p != x && InSubtree(s.kids, rank, x, p)
    ensures !Ranked(Appended(s, p, x).kids, r)
  {
    hide WellFormed, Ranked, Detached, Placed;
    KidsStay(s, p, x);
    PlacedCyclic(s, rank, x, p, Detached(s, x).kids[p] + [x], r);
  }

  lemma KidsStay<N>(s: Shape<N>, p: N, x: N)
    requires Has(s, p)
    ensures p in Detached(s, x).kids && forall c :: c in s.kids[p] ==> c == x || c in Detached(s, x).kids[p]
  {
    WellFormedAt(s, p);
    KidsAreARow(s, p);
    RemoveLinks(s.kids[p], x);
  }

  lemma PrependedForest<N>(s: Shape<N>, rank: map<N, nat>, p: N, x: N)
    requires Has(s, p) && Has(s, x) && Ranked(s.kids, rank) && p != x
    ensures Has(Detached(s, x), p) && Ranked(Detached(s, x).kids, rank)
    ensures Joins(Detached(s, x), Prepended(s, p, x), x, Some(p), None, LinksOf(Detached(s, x), p).first)
    ensures !InSubtree(s.kids, rank, x, p) ==> Ranked(Prepended(s, p, x).kids, PlacedRank(Detached(s, x), rank, x, Some(p)))
  {
    hide WellFormed, Ranked, Joins, Detached, Placed, Slot, Alone, PlacedRank;
    var d := Detached(s, x);
    WellFormedAt(s, x);
    KidsSlot(s, p, x);
    DetachedRanked(s, rank, x);
    var list := d.kids[p];
    PlacedJoins(d, x, Some(p), list, 0);
    assert InsertAt(list, 0, x) == [x] + list;
    assert RightOf(list, 0) == First(list);
    if !InSubtree(s.kids, rank, x, p) {
      DetachedOutside(s, rank, x, p);
      PlacedShapeRanked(d, rank, x, Some(p), list, 0);
    }
  }

  lemma PrependedCyclic<N>(s: Shape<N>, rank: map<N, nat>, p: N, x: N, r: map<N, nat>)
    requires Has(s, p) && Has(s, x) && Ranked(s.kids, rank) && p != x && InSubtree(s.kids, rank, x, p)
    ensures !Ranked(Prepended(s, p, x).kids, r)
  {
    hide WellFormed, Ranked, Detached, Placed;
    KidsStay(s, p, x);
    PlacedCyclic(s, rank, x, p, [x] + Detached(s, x).kids[p], r);
  }

  /** The parent of `a` is outside `x` when `a` is. */
  lemma ParentOutside<N>(s: Shape<N>, rank: map<N, nat>, a: N, x: N)
    requires Has(s, a) && Has(s, x) && Ranked(s.kids, rank) && !InSubtree(s.kids, rank, x, a)
    ensures s.parent[a].Some? ==> s.parent[a].value in s.row && !InSubtree(s.kids, rank, x, s.parent[a].value)
  {
    assert ParentOk(s, a) && RowOk(s, a);
    if s.parent[a].Some? && InSubtree(s.kids, rank, x, s.parent[a].value) {
      SubtreeChild(s.kids, rank, x, s.parent[a].value, a);
    }
  }

  /** The parent of `a` is inside `x` when `a` is, unless `a` is `x`. */
  lemma {:induction false} ParentInside<N>(s: Shape<N>, rank: map<N, nat>, a: N, x: N)
    requires Has(s, a) && Has(s, x) && Ranked(s.kids, rank) && a != x && InSubtree(s.kids, rank, x, a)
    ensures s.parent[a].Some? && s.parent[a].value in s.kids && InSubtree(s.kids, rank, x, s.parent[a].value)
    decreases rank[x]
  {
    WellFormedAt(s, a);
    WellFormedAt(s, x);
    hide WellFormed;
    var c :| c in s.kids[x] && InSubtree(s.kids, rank, c, a);
    if c == a {
      assert InSubtree(s.kids, rank, x, x);
    } else {
      ParentInside(s, rank, a, c);
    }
  }

  ghost predicate InsertedRanked<N>(s: Shape<N>, rank: map<N, nat>, a: N, x: N, t: Shape<N>)
    requires Has(s, a) && Has(s, x) && Ranked(s.kids, rank) && Ranked(Detached(s, x).kids, rank)
  {
    !InSubtree(s.kids, rank, x, a) ==> Ranked(t.kids, PlacedRank(Detached(s, x), rank, x, s.parent[a]))
  }

  lemma RowPlaced<N>(s: Shape<N>, rank: map<N, nat>, a: N, x: N, k: nat)
    requires Has(s, a) && Has(s, x) && Ranked(s.kids, rank) && a != x && s.parent[a] != Some(x)
    requires a in Detached(s, x).row && k <= |Detached(s, x).row[a]|
    ensures Has(Detached(s, x), a) && Ranked(Detached(s, x).kids, rank)
    ensures var d := Detached(s, x);
            var t := Placed(d, x, s.parent[a], InsertAt(d.row[a], k, x));
            && Joins(d, t, x, s.parent[a], LeftOf(d.row[a], k), RightOf(d.row[a], k))
            && InsertedRanked(s, rank, a, x, t)
  {
    hide WellFormed, Ranked, Joins, Detached, Placed, Slot, Alone, PlacedRank;
    var d := Detached(s, x);
    WellFormedAt(s, x);
    RowSlot(s, a, x);
    DetachedRanked(s, rank, x);
    PlacedJoins(d, x, s.parent[a], d.row[a], k);
    if !InSubtree(s.kids, rank, x, a) {
      ParentOutside(s, rank, a, x);
      if s.parent[a].Some? {
        DetachedOutside(s, rank, x, s.parent[a].value);
      }
      PlacedShapeRanked(d, rank, x, s.parent[a], d.row[a], k);
    }
  }

  lemma RowPlacedCyclic<N>(s: Shape<N>, rank: map<N, nat>, a: N, x: N, k: nat, r: map<N, nat>)
    requires Has(s, a) && Has(s, x) && Ranked(s.kids, rank) && a != x && InSubtree(s.kids, rank, x, a)
    requires a in Detached(s, x).row && k <= |Detached(s, x).row[a]|
    ensures !Ranked(Placed(Detached(s, x), x, s.parent[a], InsertAt(Detached(s, x).row[a], k, x)).kids, r)
  {
    ParentInside(s, rank, a, x);
    var q := s.parent[a].value;
    WellFormedAt(s, a);
    hide WellFormed, Ranked, Placed;
    KidsStay(s, q, x);
    var list := Detached(s, x).row[a];
    assert s.row[a] == s.kids[q];
    assert forall c :: c in InsertAt(list, k, x) <==> c in list || c == x;
    PlacedCyclic(s, rank, x, q, InsertAt(list, k, x), r);
  }

  lemma InsertedAfterForest<N>(s: Shape<N>, rank: map<N, nat>, a: N, x: N)
    requires Has(s, a) && Has(s, x) && Ranked(s.kids, rank) && a != x && s.parent[a] != Some(x)
    ensures Has(Detached(s, x), a) && Ranked(Detached(s, x).kids, rank)
    ensures Joins(Detached(s, x), InsertedAfter(s, a, x), x, s.parent[a], Some(a), LinksOf(Detached(s, x), a).next)
    ensures InsertedRanked(s, rank, a, x, InsertedAfter(s, a, x))
  {
    hide WellFormed, Ranked, Joins, Detached, Placed, Slot, Alone, InsertedRanked;
    RowSlot(s, a, x);
    var list := Detached(s, x).row[a];
    RowPlaced(s, rank, a, x, IndexOf(list, a) + 1);
  }

  lemma InsertedAfterCyclic<N>(s: Shape<N>, rank: map<N, nat>, a: N, x: N, r: map<N, nat>)
    requires Has(s, a) && Has(s, x) && Ranked(s.kids, rank) && a != x && InSubtree(s.kids, rank, x, a)
    ensures !Ranked(InsertedAfter(s, a, x).kids, r)
  {
    hide WellFormed, Ranked, Detached, Placed;
    InDetachedRow(s, a, x);
    RowPlacedCyclic(s, rank, a, x, IndexOf(Detached(s, x).row[a], a) + 1, r);
  }

  lemma InDetachedRow<N>(s: Shape<N>, a: N, x: N)
    requires Has(s, a) && Has(s, x) && a != x
    ensures a in Detached(s, x).row && a in Detached(s, x).row[a]
  {
    DetachedWellFormed(s, x);
    WellFormedAt(Detached(s, x), a);
  }

  lemma InsertedBeforeForest<N>(s: Shape<N>, rank: map<N, nat>, a: N, x: N)
    requires Has(s, a) && Has(s, x) && Ranked(s.kids, rank) && a != x && s.parent[a] != Some(x)
    ensures Has(Detached(s, x), a) && Ranked(Detached(s, x).kids, rank)
    ensures Joins(Detached(s, x), InsertedBefore(s, a, x), x, s.parent[a], LinksOf(Detached(s, x), a).prev, Some(a))
    ensures InsertedRanked(s, rank, a, x, InsertedBefore(s, a, x))
  {
    hide WellFormed, Ranked, Joins, Detached, Placed, Slot, Alone, InsertedRanked;
    RowSlot(s, a, x);
    var list := Detached(s, x).row[a];
    RowPlaced(s, rank, a, x, IndexOf(list, a));
  }

  lemma InsertedBeforeCyclic<N>(s: Shape<N>, rank: map<N, nat>, a: N, x: N, r: map<N, nat>)
    requires Has(s, a) && Has(s, x) && Ranked(s.kids, rank) && a != x && InSubtree(s.kids, rank, x, a)
    ensures !Ranked(InsertedBefore(s, a, x).kids, r)
  {
    hide WellFormed, Ranked, Detached, Placed;
    InDetachedRow(s, a, x);
    RowPlacedCyclic(s, rank, a, x, IndexOf(Detached(s, x).row[a], a), r);
  }

  // ----- what appending does to the lists of children -----

  lemma RemoveAbsent<N>(s: Shape<N>, x: N, q: N)
    requires Has(s, x) && Has(s, q)
    ensures x in s.kids[q] <==> s.parent[x] == Some(q)
    ensures s.parent[x] != Some(q) ==> Remove(s.kids[q], x) == s.kids[q]
  {
    WellFormedAt(s, x);
    WellFormedAt(s, q);
  }

  /** Appending leaves every other list of children as it was, apart from `x` itself. */
  lemma AppendedKids<N>(s: Shape<N>, p: N, x: N, q: N)
    requires Has(s, p) && Has(s, x) && Has(s, q)
    ensures Appended(s, p, x).kids.Keys == Appended(s, p, x).parent.Keys == s.row.Keys
    ensures Appended(s, p, x).kids[q] == Remove(s.kids[q], x) + if q == p then [x] else []
    ensures Appended(s, p, x).parent[q] == if q == x then Some(p) else s.parent[q]
  {
  }

  /** Appending below `p` gives `p` no new ancestors. */
  lemma {:induction false} AppendedAncestors<N>(s: Shape<N>, rank: map<N, nat>, rank': map<N, nat>, p: N, x: N, a: N)
    requires Has(s, p) && Has(s, x) && Ranked(s.kids, rank) && a in s.kids
    requires Ranked(Appended(s, p, x).kids, rank') && InSubtree(Appended(s, p, x).kids, rank', a, p)
    ensures InSubtree(s.kids, rank, a, p)
    decreases rank'[a]
  {
    hide Appended, WellFormed;
    if a != p {
      KidsDomain(s);
      AppendedKids(s, p, x, a);
      var c :| c in Appended(s, p, x).kids[a] && InSubtree(Appended(s, p, x).kids, rank', c, p);
      AppendedChild(s, p, x, a, c);
      AppendedAncestors(s, rank, rank', p, x, c);
    }
  }

  /** Only `p` gains a child. */
  lemma AppendedChild<N>(s: Shape<N>, p: N, x: N, a: N, c: N)
    requires Has(s, p) && Has(s, x) && a in s.kids && a != p
    requires a in Appended(s, p, x).kids && c in Appended(s, p, x).kids[a]
    ensures c in s.kids[a] && c in s.kids
  {
    hide Appended, WellFormed;
    KidsDomain(s);
    AppendedKids(s, p, x, a);
    KidsAreARow(s, a);
    RemoveLinks(s.kids[a], x);
  }

  lemma KidsDomain<N>(s: Shape<N>)
    requires WellFormed(s)
    ensures s.kids.Keys == s.row.Keys == s.parent.Keys
  {
  }

  /** Appending a new node adds it to one list of children and changes no other. */
  /** Detaching a new node changes nothing. */
  lemma NewIsDetached<N>(s: Shape<N>, x: N)
    requires WellFormed(s) && x !in s.row
    ensures Detached(Grown(s, x), x) == Grown(s, x)
  {
    var g := Grown(s, x);
    var d := Detached(g, x);
    forall y | y in g.row ensures d.row[y] == g.row[y] {
      if y != x { NewIsNowhere(s, y, x); }
    }
    forall y | y in g.kids ensures d.kids[y] == g.kids[y] {
      if y != x { WellFormedAt(s, y); }
    }
    assert d.row == g.row && d.kids == g.kids && d.parent == g.parent;
  }

  /** What a new node before `a` does to the row and to the lists of children. */
  lemma InsertedNew<N>(s: Shape<N>, a: N, x: N)
    requires Has(s, a) && x !in s.row && Has(Grown(s, x), a) && Has(Grown(s, x), x) && a != x && a in s.row[a]
    ensures x in Grown(s, x).kids && Grown(s, x).kids[x] == []
    ensures match s.parent[a]
            case Some(q) =>
              && q in s.kids && s.kids[q] == s.row[a]
              && InsertedBefore(Grown(s, x), a, x).kids == s.kids[x := []][q := InsertAt(s.row[a], IndexOf(s.row[a], a), x)]
            case None => InsertedBefore(Grown(s, x), a, x).kids == s.kids[x := []]
  {
    WellFormedAt(s, a);
    NewIsDetached(s, x);
    hide WellFormed, Detached;
  }

  lemma NewIsNowhere<N>(s: Shape<N>, a: N, x: N)
    requires Has(s, a) && x !in s.row
    ensures x !in s.row[a]
  {
    WellFormedAt(s, a);
  }

  lemma AppendedNew<N>(s: Shape<N>, p: N, x: N)
    requires Has(s, p) && x !in s.row && p in s.kids && Has(Grown(s, x), p)
    ensures x in Grown(s, x).kids && Grown(s, x).kids[x] == []
    ensures Appended(Grown(s, x), p, x).kids == s.kids[x := []][p := s.kids[p] + [x]]
    ensures Appended(Grown(s, x), p, x).parent == s.parent[x := Some(p)]
  {
    var g := Grown(s, x);
    forall q | q in g.kids ensures Remove(g.kids[q], x) == g.kids[q] {
      if q != x { assert KidsOk(s, q); }
    }
    hide Remove, WellFormed, KidsOk;
    assert Detached(g, x).kids == g.kids;
  }

  // ----- laws of whole edits -----

  lemma PlacedBackRow<N>(s: Shape<N>, x: N, y: N)
    requires Has(s, x) && Has(s, y)
    ensures var t := Placed(Detached(s, x), x, s.parent[x], s.row[x]);
            y in t.row && t.row[y] == s.row[y]
  {
    WellFormedAt(s, x);
    WellFormedAt(s, y);
    hide WellFormed;
    assert y !in s.row[x] ==> x !in s.row[y];
  }

  lemma PlacedBackKids<N>(s: Shape<N>, x: N, y: N)
    requires Has(s, x) && Has(s, y)
    ensures var t := Placed(Detached(s, x), x, s.parent[x], s.row[x]);
            && SameKeys(s) && t.parent == s.parent && t.kids.Keys == s.kids.Keys && t.kids[y] == s.kids[y]
  {
    WellFormedAt(s, x);
    WellFormedAt(s, y);
    RemoveAbsent(s, x, y);
    if s.parent[x].Some? { WellFormedAt(s, s.parent[x].value); }
    hide WellFormed, Remove;
  }

  lemma PlacedBack<N>(s: Shape<N>, x: N)
    requires Has(s, x)
    ensures Placed(Detached(s, x), x, s.parent[x], s.row[x]) == s
  {
    hide Placed, Detached;
    var t := Placed(Detached(s, x), x, s.parent[x], s.row[x]);
    PlacedBackKids(s, x, x);
    forall y | y in s.row ensures y in t.row && t.row[y] == s.row[y] && t.kids[y] == s.kids[y] {
      PlacedBackRow(s, x, y);
      PlacedBackKids(s, x, y);
    }
    PlacedKeys(s, x);
    assert t.row == s.row && t.kids == s.kids;
  }

  lemma PlacedKeys<N>(s: Shape<N>, x: N)
    requires Has(s, x)
    ensures Placed(Detached(s, x), x, s.parent[x], s.row[x]).row.Keys == s.row.Keys
  {
  }

  /** Taking a node out and putting it back where it was changes nothing. */
  lemma ReinsertedInPlace<N>(s: Shape<N>, x: N)
    requires Has(s, x)
    ensures match LinksOf(s, x).next
            case Some(a) => Has(s, a) && a != x && InsertedBefore(s, a, x) == s
            case None => s.parent[x].Some? ==> Has(s, s.parent[x].value) && Appended(s, s.parent[x].value, x) == s
  {
    WellFormedAt(s, x);
    PlacedBack(s, x);
    Reinsert(s.row[x], x);
    Neighbours(s.row[x], x, x);
    hide WellFormed, Placed, Remove, InsertAt;
    if LinksOf(s, x).next.Some? {
      var a := LinksOf(s, x).next.value;
      assert Detached(s, x).row[a] == Remove(s.row[x], x);
    } else if s.parent[x].Some? {
      assert Detached(s, x).kids[s.parent[x].value] == Remove(s.row[x], x);
    }
  }

  // ----- runs -----

  datatype Edit<N> =
    | Detach(x: N)
    | Append(p: N, x: N)
    | Prepend(p: N, x: N)
    | InsertAfter(a: N, x: N)
    | InsertBefore(a: N, x: N)

  /** The nodes exist, and the edit does not make a node its own parent or sibling. */
  ghost predicate Possible<N>(s: Shape<N>, e: Edit<N>) {
    && Has(s, e.x)
    && match e
       case Detach(_) => true
       case Append(p, x) => Has(s, p) && p != x
       case Prepend(p, x) => Has(s, p) && p != x
       case InsertAfter(a, x) => Has(s, a) && a != x && s.parent[a] != Some(x)
       case InsertBefore(a, x) => Has(s, a) && a != x && s.parent[a] != Some(x)
  }

  /** The moved node is not an ancestor of where it goes. */
  ghost predicate Outside<N>(s: Shape<N>, rank: map<N, nat>, e: Edit<N>)
    requires Possible(s, e) && Ranked(s.kids, rank)
  {
    match e
    case Detach(_) => true
    case Append(p, x) => !InSubtree(s.kids, rank, x, p)
    case Prepend(p, x) => !InSubtree(s.kids, rank, x, p)
    case InsertAfter(a, x) => !InSubtree(s.kids, rank, x, a)
    case InsertBefore(a, x) => !InSubtree(s.kids, rank, x, a)
  }

  ghost predicate Allowed<N>(s: Shape<N>, rank: map<N, nat>, e: Edit<N>) {
    Possible(s, e) && Ranked(s.kids, rank) && Outside(s, rank, e)
  }

  ghost function Edited<N>(s: Shape<N>, e: Edit<N>): Shape<N>
    requires Possible(s, e)
  {
    match e
    case Detach(x) => Detached(s, x)
    case Append(p, x) => Appended(s, p, x)
    case Prepend(p, x) => Prepended(s, p, x)
    case InsertAfter(a, x) => InsertedAfter(s, a, x)
    case InsertBefore(a, x) => InsertedBefore(s, a, x)
  }

  /** `t` is reached from `s` by allowed edits. */
  ghost predicate Run<N(!new)>(s: Shape<N>, edits: seq<Edit<N>>, t: Shape<N>)
    decreases |edits|
  {
    if edits == [] then s == t
    else exists rank :: Allowed(s, rank, edits[0]) && Run(Edited(s, edits[0]), edits[1..], t)
  }

  ghost function EditedRank<N>(s: Shape<N>, rank: map<N, nat>, e: Edit<N>): map<N, nat>
    requires Possible(s, e) && Ranked(s.kids, rank)
  {
    DetachedForest(s, rank, e.x);
    match e
    case Detach(x) => rank
    case Append(p, x) => PlacedRank(Detached(s, x), rank, x, Some(p))
    case Prepend(p, x) => PlacedRank(Detached(s, x), rank, x, Some(p))
    case InsertAfter(a, x) => PlacedRank(Detached(s, x), rank, x, s.parent[a])
    case InsertBefore(a, x) => PlacedRank(Detached(s, x), rank, x, s.parent[a])
  }

  lemma EditKeepsForest<N>(s: Shape<N>, rank: map<N, nat>, e: Edit<N>)
    requires Possible(s, e) && Ranked(s.kids, rank)
    ensures WellFormed(Edited(s, e)) && Edited(s, e).row.Keys == s.row.Keys
    ensures Outside(s, rank, e) ==> Ranked(Edited(s, e).kids, EditedRank(s, rank, e))
  {
    hide WellFormed, Ranked, Detached, Appended, Prepended, InsertedAfter, InsertedBefore, PlacedRank;
    DetachedForest(s, rank, e.x);
    match e
    case Detach(x) =>
    case Append(p, x) => AppendedForest(s, rank, p, x);
    case Prepend(p, x) => PrependedForest(s, rank, p, x);
    case InsertAfter(a, x) => InsertedAfterForest(s, rank, a, x);
    case InsertBefore(a, x) => InsertedBeforeForest(s, rank, a, x);
  }

  lemma EditCloses<N>(s: Shape<N>, rank: map<N, nat>, e: Edit<N>, r: map<N, nat>)
    requires Possible(s, e) && Ranked(s.kids, rank) && !Outside(s, rank, e)
    ensures !Ranked(Edited(s, e).kids, r)
  {
    hide WellFormed, Ranked, Detached, Appended, Prepended, InsertedAfter, InsertedBefore;
    match e
    case Append(p, x) => AppendedCyclic(s, rank, p, x, r);
    case Prepend(p, x) => PrependedCyclic(s, rank, p, x, r);
    case InsertAfter(a, x) => InsertedAfterCyclic(s, rank, a, x, r);
    case InsertBefore(a, x) => InsertedBeforeCyclic(s, rank, a, x, r);
  }

  /** An edit of a forest leaves a forest exactly when the moved node is not an ancestor of where it goes. */
  lemma EditForestIff<N(!new)>(s: Shape<N>, rank: map<N, nat>, e: Edit<N>)
    requires Possible(s, e) && Ranked(s.kids, rank)
    ensures (exists r :: Ranked(Edited(s, e).kids, r)) <==> Outside(s, rank, e)
  {
    hide WellFormed, Ranked, Edited, Possible, Outside;
    if Outside(s, rank, e) {
      EditKeepsForest(s, rank, e);
    } else {
      forall r ensures !Ranked(Edited(s, e).kids, r) {
        EditCloses(s, rank, e, r);
      }
    }
  }

  /** Every run of allowed edits ends in a forest of the same nodes, without cycles. */
  lemma {:induction false} RunKeepsForest<N(!new)>(s: Shape<N>, rank: map<N, nat>, edits: seq<Edit<N>>, t: Shape<N>)
    requires WellFormed(s) && Ranked(s.kids, rank) && Run(s, edits, t)
    ensures WellFormed(t) && t.row.Keys == s.row.Keys && exists r :: Ranked(t.kids, r)
    decreases |edits|
  {
    hide WellFormed, Ranked, Edited, EditedRank;
    if edits != [] {
      var r :| Allowed(s, r, edits[0]) && Run(Edited(s, edits[0]), edits[1..], t);
      EditKeepsForest(s, r, edits[0]);
      RunKeepsForest(Edited(s, edits[0]), EditedRank(s, r, edits[0]), edits[1..], t);
    }
  }
}
