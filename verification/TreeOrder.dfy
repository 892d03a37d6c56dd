/**
  Tree order on an ordered forest: the tour of start and end edges around a subtree, the preorder
  list of its nodes, and the step from one edge to the next that only looks at the links of a node.
 */
module TreeOrder {
  import opened Wrappers
  import opened Rows
  import opened OrderedForest

  datatype Edge<N> = Start(node: N) | End(node: N)

  /** All start and end edges of the subtree at `x`, in tree order. */
  ghost function Tour<N>(kids: map<N, seq<N>>, rank: map<N, nat>, x: N): seq<Edge<N>>
    requires Ranked(kids, rank) && x in kids
    decreases rank[x], |kids[x]| + 1
  {
    [Start(x)] + Tours(kids, rank, kids[x], rank[x]) + [End(x)]
  }

  ghost function Tours<N>(kids: map<N, seq<N>>, rank: map<N, nat>, list: seq<N>, bound: nat): seq<Edge<N>>
    requires Ranked(kids, rank)
    requires forall c :: c in list ==> c in rank && rank[c] < bound
    decreases bound, |list|
  {
    if list == [] then []
    else Tour(kids, rank, list[0]) + Tours(kids, rank, list[1..], bound)
  }

  /** The tour of the subtree at `x` without the edges of `x` itself. */
  ghost function InnerTour<N>(kids: map<N, seq<N>>, rank: map<N, nat>, x: N): seq<Edge<N>>
    requires Ranked(kids, rank) && x in kids
  {
    Tours(kids, rank, kids[x], rank[x])
  }

  /** The subtree at `x` in preorder. */
  ghost function Preorder<N>(kids: map<N, seq<N>>, rank: map<N, nat>, x: N): seq<N>
    requires Ranked(kids, rank) && x in kids
    decreases rank[x], |kids[x]| + 1
  {
    [x] + Preorders(kids, rank, kids[x], rank[x])
  }

  ghost function Preorders<N>(kids: map<N, seq<N>>, rank: map<N, nat>, list: seq<N>, bound: nat): seq<N>
    requires Ranked(kids, rank)
    requires forall c :: c in list ==> c in rank && rank[c] < bound
    decreases bound, |list|
  {
    if list == [] then []
    else Preorder(kids, rank, list[0]) + Preorders(kids, rank, list[1..], bound)
  }

  /** The edge after `e`, found from the links of its node. */
  ghost function NextEdge<N>(e: Edge<N>, l: Links<N>): Option<Edge<N>> {
    match e
    case Start(n) => Some(if l.first.Some? then Start(l.first.value) else End(n))
    case End(n) =>
      if l.next.Some? then Some(Start(l.next.value))
      else if l.parent.Some? then Some(End(l.parent.value))
      else None
  }

  /** The edge before `e`, found from the links of its node. */
  ghost function PrevEdge<N>(e: Edge<N>, l: Links<N>): Option<Edge<N>> {
    match e
    case End(n) => Some(if l.last.Some? then End(l.last.value) else Start(n))
    case Start(n) =>
      if l.prev.Some? then Some(End(l.prev.value))
      else if l.parent.Some? then Some(Start(l.parent.value))
      else None
  }

  /** The two steps undo each other. */
  lemma StepsInverse<N>(s: Shape<N>, e: Edge<N>, f: Edge<N>)
    requires Has(s, e.node) && Has(s, f.node)
    ensures NextEdge(e, LinksOf(s, e.node)) == Some(f) <==> PrevEdge(f, LinksOf(s, f.node)) == Some(e)
  {
    hide WellFormed, LinksOf;
    LinksAgree(s, e.node, f.node);
    LinksAgree(s, f.node, e.node);
    FirstLast(s, e.node);
    FirstLast(s, f.node);
  }

  lemma FirstLast<N>(s: Shape<N>, x: N)
    requires Has(s, x)
    ensures LinksOf(s, x).first == None <==> LinksOf(s, x).last == None
  {
  }

  /** A walk goes from edge to edge by `NextEdge` and meets no edge twice. */
  ghost predicate IsWalk<N>(s: Shape<N>, w: seq<Edge<N>>)
    requires WellFormed(s)
  {
    && NoDup(w)
    && (forall i :: 0 <= i < |w| ==> w[i].node in s.row)
    && (forall i :: 0 <= i < |w| - 1 ==> NextEdge(w[i], LinksOf(s, w[i].node)) == Some(w[i + 1]))
  }

  // ----- the tour is a walk -----

  lemma {:induction false} TourInside<N>(kids: map<N, seq<N>>, rank: map<N, nat>, x: N, i: nat)
    requires Ranked(kids, rank) && x in kids && i < |Tour(kids, rank, x)|
    ensures Tour(kids, rank, x)[i].node in rank
    ensures 0 < i < |Tour(kids, rank, x)| - 1 ==> rank[Tour(kids, rank, x)[i].node] < rank[x]
    ensures rank[Tour(kids, rank, x)[i].node] <= rank[x]
    decreases rank[x], |kids[x]| + 1
  {
    if 0 < i < |Tour(kids, rank, x)| - 1 {
      ToursInside(kids, rank, kids[x], rank[x], i - 1);
    }
  }

  lemma {:induction false} ToursInside<N>(kids: map<N, seq<N>>, rank: map<N, nat>, list: seq<N>, bound: nat, i: nat)
    requires Ranked(kids, rank)
    requires forall c :: c in list ==> c in rank && rank[c] < bound
    requires i < |Tours(kids, rank, list, bound)|
    ensures Tours(kids, rank, list, bound)[i].node in rank
    ensures rank[Tours(kids, rank, list, bound)[i].node] < bound
    decreases bound, |list|
  {
    var t := Tour(kids, rank, list[0]);
    if i < |t| {
      TourInside(kids, rank, list[0], i);
    } else {
      ToursInside(kids, rank, list[1..], bound, i - |t|);
    }
  }

  lemma {:induction false} ToursEnds<N>(kids: map<N, seq<N>>, rank: map<N, nat>, list: seq<N>, bound: nat)
    requires Ranked(kids, rank)
    requires forall c :: c in list ==> c in rank && rank[c] < bound
    ensures var t := Tours(kids, rank, list, bound);
            if list == [] then t == []
            else t != [] && t[0] == Start(list[0]) && t[|t| - 1] == End(list[|list| - 1])
    decreases |list|
  {
    if list != [] {
      var t := Tour(kids, rank, list[0]);
      assert t[0] == Start(list[0]) && t[|t| - 1] == End(list[0]);
      ToursEnds(kids, rank, list[1..], bound);
    }
  }

  /** Consecutive edges of a tour are one step apart. */
  lemma {:induction false} TourSteps<N>(s: Shape<N>, rank: map<N, nat>, x: N, i: nat)
    requires Has(s, x) && Ranked(s.kids, rank) && i + 1 < |Tour(s.kids, rank, x)|
    ensures Has(s, Tour(s.kids, rank, x)[i].node)
    ensures NextEdge(Tour(s.kids, rank, x)[i], LinksOf(s, Tour(s.kids, rank, x)[i].node))
            == Some(Tour(s.kids, rank, x)[i + 1])
    decreases rank[x], |s.kids[x]| + 1
  {
    TourInside(s.kids, rank, x, i);
    KidsAreARow(s, x);
    var inner := Tours(s.kids, rank, s.kids[x], rank[x]);
    if i > 0 {
      ToursSteps(s, rank, x, 0, i - 1);
      assert s.kids[x][0..] == s.kids[x];
    } else if s.kids[x] != [] {
      ToursEnds(s.kids, rank, s.kids[x], rank[x]);
    }
  }

  /** The tours of the children of `x` from the `j`th on, followed by the end of `x`, are linked. */
  lemma {:induction false} ToursSteps<N>(s: Shape<N>, rank: map<N, nat>, x: N, j: nat, i: nat)
    requires Has(s, x) && x in s.kids && Ranked(s.kids, rank) && j <= |s.kids[x]|
    requires i < |Tours(s.kids, rank, s.kids[x][j..], rank[x])|
    ensures var t := Tours(s.kids, rank, s.kids[x][j..], rank[x]);
            && Has(s, t[i].node)
            && NextEdge(t[i], LinksOf(s, t[i].node)) == Some((t + [End(x)])[i + 1])
    decreases rank[x], |s.kids[x]| - j
  {
    hide WellFormed;
    var list := s.kids[x][j..];
    var c := list[0];
    var t := Tour(s.kids, rank, c);
    var rest := Tours(s.kids, rank, list[1..], rank[x]);
    assert list[1..] == s.kids[x][j + 1..];
    ChildLinks(s, x, j);
    if i + 1 < |t| {
      TourSteps(s, rank, c, i);
    } else if i < |t| {
      if list[1..] != [] {
        ToursEnds(s.kids, rank, list[1..], rank[x]);
      }
    } else {
      ToursSteps(s, rank, x, j + 1, i - |t|);
    }
  }

  /** The `j`th child of `x` has the next one as its next sibling, and `x` as its parent. */
  lemma ChildLinks<N>(s: Shape<N>, x: N, j: nat)
    requires Has(s, x) && j < |s.kids[x]|
    ensures Has(s, s.kids[x][j])
    ensures LinksOf(s, s.kids[x][j]).parent == Some(x)
    ensures LinksOf(s, s.kids[x][j]).next == if j + 1 < |s.kids[x]| then Some(s.kids[x][j + 1]) else None
  {
    var c := s.kids[x][j];
    KidsAreARow(s, x);
    assert KidsOk(s, x);
    assert c in s.kids[x];
    IndexOfUnique(s.kids[x], j);
  }

  /** The tour of a subtree meets every edge once. */
  lemma {:induction false} TourDistinct<N>(s: Shape<N>, rank: map<N, nat>, x: N, i: nat, j: nat)
    requires Has(s, x) && Ranked(s.kids, rank) && i < j < |Tour(s.kids, rank, x)|
    ensures Tour(s.kids, rank, x)[i] != Tour(s.kids, rank, x)[j]
    decreases i
  {
    hide LinksOf;
    var t := Tour(s.kids, rank, x);
    if i == 0 {
      TourInside(s.kids, rank, x, j);
    } else {
      TourDistinct(s, rank, x, i - 1, j - 1);
      TourSteps(s, rank, x, i - 1);
      TourSteps(s, rank, x, j - 1);
      TourInside(s.kids, rank, x, i);
      TourInside(s.kids, rank, x, j);
      StepsInverse(s, t[i - 1], t[i]);
      StepsInverse(s, t[j - 1], t[j]);
    }
  }

  /** `traverse_inclusive` walks the whole tour and `traverse` walks it without its two ends. */
  lemma TourIsWalk<N>(s: Shape<N>, rank: map<N, nat>, x: N)
    requires Has(s, x) && Ranked(s.kids, rank)
    ensures IsWalk(s, Tour(s.kids, rank, x))
    ensures IsWalk(s, InnerTour(s.kids, rank, x))
  {
    var t := Tour(s.kids, rank, x);
    var inner := InnerTour(s.kids, rank, x);
    assert inner == t[1..|t| - 1];
    hide WellFormed, LinksOf, Tour, Tours;
    forall i | 0 <= i < |t| ensures t[i].node in s.row {
      TourInside(s.kids, rank, x, i);
    }
    forall i, j | 0 <= i < j < |t| ensures t[i] != t[j] {
      TourDistinct(s, rank, x, i, j);
    }
    forall i | 0 <= i < |t| - 1 ensures NextEdge(t[i], LinksOf(s, t[i].node)) == Some(t[i + 1]) {
      TourSteps(s, rank, x, i);
    }
  }

  /** The two ends of the tours, as `traverse` finds them. */
  lemma TourEnds<N>(s: Shape<N>, rank: map<N, nat>, x: N)
    requires Has(s, x) && Ranked(s.kids, rank)
    ensures var t := Tour(s.kids, rank, x);
            t != [] && t[0] == Start(x) && t[|t| - 1] == End(x)
    ensures var t, l := InnerTour(s.kids, rank, x), LinksOf(s, x);
            if l.first == None || l.last == None then t == []
            else t != [] && t[0] == Start(l.first.value) && t[|t| - 1] == End(l.last.value)
  {
    ToursEnds(s.kids, rank, s.kids[x], rank[x]);
  }

  // ----- the start edges of a tour are the preorder -----

  ghost function Starts<N>(w: seq<Edge<N>>): seq<N> {
    if w == [] then [] else (if w[0].Start? then [w[0].node] else []) + Starts(w[1..])
  }

  lemma {:induction false} StartsConcat<N>(v: seq<Edge<N>>, w: seq<Edge<N>>)
    ensures Starts(v + w) == Starts(v) + Starts(w)
  {
    if v == [] {
      assert v + w == w;
    } else {
      StartsConcat(v[1..], w);
      assert (v + w)[1..] == v[1..] + w && (v + w)[0] == v[0];
      var head := if v[0].Start? then [v[0].node] else [];
      assert Starts(v + w) == head + (Starts(v[1..]) + Starts(w));
      assert Starts(v) == head + Starts(v[1..]);
    }
  }

  lemma StartsLast<N>(w: seq<Edge<N>>)
    requires w != []
    ensures Starts(w) == Starts(w[..|w| - 1]) + match w[|w| - 1] case Start(n) => [n] case End(_) => []
  {
    var last := [w[|w| - 1]];
    assert w == w[..|w| - 1] + last;
    StartsConcat(w[..|w| - 1], last);
    assert last[1..] == [];
  }

  /** The start edges of a tour list the subtree in preorder. */
  lemma {:induction false} StartsArePreorder<N>(kids: map<N, seq<N>>, rank: map<N, nat>, x: N)
    requires Ranked(kids, rank) && x in kids
    ensures Starts(Tour(kids, rank, x)) == Preorder(kids, rank, x)
    decreases rank[x], |kids[x]| + 1
  {
    var inner := Tours(kids, rank, kids[x], rank[x]);
    StartsArePreorders(kids, rank, kids[x], rank[x]);
    StartsConcat([Start(x)], inner + [End(x)]);
    StartsConcat(inner, [End(x)]);
    assert Tour(kids, rank, x) == [Start(x)] + (inner + [End(x)]);
  }

  lemma InnerStarts<N>(kids: map<N, seq<N>>, rank: map<N, nat>, x: N)
    requires Ranked(kids, rank) && x in kids
    ensures Starts(InnerTour(kids, rank, x)) == Preorder(kids, rank, x)[1..]
  {
    StartsArePreorders(kids, rank, kids[x], rank[x]);
  }

  lemma {:induction false} StartsArePreorders<N>(kids: map<N, seq<N>>, rank: map<N, nat>, list: seq<N>, bound: nat)
    requires Ranked(kids, rank)
    requires forall c :: c in list ==> c in rank && rank[c] < bound
    ensures Starts(Tours(kids, rank, list, bound)) == Preorders(kids, rank, list, bound)
    decreases bound, |list|
  {
    if list != [] {
      StartsArePreorder(kids, rank, list[0]);
      StartsArePreorders(kids, rank, list[1..], bound);
      StartsConcat(Tour(kids, rank, list[0]), Tours(kids, rank, list[1..], bound));
    }
  }

  /** Preorder lists exactly the nodes of the subtree, each once. */
  lemma {:induction false} PreorderMembers<N>(kids: map<N, seq<N>>, rank: map<N, nat>, x: N, n: N)
    requires Ranked(kids, rank) && x in kids
    ensures n in Preorder(kids, rank, x) <==> InSubtree(kids, rank, x, n)
    decreases rank[x], |kids[x]| + 1
  {
    PreordersMembers(kids, rank, kids[x], rank[x], n);
  }

  lemma {:induction false} PreordersMembers<N>(kids: map<N, seq<N>>, rank: map<N, nat>, list: seq<N>, bound: nat, n: N)
    requires Ranked(kids, rank)
    requires forall c :: c in list ==> c in rank && rank[c] < bound
    ensures n in Preorders(kids, rank, list, bound) <==> exists c :: c in list && InSubtree(kids, rank, c, n)
    decreases bound, |list|
  {
    if list != [] {
      PreorderMembers(kids, rank, list[0], n);
      PreordersMembers(kids, rank, list[1..], bound, n);
    }
  }

  lemma {:induction false} StartsDistinct<N>(w: seq<Edge<N>>)
    requires NoDup(w)
    ensures NoDup(Starts(w))
    ensures forall n :: n in Starts(w) <==> Start(n) in w
  {
    if w != [] {
      StartsDistinct(w[1..]);
      assert forall e :: e in w <==> e == w[0] || e in w[1..];
    }
  }

  lemma PreorderDistinct<N>(s: Shape<N>, rank: map<N, nat>, x: N)
    requires Has(s, x) && Ranked(s.kids, rank)
    ensures NoDup(Preorder(s.kids, rank, x))
  {
    TourIsWalk(s, rank, x);
    StartsArePreorder(s.kids, rank, x);
    StartsDistinct(Tour(s.kids, rank, x));
  }

  // ----- inserting a leaf -----

  /** Preorder looks only at the children of the nodes it lists. */
  lemma {:induction false} PreorderFrame<N>(kids: map<N, seq<N>>, rank: map<N, nat>,
                                            kids': map<N, seq<N>>, rank': map<N, nat>, a: N)
    requires Ranked(kids, rank) && Ranked(kids', rank') && a in kids && a in kids'
    requires forall n :: n in Preorder(kids, rank, a) ==> n in kids && n in kids' && kids'[n] == kids[n]
    ensures Preorder(kids', rank', a) == Preorder(kids, rank, a)
    decreases rank[a], |kids[a]| + 1
  {
    assert kids'[a] == kids[a];
    PreordersFrame(kids, rank, kids', rank', kids[a], rank[a], rank'[a]);
  }

  lemma {:induction false} PreordersFrame<N>(kids: map<N, seq<N>>, rank: map<N, nat>,
                                             kids': map<N, seq<N>>, rank': map<N, nat>,
                                             list: seq<N>, bound: nat, bound': nat)
    requires Ranked(kids, rank) && Ranked(kids', rank')
    requires forall c :: c in list ==> c in rank && rank[c] < bound && c in rank' && rank'[c] < bound'
    requires forall n :: n in Preorders(kids, rank, list, bound) ==> n in kids && n in kids' && kids'[n] == kids[n]
    ensures Preorders(kids', rank', list, bound') == Preorders(kids, rank, list, bound)
    decreases bound, |list|
  {
    if list != [] {
      PreorderFrame(kids, rank, kids', rank', list[0]);
      PreordersFrame(kids, rank, kids', rank', list[1..], bound, bound');
    }
  }

  lemma {:induction false} PreordersConcat<N>(kids: map<N, seq<N>>, rank: map<N, nat>, a: seq<N>, b: seq<N>, bound: nat)
    requires Ranked(kids, rank)
    requires forall c :: c in a + b ==> c in rank && rank[c] < bound
    ensures forall c :: c in a || c in b ==> c in rank && rank[c] < bound
    ensures Preorders(kids, rank, a + b, bound) == Preorders(kids, rank, a, bound) + Preorders(kids, rank, b, bound)
    decreases |a|
  {
    assert forall c :: c in a || c in b ==> c in a + b;
    if a == [] {
      assert a + b == b && Preorders(kids, rank, a, bound) == [];
    } else {
      assert (a + b)[1..] == a[1..] + b && (a + b)[0] == a[0];
      PreordersConcat(kids, rank, a[1..], b, bound);
    }
  }

  /** Tree order up to the child `k` of `p`, and from it on. */
  ghost function Head<N>(kids: map<N, seq<N>>, rank: map<N, nat>, p: N, k: nat): seq<N>
    requires Ranked(kids, rank) && p in kids && k <= |kids[p]|
  {
    [p] + Preorders(kids, rank, kids[p][..k], rank[p])
  }

  ghost function Tail<N>(kids: map<N, seq<N>>, rank: map<N, nat>, p: N, k: nat): seq<N>
    requires Ranked(kids, rank) && p in kids && k <= |kids[p]|
  {
    Preorders(kids, rank, kids[p][k..], rank[p])
  }

  lemma HeadAndTail<N>(kids: map<N, seq<N>>, rank: map<N, nat>, p: N, k: nat)
    requires Ranked(kids, rank) && p in kids && k <= |kids[p]|
    ensures Preorder(kids, rank, p) == Head(kids, rank, p, k) + Tail(kids, rank, p, k)
  {
    assert kids[p] == kids[p][..k] + kids[p][k..];
    PreordersConcat(kids, rank, kids[p][..k], kids[p][k..], rank[p]);
  }

  lemma FirstListed<N>(kids: map<N, seq<N>>, rank: map<N, nat>, list: seq<N>, bound: nat)
    requires Ranked(kids, rank) && list != [] && forall c :: c in list ==> c in rank && rank[c] < bound
    ensures Preorders(kids, rank, list, bound) != [] && Preorders(kids, rank, list, bound)[0] == list[0]
  {
    assert Preorder(kids, rank, list[0])[0] == list[0];
  }

  /** The child `k` comes right after the head up to it. */
  lemma ChildPlace<N>(kids: map<N, seq<N>>, rank: map<N, nat>, p: N, k: nat)
    requires Ranked(kids, rank) && p in kids && k < |kids[p]|
    ensures var i := |Head(kids, rank, p, k)|;
            i < |Preorder(kids, rank, p)| && Preorder(kids, rank, p)[i] == kids[p][k]
    ensures kids[p][k] in kids && (kids[kids[p][k]] == [] ==> |Head(kids, rank, p, k + 1)| == |Head(kids, rank, p, k)| + 1)
  {
    HeadAndTail(kids, rank, p, k);
    var c := kids[p][k];
    assert c in kids[p];
    FirstListed(kids, rank, kids[p][k..], rank[p]);
    if kids[c] == [] {
      assert kids[p][..k + 1] == kids[p][..k] + [c];
      PreordersConcat(kids, rank, kids[p][..k], [c], rank[p]);
      LeafAlone(kids, rank, c, rank[p]);
    }
  }

  lemma LeafAlone<N>(kids: map<N, seq<N>>, rank: map<N, nat>, x: N, bound: nat)
    requires Ranked(kids, rank) && x in kids && kids[x] == [] && rank[x] < bound
    ensures Preorders(kids, rank, [x], bound) == [x]
  {
    assert [x][1..] == [];
    assert Preorders(kids, rank, [], bound) == [] && Preorders(kids, rank, [], rank[x]) == [];
    assert Preorder(kids, rank, x) == [x];
  }

  /** Nothing below the children of `p` is `p`. */
  lemma BelowChildren<N>(kids: map<N, seq<N>>, rank: map<N, nat>, p: N, list: seq<N>, n: N)
    requires Ranked(kids, rank) && p in kids && forall c :: c in list ==> c in kids[p]
    requires n in Preorders(kids, rank, list, rank[p])
    ensures n in kids && n != p
  {
    PreordersMembers(kids, rank, list, rank[p], n);
    var c :| c in list && InSubtree(kids, rank, c, n);
    SubtreeRank(kids, rank, c, n);
  }

  /** A part of the children reads the same once a new leaf hangs elsewhere among them. */
  lemma PartStays<N>(kids: map<N, seq<N>>, rank: map<N, nat>, kids': map<N, seq<N>>, rank': map<N, nat>, p: N, x: N,
                     list: seq<N>)
    requires Ranked(kids, rank) && Ranked(kids', rank') && p in kids && x !in kids && p in kids'
    requires forall n :: n in kids && n != p ==> n in kids' && kids'[n] == kids[n]
    requires forall c :: c in list ==> c in kids[p] && c in kids'[p]
    ensures Preorders(kids', rank', list, rank'[p]) == Preorders(kids, rank, list, rank[p])
  {
    forall n | n in Preorders(kids, rank, list, rank[p]) ensures n in kids && n != p {
      BelowChildren(kids, rank, p, list, n);
    }
    PreordersFrame(kids, rank, kids', rank', list, rank[p], rank'[p]);
  }

  /** A new leaf among the children of `p` comes between the head and the tail at its place. */
  lemma LeafInserted<N>(kids: map<N, seq<N>>, rank: map<N, nat>, kids': map<N, seq<N>>, rank': map<N, nat>, p: N, x: N, k: nat)
    requires Ranked(kids, rank) && Ranked(kids', rank') && p in kids && x !in kids && k <= |kids[p]|
    requires kids' == kids[x := []][p := InsertAt(kids[p], k, x)]
    ensures Preorder(kids', rank', p) == Head(kids, rank, p, k) + [x] + Tail(kids, rank, p, k)
  {
    hide Preorders;
    var before, after := kids[p][..k], kids[p][k..];
    var list' := before + [x] + after;
    assert list' == kids'[p];
    assert forall c :: c in before || c in after || c == x <==> c in list';
    PartStays(kids, rank, kids', rank', p, x, before);
    PartStays(kids, rank, kids', rank', p, x, after);
    PreordersConcat(kids', rank', before + [x], after, rank'[p]);
    PreordersConcat(kids', rank', before, [x], rank'[p]);
    LeafAlone(kids', rank', x, rank'[p]);
  }
}
