/** Tree construction: the operations through which the HTML parser builds the tree. */
module DomSink {
  import opened Wrappers
  import opened Rows
  import opened OrderedForest
  import opened TreeOrder
  import opened DomTree
  import opened DomIter

  /** The lists of children while the first `i` children `moving` of `node` have gone to `newParent`. */
  ghost predicate MovedLists(s: Shape<Node>, t: Shape<Node>, node: Node, newParent: Node, moving: seq<Node>, i: nat)
    requires i <= |moving|
  {
    && s.kids.Keys == t.kids.Keys && node in s.kids && newParent in s.kids
    && (if newParent == node then t.kids[node] == moving[i..] + moving[..i]
        else t.kids[node] == moving[i..] && t.kids[newParent] == s.kids[newParent] + moving[..i])
    && (forall q :: q in s.kids && q != node && q != newParent ==> t.kids[q] == s.kids[q])
  }

  ghost predicate MovedParents(s: Shape<Node>, t: Shape<Node>, newParent: Node, moved: seq<Node>) {
    && s.parent.Keys == t.parent.Keys
    && (forall n :: n in s.parent ==> t.parent[n] == if n in moved then Some(newParent) else s.parent[n])
  }

  ghost predicate Moved(s: Shape<Node>, t: Shape<Node>, node: Node, newParent: Node, moving: seq<Node>, i: nat)
    requires i <= |moving|
  {
    && s.kids.Keys == s.parent.Keys
    && MovedLists(s, t, node, newParent, moving, i)
    && MovedParents(s, t, newParent, moving[..i])
  }

  lemma MovedNone(s: Shape<Node>, node: Node, newParent: Node)
    requires Has(s, node) && Has(s, newParent)
    ensures Moved(s, s, node, newParent, s.kids[node], 0)
  {
  }

  lemma MovedRun(s: Shape<Node>, t: Shape<Node>, node: Node, newParent: Node, moving: seq<Node>, i: nat)
    requires i <= |moving| && Moved(s, t, node, newParent, moving, i) && Has(t, node)
    ensures IsRun(t, moving[i..])
  {
    hide WellFormed;
    RunPrefix(t, node, moving[i..]);
  }

  /** What moving the first child `x` of `node` changes at `q`. */
  ghost predicate MovedAt(t: Shape<Node>, u: Shape<Node>, node: Node, newParent: Node, x: Node, q: Node) {
    && u.kids.Keys == u.parent.Keys == t.kids.Keys == t.parent.Keys && q in t.kids
    && (q == node ==> t.kids[q] != [])
    && u.kids[q] == (if q == node then t.kids[q][1..] else t.kids[q]) + (if q == newParent then [x] else [])
    && u.parent[q] == (if q == x then Some(newParent) else t.parent[q])
  }

  lemma FirstMoved(t: Shape<Node>, node: Node, newParent: Node, x: Node, q: Node)
    requires Has(t, node) && Has(t, q) && Has(t, newParent) && node in t.kids && t.kids[node] != [] && x == t.kids[node][0]
    ensures MovedAt(t, Appended(t, newParent, x), node, newParent, x, q)
  {
    WellFormedAt(t, node);
    hide WellFormed, Appended;
    KidsDomain(t);
    assert x in t.kids[node];
    RemoveHead(t.kids[node]);
    AppendedKids(t, newParent, x, q);
    RemoveAbsent(t, x, q);
  }

  /** Appending the first child still to move keeps `Moved`. */
  lemma MovedOne(s: Shape<Node>, t: Shape<Node>, node: Node, newParent: Node, moving: seq<Node>, i: nat)
    requires Has(t, node) && Has(t, newParent) && i < |moving| && Moved(s, t, node, newParent, moving, i)
    ensures Moved(s, Appended(t, newParent, moving[i]), node, newParent, moving, i + 1)
  {
    hide WellFormed, Appended;
    var x, u := moving[i], Appended(t, newParent, moving[i]);
    KidsDomain(t);
    assert t.kids[node][0] == x;
    forall q | q in t.kids ensures MovedAt(t, u, node, newParent, x, q) {
      FirstMoved(t, node, newParent, x, q);
    }
    assert MovedAt(t, u, node, newParent, x, node);
    hide MovedLists, MovedParents, MovedAt;
    OneMoreList(s, t, u, node, newParent, moving, i);
    OneMoreParent(s, t, u, node, newParent, moving, i);
  }

  lemma OneMoreList(s: Shape<Node>, t: Shape<Node>, u: Shape<Node>, node: Node, newParent: Node, moving: seq<Node>, i: nat)
    requires i < |moving| && MovedLists(s, t, node, newParent, moving, i)
    requires forall q :: q in t.kids ==> MovedAt(t, u, node, newParent, moving[i], q)
    ensures MovedLists(s, u, node, newParent, moving, i + 1)
  {
    assert MovedAt(t, u, node, newParent, moving[i], node) && MovedAt(t, u, node, newParent, moving[i], newParent);
    assert moving[..i + 1] == moving[..i] + [moving[i]];
    assert moving[i..][1..] == moving[i + 1..];
    if newParent == node {
      assert (moving[i..] + moving[..i])[1..] == moving[i + 1..] + moving[..i];
    }
  }

  lemma OneMoreParent(s: Shape<Node>, t: Shape<Node>, u: Shape<Node>, node: Node, newParent: Node, moving: seq<Node>, i: nat)
    requires i < |moving| && MovedParents(s, t, newParent, moving[..i]) && s.parent.Keys == t.kids.Keys && node in t.kids
    requires forall q :: q in t.kids ==> MovedAt(t, u, node, newParent, moving[i], q)
    ensures MovedParents(s, u, newParent, moving[..i + 1])
  {
    assert MovedAt(t, u, node, newParent, moving[i], node);
    assert moving[..i + 1] == moving[..i] + [moving[i]];
    forall n | n in s.parent ensures u.parent[n] == if n in moving[..i + 1] then Some(newParent) else s.parent[n] {
      assert MovedAt(t, u, node, newParent, moving[i], n);
    }
  }

  /** A prefix of a list of children can be iterated. */
  lemma RunPrefix(s: Shape<Node>, x: Node, run: seq<Node>)
    requires Has(s, x) && run <= s.kids[x]
    ensures IsRun(s, run)
  {
    KidsAreARun(s, x);
    hide WellFormed, LinksOf;
    assert forall i :: 0 <= i < |run| ==> run[i] == s.kids[x][i];
  }

  lemma StillOutside(s: Shape<Node>, rank: map<Node, nat>, t: Shape<Node>, rank': map<Node, nat>, p: Node, x: Node, a: Node)
    requires Has(s, p) && Has(s, x) && Ranked(s.kids, rank) && a in s.kids && !InSubtree(s.kids, rank, a, p)
    requires t == Appended(s, p, x) && Ranked(t.kids, rank') && a in t.kids
    ensures !InSubtree(t.kids, rank', a, p)
  {
    if InSubtree(t.kids, rank', a, p) {
      AppendedAncestors(s, rank, rank', p, x, a);
    }
  }

  /** One turn of the loop: the iterator has let go of `child` before it is moved. */
  method MoveChild(child: Node, newParent: Node, dom: Dom, ghost rest: seq<Node>)
    requires dom.Valid() && child in dom.nodes && newParent in dom.nodes && !dom.Contains(child, newParent)
    requires forall c :: c in rest ==> c in dom.nodes && !dom.Contains(c, newParent)
    modifies dom, dom.nodes`parent, dom.nodes`previousSibling, dom.nodes`nextSibling, dom.nodes`firstChild, dom.nodes`lastChild
    ensures dom.Valid() && dom.nodes == old(dom.nodes)
    ensures dom.shape == Appended(old(dom.shape), newParent, child)
    ensures forall c :: c in rest ==> c in dom.nodes && !dom.Contains(c, newParent)
  {
    hide WellFormed, Ranked, Appended, InSubtree, LinksOf;
    ghost var s, rank := dom.shape, dom.rank;
    dom.Domain();
    dom.NotAround(child, newParent);
    dom.Append(newParent, child);
    dom.Domain();
    forall c | c in rest ensures !dom.Contains(c, newParent) {
      StillOutside(s, rank, dom.shape, dom.rank, newParent, child, c);
    }
  }

  /** The state of the loop once `i` of the children `moving` of `node` have been moved. */
  ghost predicate Midway(dom: Dom, children: Siblings, s: Shape<Node>,
                         node: Node, newParent: Node, moving: seq<Node>, i: nat)
    reads dom, dom.nodes, children
  {
    && children.Valid(dom)
    && newParent in dom.nodes && node in dom.nodes
    && i <= |moving| && children.left == moving[i..]
    && Moved(s, dom.shape, node, newParent, moving, i)
    && (forall c :: c in moving[i..] ==> c in dom.nodes && !dom.Contains(c, newParent))
  }

  /** One turn of the loop. */
  method MoveNext(children: Siblings, newParent: Node, dom: Dom,
                  ghost s: Shape<Node>, ghost node: Node, ghost moving: seq<Node>, ghost i: nat)
    returns (more: bool)
    requires Midway(dom, children, s, node, newParent, moving, i)
    modifies children, dom, dom.nodes`parent, dom.nodes`previousSibling, dom.nodes`nextSibling, dom.nodes`firstChild, dom.nodes`lastChild
    ensures dom.nodes == old(dom.nodes)
    ensures more == (i < |moving|)
    ensures Midway(dom, children, s, node, newParent, moving, if more then i + 1 else i)
  {
    hide WellFormed, Ranked, Appended, LinksOf, IsRun, Moved, Dom.Contains;
    var child := children.Next(dom);
    if child.None? { return false; }
    assert child.value == moving[i] && moving[i..] == [moving[i]] + moving[i + 1..];
    ghost var t := dom.shape;
    MoveChild(child.value, newParent, dom, moving[i + 1..]);
    dom.Domain();
    MovedOne(s, t, node, newParent, moving, i);
    MovedRun(s, dom.shape, node, newParent, moving, i + 1);
    more := true;
  }

  method ReparentChildren(node: Node, newParent: Node, dom: Dom)
    requires dom.Valid() && node in dom.nodes && newParent in dom.nodes
    requires forall c :: c in dom.shape.kids[node] ==> !dom.Contains(c, newParent)
    modifies dom, dom.nodes`parent, dom.nodes`previousSibling, dom.nodes`nextSibling, dom.nodes`firstChild, dom.nodes`lastChild
    ensures dom.Valid() && dom.nodes == old(dom.nodes)
    ensures Moved(old(dom.shape), dom.shape, node, newParent, old(dom.shape.kids[node]), |old(dom.shape.kids[node])|)
  {
    hide WellFormed, Ranked, LinksOf, IsRun, Moved, Dom.Contains;
    dom.Domain();
    KidsAreARow(dom.shape, node);
    var children := new Siblings.Children(node, dom);
    ghost var s, moving, i := dom.shape, dom.shape.kids[node], 0;
    MovedNone(s, node, newParent);
    var more := true;
    while more
      invariant dom.nodes == old(dom.nodes)
      invariant Midway(dom, children, s, node, newParent, moving, i)
      invariant !more ==> i == |moving|
      decreases |moving| - i, more
    {
      more := MoveNext(children, newParent, dom, s, node, moving, i);
      i := if more then i + 1 else i;
    }
  }
}
