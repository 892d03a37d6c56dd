/**
  The mutable DOM tree: nodes with five links, and the operations that splice them.

  The methods of `Node` are the operations on links. The methods of `Dom` say what they mean for
  the ordered forest that the links describe. A `Weak` reference is taken to be upgradable: the
  program holds the nodes it works on. The library's debug assertions appear as `assert`.
 */
module DomTree {
  import opened Wrappers
  import opened OrderedForest

  datatype Kind = Element | Text | Comment | ProcessingInstruction | Doctype | Document | DocumentFragment

  class Node {
    var parent: Option<Node>
    var previousSibling: Option<Node>
    var nextSibling: Option<Node>
    var firstChild: Option<Node>
    var lastChild: Option<Node>
    const kind: Kind
    var text: string

    constructor (kind: Kind, text: string)
      ensures this.kind == kind && this.text == text
      ensures View() == Links(None, None, None, None, None)
    {
      parent, previousSibling, nextSibling, firstChild, lastChild := None, None, None, None, None;
      this.kind, this.text := kind, text;
    }

    ghost function View(): Links<Node>
      reads this
    {
      Links(parent, previousSibling, nextSibling, firstChild, lastChild)
    }

    /** The links of `n` once `x` is detached. */
    static ghost function Unlinked(x: Node, n: Node): Links<Node>
      reads x, n
    {
      Unlink(x, x.View(), n, n.View())
    }

    /** The upward and sideways links of this node lead to other members of `nodes`. */
    ghost predicate LinkedWithin(nodes: set<Node>)
      reads this
    {
      && this in nodes
      && (parent.Some? ==> parent.value in nodes && parent.value != this)
      && (previousSibling.Some? ==> previousSibling.value in nodes && previousSibling.value != this)
      && (nextSibling.Some? ==> nextSibling.value in nodes && nextSibling.value != this)
    }

    /** Once `x` is detached, the children of this node begin and end where its links say. */
    ghost predicate WelcomesChild(x: Node, nodes: set<Node>)
      reads this, x, nodes
    {
      && this in nodes && this != x && x.LinkedWithin(nodes)
      && var l := Unlinked(x, this);
      && (l.first == None <==> l.last == None)
      && (l.first.Some? ==>
            l.first.value in nodes && l.first.value != x && Unlinked(x, l.first.value).prev == None)
      && (l.last.Some? ==>
            l.last.value in nodes && l.last.value != x && Unlinked(x, l.last.value).next == None)
    }

    /** Once `x` is detached, the links around this node mirror each other. */
    ghost predicate WelcomesSibling(x: Node, nodes: set<Node>)
      reads this, x, nodes
    {
      && this in nodes && this != x && x.LinkedWithin(nodes)
      && var l := Unlinked(x, this);
      && (l.prev.Some? ==>
            l.prev.value in nodes - {x, this} && Unlinked(x, l.prev.value).next == Some(this))
      && (l.next.Some? ==>
            l.next.value in nodes - {x, this} && Unlinked(x, l.next.value).prev == Some(this))
      && (l.parent.Some? ==>
            && l.parent.value in nodes - {x, this}
            && (l.prev == None ==> Unlinked(x, l.parent.value).first == Some(this))
            && (l.next == None ==> Unlinked(x, l.parent.value).last == Some(this)))
    }

    method Detach(ghost nodes: set<Node>)
      requires LinkedWithin(nodes)
      modifies nodes`parent, nodes`previousSibling, nodes`nextSibling, nodes`firstChild, nodes`lastChild
      ensures forall n :: n in nodes ==> n.View() == old(Unlinked(this, n))
    {
      var parentWeak, previousSiblingWeak, nextSiblingStrong := parent, previousSibling, nextSibling;
      parent, previousSibling, nextSibling := None, None, None;

      if nextSiblingStrong.Some? {
        nextSiblingStrong.value.previousSibling := previousSiblingWeak;
      } else if parentWeak.Some? {
        parentWeak.value.lastChild := previousSiblingWeak;
      }

      if previousSiblingWeak.Some? {
        previousSiblingWeak.value.nextSibling := nextSiblingStrong;
      } else if parentWeak.Some? {
        parentWeak.value.firstChild := nextSiblingStrong;
      }
    }

    method Append(newChild: Node, ghost nodes: set<Node>)
      requires WelcomesChild(newChild, nodes)
      modifies nodes`parent, nodes`previousSibling, nodes`nextSibling, nodes`firstChild, nodes`lastChild
      ensures forall n :: n in nodes ==>
                            n.View() == Relink(newChild, Some(this), old(Unlinked(newChild, this)).last, None, n, old(Unlinked(newChild, n)))
    {
      newChild.Detach(nodes);
      newChild.parent := Some(this);
      var lastChildWeak := lastChild;
      lastChild := Some(newChild);
      if lastChildWeak.Some? {
        newChild.previousSibling := lastChildWeak;
        assert lastChildWeak.value.nextSibling.None?;
        lastChildWeak.value.nextSibling := Some(newChild);
        return;
      }
      assert firstChild.None?;
      firstChild := Some(newChild);
    }

    method Prepend(newChild: Node, ghost nodes: set<Node>)
      requires WelcomesChild(newChild, nodes)
      modifies nodes`parent, nodes`previousSibling, nodes`nextSibling, nodes`firstChild, nodes`lastChild
      ensures forall n :: n in nodes ==>
                            n.View() == Relink(newChild, Some(this), None, old(Unlinked(newChild, this)).first, n, old(Unlinked(newChild, n)))
    {
      newChild.Detach(nodes);
      newChild.parent := Some(this);
      var first := firstChild;
      firstChild := None;
      if first.Some? {
        assert first.value.previousSibling.None?;
        first.value.previousSibling := Some(newChild);
        newChild.nextSibling := first;
      } else {
        assert firstChild.None?;
        lastChild := Some(newChild);
      }
      firstChild := Some(newChild);
    }

    method InsertAfter(newSibling: Node, ghost nodes: set<Node>)
      requires WelcomesSibling(newSibling, nodes)
      modifies nodes`parent, nodes`previousSibling, nodes`nextSibling, nodes`firstChild, nodes`lastChild
      ensures forall n :: n in nodes ==>
                            n.View() == Relink(newSibling, old(Unlinked(newSibling, this)).parent, Some(this), old(Unlinked(newSibling, this)).next, n, old(Unlinked(newSibling, n)))
    {
      newSibling.Detach(nodes);
      newSibling.parent := parent;
      newSibling.previousSibling := Some(this);
      var next := nextSibling;
      nextSibling := None;
      if next.Some? {
        assert next.value.previousSibling == Some(this);
        next.value.previousSibling := Some(newSibling);
        newSibling.nextSibling := next;
      } else if parent.Some? {
        assert parent.value.lastChild == Some(this);
        parent.value.lastChild := Some(newSibling);
      }
      nextSibling := Some(newSibling);
    }

    method InsertBefore(newSibling: Node, ghost nodes: set<Node>)
      requires WelcomesSibling(newSibling, nodes)
      modifies nodes`parent, nodes`previousSibling, nodes`nextSibling, nodes`firstChild, nodes`lastChild
      ensures forall n :: n in nodes ==>
                            n.View() == Relink(newSibling, old(Unlinked(newSibling, this)).parent, old(Unlinked(newSibling, this)).prev, Some(this), n, old(Unlinked(newSibling, n)))
    {
      newSibling.Detach(nodes);
      newSibling.parent := parent;
      newSibling.nextSibling := Some(this);
      var previousSiblingWeak := previousSibling;
      previousSibling := Some(newSibling);
      if previousSiblingWeak.Some? {
        newSibling.previousSibling := previousSiblingWeak;
        assert previousSiblingWeak.value.nextSibling == Some(this);
        previousSiblingWeak.value.nextSibling := Some(newSibling);
        return;
      }
      if parent.Some? {
        assert parent.value.firstChild == Some(this);
        parent.value.firstChild := Some(newSibling);
      }
    }
  }

  /** The nodes a program works on, with the forest that their links describe. */
  class Dom {
    ghost var nodes: set<Node>
    ghost var shape: Shape<Node>
    ghost var rank: map<Node, nat>

    /** The five links of every node are those of `shape`. */
    ghost predicate Linked()
      reads this, nodes
    {
      && WellFormed(shape)
      && shape.row.Keys == nodes
      && (forall n :: n in nodes ==> n.View() == LinksOf(shape, n))
    }

    /** The links describe a forest: no node is its own ancestor. */
    ghost predicate Valid()
      reads this, nodes
    {
      Linked() && Ranked(shape.kids, rank)
    }

    lemma Domain()
      requires Valid()
      ensures nodes == shape.parent.Keys == shape.row.Keys == shape.kids.Keys == rank.Keys
    {
    }

    /** `n` is `a` or one of its descendants. */
    ghost predicate Contains(a: Node, n: Node)
      requires Valid() && a in nodes
      reads this, nodes
    {
      InSubtree(shape.kids, rank, a, n)
    }

    lemma NotAround(a: Node, n: Node)
      requires Valid() && a in nodes && n in nodes && !Contains(a, n)
      ensures a != n && n in shape.parent && shape.parent[n] != Some(a)
    {
      WellFormedAt(shape, n);
      assert InSubtree(shape.kids, rank, n, n);
    }

    constructor ()
      ensures Valid() && nodes == {} && shape == Shape(map[], map[], map[])
    {
      nodes, shape, rank := {}, Shape(map[], map[], map[]), map[];
    }

    method Detach(x: Node)
      requires Valid() && x in nodes
      modifies this, nodes`parent, nodes`previousSibling, nodes`nextSibling, nodes`firstChild, nodes`lastChild
      ensures Valid() && nodes == old(nodes) && rank == old(rank)
      ensures shape == Detached(old(shape), x)
    {
      hide WellFormed, Ranked, LinksOf, Detached, Node.Unlinked;
      DetachedView(x);
      ghost var t := Detached(shape, x);
      x.Detach(nodes);
      shape := t;
    }

    lemma DetachedView(x: Node)
      requires Valid() && x in nodes
      ensures x.LinkedWithin(nodes) && WellFormed(Detached(shape, x)) && Ranked(Detached(shape, x).kids, rank)
      ensures nodes == shape.parent.Keys == rank.Keys == Detached(shape, x).row.Keys
      ensures forall n :: n in nodes ==> Node.Unlinked(x, n) == LinksOf(Detached(shape, x), n)
      ensures var l := LinksOf(Detached(shape, x), x); l.parent == l.prev == l.next == None
      ensures forall n :: n in nodes && n != x ==> LinksOf(Detached(shape, x), n).parent == shape.parent[n]
    {
      hide WellFormed, Ranked, LinksOf, Detached, Unlink;
      LinkTargets(shape, rank, x);
      DetachedForest(shape, rank, x);
    }

    /** Detaching `x` leaves the links around `a` ready for `x` to join its children, or its row. */
    lemma PreparedChild(a: Node, x: Node)
      requires Valid() && a in nodes && x in nodes && a != x
      ensures a.WelcomesChild(x, nodes) && WellFormed(Detached(shape, x))
      ensures nodes == shape.parent.Keys == rank.Keys == Detached(shape, x).row.Keys
      ensures forall n :: n in nodes ==> Node.Unlinked(x, n) == LinksOf(Detached(shape, x), n)
    {
      hide WellFormed, Ranked, LinksOf, Detached, Unlink, Node.Unlinked;
      DetachedView(x);
      NeighbourLinks(Detached(shape, x), rank, a);
    }

    lemma PreparedSibling(a: Node, x: Node)
      requires Valid() && a in nodes && x in nodes && a != x && shape.parent[a] != Some(x)
      ensures a.WelcomesSibling(x, nodes)
      ensures nodes == shape.parent.Keys == rank.Keys == Detached(shape, x).row.Keys
      ensures WellFormed(Detached(shape, x)) && LinksOf(Detached(shape, x), a).parent == shape.parent[a]
      ensures forall n :: n in nodes ==> Node.Unlinked(x, n) == LinksOf(Detached(shape, x), n)
    {
      hide WellFormed, Ranked, LinksOf, Detached, Unlink, Node.Unlinked;
      DetachedView(x);
      NeighbourLinks(Detached(shape, x), rank, a);
    }

    lemma AppendedView(p: Node, x: Node) returns (t: Shape<Node>, r: map<Node, nat>)
      requires Valid() && p in nodes && x in nodes && p != x
      ensures p.WelcomesChild(x, nodes) && t == Appended(shape, p, x) && WellFormed(t) && t.row.Keys == nodes
      ensures Ranked(t.kids, r) <==> !Contains(x, p)
      ensures forall n :: n in nodes ==> LinksOf(t, n) == Relink(x, Some(p), Node.Unlinked(x, p).last, None, n, Node.Unlinked(x, n))
    {
      hide WellFormed, Ranked, InSubtree, LinksOf, Detached, Appended, Unlink, Relink, PlacedRank, Node.WelcomesChild, Node.Unlinked;
      PreparedChild(p, x);
      AppendedForest(shape, rank, p, x);
      t, r := Appended(shape, p, x), rank;
      if Contains(x, p) {
        AppendedCyclic(shape, rank, p, x, r);
      } else {
        r := PlacedRank(Detached(shape, x), rank, x, Some(p));
      }
    }

    /** The links become those of the shape with `x` after the last child of `p`, and still describe a forest exactly
        when `x` does not contain `p`. */
    method Append(p: Node, x: Node)
      requires Valid() && p in nodes && x in nodes && p != x
      modifies this, nodes`parent, nodes`previousSibling, nodes`nextSibling, nodes`firstChild, nodes`lastChild
      ensures Linked() && nodes == old(nodes) && shape == Appended(old(shape), p, x)
      ensures Valid() <==> !old(Contains(x, p))
    {
      hide WellFormed, Ranked, InSubtree, LinksOf, Appended, Relink, Node.WelcomesChild, Node.Unlinked;
      ghost var t, r := AppendedView(p, x);
      p.Append(x, nodes);
      shape, rank := t, r;
    }

    lemma PrependedView(p: Node, x: Node) returns (t: Shape<Node>, r: map<Node, nat>)
      requires Valid() && p in nodes && x in nodes && p != x
      ensures p.WelcomesChild(x, nodes) && t == Prepended(shape, p, x) && WellFormed(t) && t.row.Keys == nodes
      ensures Ranked(t.kids, r) <==> !Contains(x, p)
      ensures forall n :: n in nodes ==> LinksOf(t, n) == Relink(x, Some(p), None, Node.Unlinked(x, p).first, n, Node.Unlinked(x, n))
    {
      hide WellFormed, Ranked, InSubtree, LinksOf, Detached, Prepended, Unlink, Relink, PlacedRank, Node.WelcomesChild, Node.Unlinked;
      PreparedChild(p, x);
      PrependedForest(shape, rank, p, x);
      t, r := Prepended(shape, p, x), rank;
      if Contains(x, p) {
        PrependedCyclic(shape, rank, p, x, r);
      } else {
        r := PlacedRank(Detached(shape, x), rank, x, Some(p));
      }
    }

    method Prepend(p: Node, x: Node)
      requires Valid() && p in nodes && x in nodes && p != x
      modifies this, nodes`parent, nodes`previousSibling, nodes`nextSibling, nodes`firstChild, nodes`lastChild
      ensures Linked() && nodes == old(nodes) && shape == Prepended(old(shape), p, x)
      ensures Valid() <==> !old(Contains(x, p))
    {
      hide WellFormed, Ranked, InSubtree, LinksOf, Prepended, Relink, Node.WelcomesChild, Node.Unlinked;
      ghost var t, r := PrependedView(p, x);
      p.Prepend(x, nodes);
      shape, rank := t, r;
    }

    lemma InsertedAfterView(a: Node, x: Node) returns (t: Shape<Node>, r: map<Node, nat>)
      requires Valid() && a in nodes && x in nodes && a != x && shape.parent[a] != Some(x)
      ensures a.WelcomesSibling(x, nodes) && t == InsertedAfter(shape, a, x) && WellFormed(t) && t.row.Keys == nodes
      ensures Ranked(t.kids, r) <==> !Contains(x, a)
      ensures forall n :: n in nodes ==> LinksOf(t, n) == Relink(x, Node.Unlinked(x, a).parent, Some(a), Node.Unlinked(x, a).next, n, Node.Unlinked(x, n))
    {
      hide WellFormed, Ranked, InSubtree, LinksOf, Detached, InsertedAfter, Unlink, Relink, PlacedRank, Node.WelcomesSibling, Node.Unlinked;
      PreparedSibling(a, x);
      InsertedAfterForest(shape, rank, a, x);
      t, r := InsertedAfter(shape, a, x), rank;
      if Contains(x, a) {
        InsertedAfterCyclic(shape, rank, a, x, r);
      } else {
        r := PlacedRank(Detached(shape, x), rank, x, shape.parent[a]);
      }
    }

    method InsertAfter(a: Node, x: Node)
      requires Valid() && a in nodes && x in nodes && a != x && shape.parent[a] != Some(x)
      modifies this, nodes`parent, nodes`previousSibling, nodes`nextSibling, nodes`firstChild, nodes`lastChild
      ensures Linked() && nodes == old(nodes) && shape == InsertedAfter(old(shape), a, x)
      ensures Valid() <==> !old(Contains(x, a))
    {
      hide WellFormed, Ranked, InSubtree, LinksOf, InsertedAfter, Relink, Node.WelcomesSibling, Node.Unlinked;
      ghost var t, r := InsertedAfterView(a, x);
      a.InsertAfter(x, nodes);
      shape, rank := t, r;
    }

    lemma InsertedBeforeView(a: Node, x: Node) returns (t: Shape<Node>, r: map<Node, nat>)
      requires Valid() && a in nodes && x in nodes && a != x && shape.parent[a] != Some(x)
      ensures a.WelcomesSibling(x, nodes) && t == InsertedBefore(shape, a, x) && WellFormed(t) && t.row.Keys == nodes
      ensures Ranked(t.kids, r) <==> !Contains(x, a)
      ensures forall n :: n in nodes ==> LinksOf(t, n) == Relink(x, Node.Unlinked(x, a).parent, Node.Unlinked(x, a).prev, Some(a), n, Node.Unlinked(x, n))
    {
      hide WellFormed, Ranked, InSubtree, LinksOf, Detached, InsertedBefore, Unlink, Relink, PlacedRank, Node.WelcomesSibling, Node.Unlinked;
      PreparedSibling(a, x);
      InsertedBeforeForest(shape, rank, a, x);
      t, r := InsertedBefore(shape, a, x), rank;
      if Contains(x, a) {
        InsertedBeforeCyclic(shape, rank, a, x, r);
      } else {
        r := PlacedRank(Detached(shape, x), rank, x, shape.parent[a]);
      }
    }

    method InsertBefore(a: Node, x: Node)
      requires Valid() && a in nodes && x in nodes && a != x && shape.parent[a] != Some(x)
      modifies this, nodes`parent, nodes`previousSibling, nodes`nextSibling, nodes`firstChild, nodes`lastChild
      ensures Linked() && nodes == old(nodes) && shape == InsertedBefore(old(shape), a, x)
      ensures Valid() <==> !old(Contains(x, a))
    {
      hide WellFormed, Ranked, InSubtree, LinksOf, InsertedBefore, Relink, Node.WelcomesSibling, Node.Unlinked;
      ghost var t, r := InsertedBeforeView(a, x);
      a.InsertBefore(x, nodes);
      shape, rank := t, r;
    }

    /** A new node belongs to no row but its own. */
    method NewNode(kind: Kind, text: string) returns (x: Node)
      requires Valid()
      modifies this
      ensures fresh(x) && x.kind == kind && x.text == text
      ensures Valid() && nodes == old(nodes) + {x}
      ensures shape == Grown(old(shape), x)
      ensures rank == old(rank)[x := 0]
    {
      x := new Node(kind, text);
      hide WellFormed, Ranked, LinksOf, Grown;
      GrownForest(shape, rank, x);
      nodes, shape, rank := nodes + {x}, Grown(shape, x), rank[x := 0];
    }
  }
}
