/** Text: what a subtree reads as, and how the parser adds text to it. */
module DomText {
  import opened Wrappers
  import opened Rows
  import opened OrderedForest
  import opened TreeOrder
  import opened DomTree
  import opened DomIter

  ghost function TextOf(n: Node): string
    reads n`text
  {
    if n.kind.Text? then n.text else ""
  }

  /** The text of the text nodes in `list`, one after the other. */
  ghost function Texts(list: seq<Node>): string
    reads list`text
  {
    if list == [] then "" else Texts(list[..|list| - 1]) + TextOf(list[|list| - 1])
  }

  lemma TextsNone(list: seq<Node>)
    ensures Texts(list[..0]) == ""
  {
  }

  lemma TextsNext(list: seq<Node>, k: nat)
    requires k < |list|
    ensures Texts(list[..k + 1]) == Texts(list[..k]) + TextOf(list[k])
  {
    assert list[..k + 1][..k] == list[..k];
  }

  lemma TextsLast(list: seq<Node>, x: Node)
    ensures Texts(list + [x]) == Texts(list) + TextOf(x)
  {
    assert (list + [x])[..|list|] == list;
  }

  /** The nodes of the subtree at `x` in tree order. */
  ghost function TreeOrderOf(dom: Dom, x: Node): seq<Node>
    requires dom.Valid() && x in dom.nodes
    reads dom, dom.nodes
  {
    Preorder(dom.shape.kids, dom.rank, x)
  }

  method TextContents(x: Node, ghost dom: Dom) returns (s: string)
    requires dom.Valid() && x in dom.nodes
    ensures s == Texts(TreeOrderOf(dom, x))
  {
    hide WellFormed, IsWalk, Ranked, Tour, Starts, Preorder, LinksOf, Texts;
    s := "";
    var nodes := new Descendants.Inclusive(x, dom);
    ghost var all, k := nodes.Left(), 0;
    TextsNone(all);
    var node := nodes.Next(dom);
    while node.Some?
      invariant nodes.Valid(dom) && fresh(nodes.edges)
      invariant 0 <= k <= |all| && node == First(all[k..])
      invariant nodes.Left() == if k < |all| then all[k + 1..] else []
      invariant s == Texts(all[..k])
      decreases |all| - k
    {
      if node.value.kind.Text? {
        s := s + node.value.text;
      }
      TextsNext(all, k);
      ghost var done := Texts(all[..k + 1]);
      node := nodes.Next(dom);
      assert Texts(all[..k + 1]) == done;
      k := k + 1;
    }
    assert all[..k] == all;
  }

  lemma {:induction false} TextsConcat(a: seq<Node>, b: seq<Node>)
    ensures Texts(a + b) == Texts(a) + Texts(b)
  {
    if b == [] {
      assert a + b == a;
    } else {
      assert (a + b)[..|a + b| - 1] == a + b[..|b| - 1];
      TextsConcat(a, b[..|b| - 1]);
    }
  }

  lemma OrderWithin(dom: Dom, x: Node)
    requires dom.Valid() && x in dom.nodes
    ensures forall n :: n in TreeOrderOf(dom, x) ==> n in dom.nodes
  {
    forall n | n in TreeOrderOf(dom, x) ensures n in dom.nodes {
      PreorderMembers(dom.shape.kids, dom.rank, x, n);
      SubtreeRank(dom.shape.kids, dom.rank, x, n);
    }
  }

  /** Text nodes have no children, as in any document the parser builds. */
  ghost predicate TextLeaves(dom: Dom)
    requires dom.Valid()
    reads dom, dom.nodes
  {
    forall n :: n in dom.nodes && n.kind.Text? ==> n in dom.shape.kids && dom.shape.kids[n] == []
  }

  /** Where text added before the child `k` of `q` lands in tree order: right after the child before it if that is a
      text node, otherwise after everything below that child. */
  ghost function Landing(dom: Dom, q: Node, k: nat): (i: nat)
    requires dom.Valid() && q in dom.shape.kids && k <= |dom.shape.kids[q]|
    reads dom, dom.nodes
    ensures q in dom.nodes && i <= |TreeOrderOf(dom, q)|
  {
    dom.Domain();
    var kids, rank := dom.shape.kids, dom.rank;
    HeadAndTail(kids, rank, q, k);
    if k > 0 && kids[q][k - 1].kind.Text? then
      ChildPlace(kids, rank, q, k - 1);
      |Head(kids, rank, q, k - 1)| + 1
    else |Head(kids, rank, q, k)|
  }

  /** What `q` reads as, before and after the landing place. */
  ghost function ReadBefore(dom: Dom, q: Node, k: nat): string
    requires dom.Valid() && q in dom.shape.kids && k <= |dom.shape.kids[q]|
    reads dom, dom.nodes
  {
    Within(dom, q);
    Texts(TreeOrderOf(dom, q)[..Landing(dom, q, k)])
  }

  ghost function ReadAfter(dom: Dom, q: Node, k: nat): string
    requires dom.Valid() && q in dom.shape.kids && k <= |dom.shape.kids[q]|
    reads dom, dom.nodes
  {
    Within(dom, q);
    Texts(TreeOrderOf(dom, q)[Landing(dom, q, k)..])
  }

  ghost function ReadAs(dom: Dom, q: Node): string
    requires dom.Valid() && q in dom.nodes
    reads dom, dom.nodes
  {
    OrderWithin(dom, q);
    Texts(TreeOrderOf(dom, q))
  }

  lemma Within(dom: Dom, q: Node)
    requires dom.Valid() && q in dom.shape.kids
    ensures q in dom.nodes && forall n :: n in TreeOrderOf(dom, q) ==> n in dom.nodes
  {
    dom.Domain();
    OrderWithin(dom, q);
  }

  /** Where text nodes have no children, text added before the child `k` lands right before it. */
  lemma LandsBefore(dom: Dom, q: Node, k: nat)
    requires dom.Valid() && q in dom.shape.kids && k <= |dom.shape.kids[q]| && TextLeaves(dom)
    ensures Landing(dom, q, k) == |Head(dom.shape.kids, dom.rank, q, k)|
  {
    hide WellFormed, Preorder, Head;
    var list: seq<Node> := dom.shape.kids[q];
    if k > 0 && list[k - 1].kind.Text? {
      ChildPlace(dom.shape.kids, dom.rank, q, k - 1);
      dom.Domain();
    }
  }

  lemma LandsLast(dom: Dom, q: Node)
    requires dom.Valid() && q in dom.shape.kids && TextLeaves(dom)
    ensures Landing(dom, q, |dom.shape.kids[q]|) == |TreeOrderOf(dom, q)|
  {
    hide WellFormed, Landing;
    var k := |dom.shape.kids[q]|;
    LandsBefore(dom, q, k);
    assert dom.shape.kids[q][..k] == dom.shape.kids[q];
  }

  /** Together they are what `q` reads as. */
  lemma ReadTogether(dom: Dom, q: Node, k: nat)
    requires dom.Valid() && q in dom.shape.kids && k <= |dom.shape.kids[q]|
    ensures q in dom.nodes && ReadAs(dom, q) == ReadBefore(dom, q, k) + ReadAfter(dom, q, k)
  {
    hide WellFormed, Texts, Preorder, Landing;
    dom.Domain();
    TextsAround(TreeOrderOf(dom, q), Landing(dom, q, k));
  }

  /** The text around a place in a list. */
  lemma TextsAround(list: seq<Node>, i: nat)
    requires i <= |list|
    ensures Texts(list) == Texts(list[..i]) + Texts(list[i..])
  {
    assert list == list[..i] + list[i..];
    TextsConcat(list[..i], list[i..]);
  }

  /** The child before place `k` of `q`, a text node, in tree order. */
  lemma PreviousInOrder(dom: Dom, q: Node, k: nat)
    requires dom.Valid() && q in dom.shape.kids && 0 < k <= |dom.shape.kids[q]| && dom.shape.kids[q][k - 1].kind.Text?
    ensures var list, i, last := TreeOrderOf(dom, q), Landing(dom, q, k), dom.shape.kids[q][k - 1];
            0 < i <= |list| && list[i - 1] == last && last !in list[..i - 1] && last !in list[i..]
  {
    dom.Domain();
    ChildPlace(dom.shape.kids, dom.rank, q, k - 1);
    PreorderDistinct(dom.shape, dom.rank, q);
  }

  /** A new text node at place `k` among the children of `q`, in tree order. */
  lemma NewInOrder(kids: map<Node, seq<Node>>, rank: map<Node, nat>, dom: Dom, q: Node, x: Node, k: nat)
    requires Ranked(kids, rank) && q in kids && x !in kids && k <= |kids[q]|
    requires dom.Valid() && q in dom.nodes && dom.shape.kids == kids[x := []][q := InsertAt(kids[q], k, x)]
    ensures var list, i := Preorder(kids, rank, q), |Head(kids, rank, q, k)|;
            i <= |list| && TreeOrderOf(dom, q) == list[..i] + [x] + list[i..]
  {
    hide Preorder, Head, Tail;
    LeafInserted(kids, rank, dom.shape.kids, dom.rank, q, x, k);
    HeadAndTail(kids, rank, q, k);
  }

  lemma TextsWith(before: seq<Node>, x: Node, after: seq<Node>)
    ensures Texts(before + [x] + after) == Texts(before) + TextOf(x) + Texts(after)
  {
    TextsConcat(before + [x], after);
    TextsLast(before, x);
  }

  /** Extends the text node at place `i - 1` of `list`. */
  method Extend(last: Node, text: string, ghost list: seq<Node>, ghost i: nat)
    requires 0 < i <= |list| && list[i - 1] == last && last.kind.Text? && last !in list[..i - 1] && last !in list[i..]
    modifies last`text
    ensures last.text == old(last.text) + text
    ensures Texts(list) == old(Texts(list[..i])) + text + old(Texts(list[i..]))
  {
    hide Texts;
    TextsNext(list, i - 1);
    ghost var before, after := Texts(list[..i - 1]), Texts(list[i..]);
    last.text := last.text + text;
    assert Texts(list[..i - 1]) == before && Texts(list[i..]) == after;
    TextsNext(list, i - 1);
    TextsAround(list, i);
  }

  /** Hangs a new text node after the last child of `parent`. */
  method AppendNew(parent: Node, text: string, dom: Dom) returns (x: Node)
    requires dom.Valid() && parent in dom.nodes
    modifies dom, dom.nodes`parent, dom.nodes`previousSibling, dom.nodes`nextSibling, dom.nodes`firstChild, dom.nodes`lastChild
    ensures dom.Valid() && fresh(x) && x.kind == Text && x.text == text && dom.nodes == old(dom.nodes) + {x}
    ensures Has(Grown(old(dom.shape), x), parent) && dom.shape == Appended(Grown(old(dom.shape), x), parent, x)
    ensures dom.shape.kids == old(dom.shape.kids)[x := []][parent := old(dom.shape.kids[parent]) + [x]]
  {
    hide WellFormed, Ranked, LinksOf, Appended, Grown;
    RowHas(dom, parent);
    ghost var s := dom.shape;
    x := dom.NewNode(Text, text);
    RowHas(dom, parent);
    AppendedNew(s, parent, x);
    NewHoldsNothing(dom, x, parent);
    dom.Append(parent, x);
  }

  /** Puts a new text node right before `sibling`. */
  method InsertNew(sibling: Node, text: string, dom: Dom) returns (x: Node)
    requires dom.Valid() && sibling in dom.nodes
    modifies dom, dom.nodes`parent, dom.nodes`previousSibling, dom.nodes`nextSibling, dom.nodes`firstChild, dom.nodes`lastChild
    ensures dom.Valid() && fresh(x) && x.kind == Text && x.text == text && dom.nodes == old(dom.nodes) + {x}
    ensures Has(Grown(old(dom.shape), x), sibling) && Has(Grown(old(dom.shape), x), x)
    ensures dom.shape == InsertedBefore(Grown(old(dom.shape), x), sibling, x)
    ensures match old(dom.shape.parent[sibling])
            case Some(q) =>
              var list := old(dom.shape.row[sibling]);
              && q in old(dom.shape.kids) && old(dom.shape.kids)[q] == list && sibling in list
              && dom.shape.kids == old(dom.shape.kids)[x := []][q := InsertAt(list, IndexOf(list, sibling), x)]
            case None => true
  {
    hide WellFormed, Ranked, LinksOf, InsertedBefore, Grown, IndexOf, InsertAt;
    RowHas(dom, sibling);
    ghost var s := dom.shape;
    x := dom.NewNode(Text, text);
    RowHas(dom, sibling);
    RowHas(dom, x);
    InsertedNew(s, sibling, x);
    NewHoldsNothing(dom, x, sibling);
    dom.NotAround(x, sibling);
    dom.InsertBefore(sibling, x);
  }

  lemma RowHas(dom: Dom, a: Node)
    requires dom.Valid() && a in dom.nodes
    ensures a in dom.shape.row && a in dom.shape.parent && a in dom.shape.kids && Has(dom.shape, a)
    ensures a in dom.shape.row[a] && NoDup(dom.shape.row[a])
  {
    dom.Domain();
    assert RowOk(dom.shape, a);
  }

  lemma NewHoldsNothing(dom: Dom, x: Node, a: Node)
    requires dom.Valid() && x in dom.nodes && a != x && x in dom.shape.kids && dom.shape.kids[x] == []
    ensures !dom.Contains(x, a)
  {
  }

  lemma LastChildOf(dom: Dom, x: Node)
    requires dom.Valid() && x in dom.nodes
    ensures x in dom.shape.kids && x.lastChild == Last(dom.shape.kids[x])
    ensures x.lastChild.Some? ==> x.lastChild.value in dom.nodes
  {
    assert KidsOk(dom.shape, x);
  }

  /** The sibling before `a` stands before it in its row, which is the list of children of the parent, if any. */
  lemma PreviousOf(dom: Dom, a: Node)
    requires dom.Valid() && a in dom.nodes
    ensures a in dom.shape.row && a in dom.shape.row[a] && a in dom.shape.parent
    ensures var row, k := dom.shape.row[a], IndexOf(dom.shape.row[a], a);
            && a.previousSibling == (if k == 0 then None else Some(row[k - 1]))
            && (k > 0 ==> row[k - 1] in dom.nodes)
    ensures match dom.shape.parent[a]
            case Some(q) => q in dom.shape.kids && q in dom.nodes && dom.shape.kids[q] == dom.shape.row[a]
            case None => true
  {
    RowHas(dom, a);
    WellFormedAt(dom.shape, a);
  }

  lemma LandingOfNew(dom: Dom, q: Node, k: nat)
    requires dom.Valid() && q in dom.shape.kids && k <= |dom.shape.kids[q]|
    requires !(k > 0 && dom.shape.kids[q][k - 1].kind.Text?)
    ensures Landing(dom, q, k) == |Head(dom.shape.kids, dom.rank, q, k)|
  {
  }

  /** A new text node, and what `parent` then reads as. */
  method AppendNewText(parent: Node, text: string, dom: Dom) returns (x: Node)
    requires dom.Valid() && parent in dom.nodes && parent in dom.shape.kids
    requires var list: seq<Node> := dom.shape.kids[parent]; !(list != [] && list[|list| - 1].kind.Text?)
    modifies dom, dom.nodes`parent, dom.nodes`previousSibling, dom.nodes`nextSibling, dom.nodes`firstChild, dom.nodes`lastChild
    ensures dom.Valid() && fresh(x) && x.kind == Text && x.text == text && dom.nodes == old(dom.nodes) + {x}
    ensures Has(Grown(old(dom.shape), x), parent) && dom.shape == Appended(Grown(old(dom.shape), x), parent, x)
    ensures var k := old(|dom.shape.kids[parent]|);
            ReadAs(dom, parent) == old(ReadBefore(dom, parent, k)) + text + old(ReadAfter(dom, parent, k))
  {
    hide WellFormed, Ranked, LinksOf, Preorder, Texts, Landing, Appended, Grown, Head;
    ghost var kids, rank, k := dom.shape.kids, dom.rank, |dom.shape.kids[parent]|;
    ghost var list, i := TreeOrderOf(dom, parent), Landing(dom, parent, k);
    LandingOfNew(dom, parent, k);
    OrderWithin(dom, parent);
    ghost var before, after := Texts(list[..i]), Texts(list[i..]);
    x := AppendNew(parent, text, dom);
    assert Texts(list[..i]) == before && Texts(list[i..]) == after;
    assert InsertAt(kids[parent], k, x) == kids[parent] + [x];
    NewReads(kids, rank, dom, parent, x, k, list, i);
  }

  /** Adding text to `parent` extends its last child if that is a text node and hangs a new text node otherwise.
      No other text, row or list of children changes, and the new text lands in one place of what `parent` reads as. */
  method AppendText(parent: Node, text: string, dom: Dom) returns (ghost added: Option<Node>)
    requires dom.Valid() && parent in dom.nodes
    modifies dom, dom.nodes
    ensures dom.Valid() && parent in dom.nodes
    ensures var list := old(dom.shape.kids[parent]);
            if list != [] && list[|list| - 1].kind.Text? then
              && added == None && dom.nodes == old(dom.nodes) && dom.shape == old(dom.shape)
              && list[|list| - 1].text == old(list[|list| - 1].text) + text
              && (forall n :: n in dom.nodes && n != list[|list| - 1] ==> n.text == old(n.text))
            else
              && added.Some? && fresh(added.value) && added.value.kind == Text && added.value.text == text
              && dom.nodes == old(dom.nodes) + {added.value} && Has(Grown(old(dom.shape), added.value), parent)
              && dom.shape == Appended(Grown(old(dom.shape), added.value), parent, added.value)
              && (forall n :: n in old(dom.nodes) ==> n.text == old(n.text))
    ensures var k := old(|dom.shape.kids[parent]|);
            ReadAs(dom, parent) == old(ReadBefore(dom, parent, k)) + text + old(ReadAfter(dom, parent, k))
    ensures old(TextLeaves(dom)) ==> ReadAs(dom, parent) == old(ReadAs(dom, parent)) + text
  {
    hide WellFormed, Ranked, LinksOf, Preorder, Texts, Landing, Appended, Grown, Head;
    LastChildOf(dom, parent);
    LandsAtEnd(dom, parent);
    var lastChild := parent.lastChild;
    if lastChild.Some? && lastChild.value.kind.Text? {
      ghost var k := |dom.shape.kids[parent]|;
      PreviousInOrder(dom, parent, k);
      Extend(lastChild.value, text, TreeOrderOf(dom, parent), Landing(dom, parent, k));
      added := None;
      return;
    }
    var x := AppendNewText(parent, text, dom);
    added := Some(x);
  }

  lemma LandsAtEnd(dom: Dom, q: Node)
    requires dom.Valid() && q in dom.shape.kids
    ensures var list, i := TreeOrderOf(dom, q), Landing(dom, q, |dom.shape.kids[q]|);
            TextLeaves(dom) ==> Texts(list[..i]) == Texts(list) && Texts(list[i..]) == ""
  {
    var list, i := TreeOrderOf(dom, q), Landing(dom, q, |dom.shape.kids[q]|);
    if TextLeaves(dom) {
      LandsLast(dom, q);
      assert list[..i] == list && list[i..] == [];
    }
  }

  /** A new text node before `sibling`, and what its parent, if any, then reads as. */
  method InsertNewText(sibling: Node, text: string, dom: Dom) returns (x: Node)
    requires dom.Valid() && sibling in dom.nodes && sibling in dom.shape.row[sibling]
    requires var row, k := dom.shape.row[sibling], IndexOf(dom.shape.row[sibling], sibling); !(k > 0 && row[k - 1].kind.Text?)
    modifies dom, dom.nodes`parent, dom.nodes`previousSibling, dom.nodes`nextSibling, dom.nodes`firstChild, dom.nodes`lastChild
    ensures dom.Valid() && fresh(x) && x.kind == Text && x.text == text && dom.nodes == old(dom.nodes) + {x}
    ensures Has(Grown(old(dom.shape), x), sibling) && Has(Grown(old(dom.shape), x), x)
    ensures dom.shape == InsertedBefore(Grown(old(dom.shape), x), sibling, x)
    ensures match old(dom.shape.parent[sibling])
            case Some(q) =>
              && q in old(dom.nodes) && old(q in dom.shape.kids) && sibling in old(dom.shape.kids[q])
              && var k := IndexOf(old(dom.shape.kids[q]), sibling);
                 ReadAs(dom, q) == old(ReadBefore(dom, q, k)) + text + old(ReadAfter(dom, q, k))
            case None => true
  {
    hide WellFormed, Ranked, LinksOf, Preorder, Texts, Landing, InsertedBefore, Grown, Head, IndexOf, InsertAt;
    PreviousOf(dom, sibling);
    ghost var s, rank := dom.shape, dom.rank;
    ghost var k := IndexOf(s.row[sibling], sibling);
    ghost var list, i, q := [], 0, s.parent[sibling];
    if q.Some? {
      LandingOfNew(dom, q.value, k);
      Within(dom, q.value);
      list, i := TreeOrderOf(dom, q.value), Landing(dom, q.value, k);
    }
    ghost var before, after := Texts(list[..i]), Texts(list[i..]);
    assert q.Some? ==> before == ReadBefore(dom, q.value, k) && after == ReadAfter(dom, q.value, k);
    x := InsertNew(sibling, text, dom);
    assert Texts(list[..i]) == before && Texts(list[i..]) == after;
    if q.Some? {
      NewReads(s.kids, rank, dom, q.value, x, k, list, i);
    }
  }

  lemma NewReads(kids: map<Node, seq<Node>>, rank: map<Node, nat>, dom: Dom, q: Node, x: Node, k: nat, list: seq<Node>, i: nat)
    requires Ranked(kids, rank) && q in kids && x !in kids && k <= |kids[q]|
    requires dom.Valid() && q in dom.nodes && dom.shape.kids == kids[x := []][q := InsertAt(kids[q], k, x)]
    requires list == Preorder(kids, rank, q) && i == |Head(kids, rank, q, k)| <= |list|
    ensures ReadAs(dom, q) == Texts(list[..i]) + TextOf(x) + Texts(list[i..])
  {
    hide WellFormed, Ranked, Preorder, Texts, Head, InsertAt;
    NewInOrder(kids, rank, dom, q, x, k);
    TextsWith(list[..i], x, list[i..]);
  }

  /** Adding text before a sibling extends the node before it if that is a text node and inserts a new text node
      otherwise. No other text, row or list of children changes, and the new text lands in one place of what the
      parent, if any, reads as. */
  method AppendTextBefore(sibling: Node, text: string, dom: Dom) returns (ghost added: Option<Node>)
    requires dom.Valid() && sibling in dom.nodes && sibling in dom.shape.row[sibling]
    modifies dom, dom.nodes
    ensures dom.Valid()
    ensures var row := old(dom.shape.row[sibling]);
            var k := IndexOf(row, sibling);
            if k > 0 && row[k - 1].kind.Text? then
              && added == None && dom.nodes == old(dom.nodes) && dom.shape == old(dom.shape)
              && row[k - 1].text == old(row[k - 1].text) + text
              && (forall n :: n in dom.nodes && n != row[k - 1] ==> n.text == old(n.text))
            else
              && added.Some? && fresh(added.value) && added.value.kind == Text && added.value.text == text
              && dom.nodes == old(dom.nodes) + {added.value}
              && Has(Grown(old(dom.shape), added.value), sibling) && Has(Grown(old(dom.shape), added.value), added.value)
              && dom.shape == InsertedBefore(Grown(old(dom.shape), added.value), sibling, added.value)
              && (forall n :: n in old(dom.nodes) ==> n.text == old(n.text))
    ensures match old(dom.shape.parent[sibling])
            case Some(q) =>
              && q in old(dom.nodes) && q in dom.nodes && old(q in dom.shape.kids) && sibling in old(dom.shape.kids[q])
              && var k := IndexOf(old(dom.shape.kids[q]), sibling);
                 ReadAs(dom, q) == old(ReadBefore(dom, q, k)) + text + old(ReadAfter(dom, q, k))
            case None => true
  {
    hide WellFormed, Ranked, LinksOf, Preorder, Texts, Landing, InsertedBefore, Grown, Head, IndexOf, InsertAt;
    PreviousOf(dom, sibling);
    var previous := sibling.previousSibling;
    if previous.Some? && previous.value.kind.Text? {
      ghost var list, i, q := [previous.value], 1, dom.shape.parent[sibling];
      if q.Some? {
        ghost var k := IndexOf(dom.shape.row[sibling], sibling);
        PreviousInOrder(dom, q.value, k);
        list, i := TreeOrderOf(dom, q.value), Landing(dom, q.value, k);
      }
      Extend(previous.value, text, list, i);
      added := None;
      return;
    }
    var x := InsertNewText(sibling, text, dom);
    added := Some(x);
  }
}
