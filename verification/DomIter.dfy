/**
  The double-ended iterators over siblings, edges and descendants.

  Each iterator holds the two ends of what it has yet to yield, and steps along the links of the
  nodes. Its ghost field is the list of items left; `Next` takes the first and `NextBack` the last.
 */
module DomIter {
  import opened Wrappers
  import opened Rows
  import opened OrderedForest
  import opened TreeOrder
  import opened DomTree

  datatype State<T> = State(next: T, nextBack: T)

  /** The state that stands for the items left. */
  ghost function EndsOf<T>(left: seq<T>): Option<State<T>> {
    if left == [] then None else Some(State(left[0], left[|left| - 1]))
  }

  // ----- siblings -----

  /** `run` is a stretch of a row. */
  ghost predicate IsRun(s: Shape<Node>, run: seq<Node>)
    requires WellFormed(s)
  {
    && NoDup(run)
    && (forall i :: 0 <= i < |run| ==> run[i] in s.row)
    && (forall i :: 0 <= i < |run| - 1 ==> LinksOf(s, run[i]).next == Some(run[i + 1]))
  }

  lemma KidsAreARun(s: Shape<Node>, x: Node)
    requires Has(s, x)
    ensures IsRun(s, s.kids[x])
  {
    KidsAreARow(s, x);
    forall i | 0 <= i < |s.kids[x]| - 1 ensures LinksOf(s, s.kids[x][i]).next == Some(s.kids[x][i + 1]) {
      ChildLinks(s, x, i);
    }
  }

  lemma KidsEnds(s: Shape<Node>, x: Node)
    requires Has(s, x)
    ensures LinksOf(s, x).first == First(s.kids[x]) && LinksOf(s, x).last == Last(s.kids[x])
  {
  }

  class Siblings {
    var state: Option<State<Node>>
    ghost var left: seq<Node>

    ghost predicate Valid(dom: Dom)
      reads this, dom, dom.nodes
    {
      dom.Valid() && IsRun(dom.shape, left) && state == EndsOf(left)
    }

    /** The children of `x`, in order. */
    constructor Children(x: Node, ghost dom: Dom)
      requires dom.Valid() && x in dom.nodes
      ensures Valid(dom) && left == dom.shape.kids[x]
    {
      hide WellFormed, IsRun, LinksOf;
      dom.Domain();
      left := dom.shape.kids[x];
      if x.firstChild.Some? && x.lastChild.Some? {
        state := Some(State(x.firstChild.value, x.lastChild.value));
      } else {
        state := None;
      }
      new;
      KidsAreARun(dom.shape, x);
      KidsEnds(dom.shape, x);
    }

    method Next(ghost dom: Dom) returns (r: Option<Node>)
      requires Valid(dom)
      modifies this
      ensures Valid(dom)
      ensures r == First(old(left))
      ensures left == if old(left) == [] then [] else old(left)[1..]
    {
      hide WellFormed, LinksOf;
      r := None;
      if state.Some? {
        var State(next, nextBack) := state.value;
        state := None;
        if next.nextSibling.Some? {
          if next != nextBack {
            state := Some(State(next.nextSibling.value, nextBack));
          }
        }
        left := left[1..];
        r := Some(next);
      }
    }

    method NextBack(ghost dom: Dom) returns (r: Option<Node>)
      requires Valid(dom)
      modifies this
      ensures Valid(dom)
      ensures r == Last(old(left))
      ensures left == if old(left) == [] then [] else old(left)[..|old(left)| - 1]
    {
      hide WellFormed, LinksOf;
      r := None;
      if state.Some? {
        var State(next, nextBack) := state.value;
        state := None;
        if |left| > 1 {
          LinksAgree(dom.shape, left[|left| - 2], left[|left| - 1]);
        }
        if nextBack.previousSibling.Some? {
          if nextBack != next {
            state := Some(State(next, nextBack.previousSibling.value));
          }
        }
        left := left[..|left| - 1];
        r := Some(nextBack);
      }
    }
  }

  // ----- edges -----

  class Traverse {
    var state: Option<State<Edge<Node>>>
    ghost var left: seq<Edge<Node>>

    ghost predicate Valid(dom: Dom)
      reads this, dom, dom.nodes
    {
      dom.Valid() && IsWalk(dom.shape, left) && state == EndsOf(left)
    }

    constructor Inclusive(x: Node, ghost dom: Dom)
      requires dom.Valid() && x in dom.nodes
      ensures Valid(dom) && left == Tour(dom.shape.kids, dom.rank, x)
    {
      hide WellFormed, IsWalk, Ranked, Tour, LinksOf;
      dom.Domain();
      left := Tour(dom.shape.kids, dom.rank, x);
      state := Some(State(Start(x), End(x)));
      new;
      TourEnds(dom.shape, dom.rank, x);
      TourIsWalk(dom.shape, dom.rank, x);
    }

    constructor Exclusive(x: Node, ghost dom: Dom)
      requires dom.Valid() && x in dom.nodes
      ensures Valid(dom) && left == InnerTour(dom.shape.kids, dom.rank, x)
    {
      hide WellFormed, IsWalk, Ranked, InnerTour, LinksOf;
      dom.Domain();
      left := InnerTour(dom.shape.kids, dom.rank, x);
      if x.firstChild.Some? && x.lastChild.Some? {
        state := Some(State(Start(x.firstChild.value), End(x.lastChild.value)));
      } else {
        state := None;
      }
      new;
      TourIsWalk(dom.shape, dom.rank, x);
      TourEnds(dom.shape, dom.rank, x);
    }

    method Next(ghost dom: Dom) returns (r: Option<Edge<Node>>)
      requires Valid(dom)
      modifies this
      ensures Valid(dom)
      ensures r == First(old(left))
      ensures left == if old(left) == [] then [] else old(left)[1..]
    {
      hide WellFormed, LinksOf;
      r := None;
      if state.Some? {
        var State(next, nextBack) := state.value;
        state := None;
        if next != nextBack {
          match next {
            case Start(node) =>
              if node.firstChild.Some? {
                state := Some(State(Start(node.firstChild.value), nextBack));
              } else {
                state := Some(State(End(node), nextBack));
              }
            case End(node) =>
              if node.nextSibling.Some? {
                state := Some(State(Start(node.nextSibling.value), nextBack));
              } else if node.parent.Some? {
                state := Some(State(End(node.parent.value), nextBack));
              }
          }
        }
        left := left[1..];
        r := Some(next);
      }
    }

    method NextBack(ghost dom: Dom) returns (r: Option<Edge<Node>>)
      requires Valid(dom)
      modifies this
      ensures Valid(dom)
      ensures r == Last(old(left))
      ensures left == if old(left) == [] then [] else old(left)[..|old(left)| - 1]
    {
      hide WellFormed, LinksOf;
      r := None;
      if state.Some? {
        var State(next, nextBack) := state.value;
        state := None;
        if |left| > 1 {
          StepsInverse(dom.shape, left[|left| - 2], left[|left| - 1]);
        }
        if nextBack != next {
          match nextBack {
            case End(node) =>
              if node.lastChild.Some? {
                state := Some(State(next, End(node.lastChild.value)));
              } else {
                state := Some(State(next, Start(node)));
              }
            case Start(node) =>
              if node.previousSibling.Some? {
                state := Some(State(next, End(node.previousSibling.value)));
              } else if node.parent.Some? {
                state := Some(State(next, Start(node.parent.value)));
              }
          }
        }
        left := left[..|left| - 1];
        r := Some(nextBack);
      }
    }
  }

  // ----- nodes in tree order -----

  class Descendants {
    const edges: Traverse

    ghost predicate Valid(dom: Dom)
      reads this, edges, dom, dom.nodes
    {
      edges.Valid(dom)
    }

    /** The nodes left, in tree order. */
    ghost function Left(): seq<Node>
      reads this, edges
    {
      Starts(edges.left)
    }

    constructor Inclusive(x: Node, ghost dom: Dom)
      requires dom.Valid() && x in dom.nodes
      ensures Valid(dom) && fresh(edges) && Left() == Preorder(dom.shape.kids, dom.rank, x)
    {
      hide WellFormed, IsWalk, Ranked, Tour, InnerTour, Starts, Preorder, LinksOf;
      dom.Domain();
      edges := new Traverse.Inclusive(x, dom);
      new;
      StartsArePreorder(dom.shape.kids, dom.rank, x);
    }

    constructor Exclusive(x: Node, ghost dom: Dom)
      requires dom.Valid() && x in dom.nodes
      ensures Valid(dom) && fresh(edges)
      ensures Left() == Preorder(dom.shape.kids, dom.rank, x)[1..]
    {
      hide WellFormed, IsWalk, Ranked, Tour, InnerTour, Starts, Preorder, LinksOf;
      dom.Domain();
      edges := new Traverse.Exclusive(x, dom);
      new;
      InnerStarts(dom.shape.kids, dom.rank, x);
    }

    method Next(ghost dom: Dom) returns (r: Option<Node>)
      requires Valid(dom)
      modifies edges
      ensures Valid(dom)
      ensures r == First(old(Left()))
      ensures Left() == if old(Left()) == [] then [] else old(Left())[1..]
    {
      while true
        invariant Valid(dom) && Left() == old(Left())
        decreases |edges.left|
      {
        var edge := edges.Next(dom);
        match edge {
          case Some(Start(node)) => return Some(node);
          case Some(End(_)) =>
          case None => return None;
        }
      }
    }

    method NextBack(ghost dom: Dom) returns (r: Option<Node>)
      requires Valid(dom)
      modifies edges
      ensures Valid(dom)
      ensures r == Last(old(Left()))
      ensures Left() == if old(Left()) == [] then [] else old(Left())[..|old(Left())| - 1]
    {
      hide WellFormed, IsWalk;
      while true
        invariant Valid(dom) && Left() == old(Left())
        decreases |edges.left|
      {
        ghost var was := edges.left;
        var edge := edges.NextBack(dom);
        if was != [] {
          StartsLast(was);
        }
        match edge {
          case Some(Start(node)) => return Some(node);
          case Some(End(_)) =>
          case None => return None;
        }
      }
    }
  }

  // ----- any interleaving of the two ends -----

  datatype Side = Front | Back

  /** The items that a run of `Next` (front) and `NextBack` (back) calls yields, the latter in reverse. */
  ghost function Pulled<T>(left: seq<T>, sides: seq<Side>): (seq<T>, seq<T>)
    decreases |sides|
  {
    if sides == [] || left == [] then ([], [])
    else if sides[0] == Front then
      var (front, back) := Pulled(left[1..], sides[1..]);
      ([left[0]] + front, back)
    else
      var (front, back) := Pulled(left[..|left| - 1], sides[1..]);
      (front, back + [left[|left| - 1]])
  }

  /** The items taken are a prefix and a suffix of the list, and nothing is taken twice or skipped. */
  lemma {:induction false} PulledEnds<T>(left: seq<T>, sides: seq<Side>)
    ensures var (front, back) := Pulled(left, sides);
            && |front| + |back| == (if |sides| < |left| then |sides| else |left|)
            && front == left[..|front|]
            && back == left[|left| - |back|..]
    decreases |sides|
  {
    if sides != [] && left != [] {
      if sides[0] == Front {
        PulledEnds(left[1..], sides[1..]);
      } else {
        PulledEnds(left[..|left| - 1], sides[1..]);
      }
    }
  }
}
