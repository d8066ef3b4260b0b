/** What `OctreeNode::get_leaf_nodes` returns, and why it is the right set. */
module Leaves {
  import opened Octree

  /** The leaves below `h`: slots in index order 0..7, depth first; a leaf
      child is taken as it is and not entered. */
  function LeafNodes(nodes: seq<Node>, h: nat): seq<nat>
    requires WellFormedNodes(nodes) && h < |nodes|
    decreases |nodes| - h, 2, 0
  {
    LeafNodesFrom(nodes, h, 0)
  }

  /** The leaves contributed by slots `i..7` of `h`. */
  function LeafNodesFrom(nodes: seq<Node>, h: nat, i: nat): seq<nat>
    requires WellFormedNodes(nodes) && h < |nodes| && i <= FANOUT
    decreases |nodes| - h, 1, FANOUT - i
  {
    if i == FANOUT then [] else SlotLeaves(nodes, h, i) + LeafNodesFrom(nodes, h, i + 1)
  }

  /** The leaves contributed by slot `i` of `h`: nothing for an empty slot, the
      child itself when it is a leaf, and otherwise the child's own leaves. */
  function SlotLeaves(nodes: seq<Node>, h: nat, i: nat): seq<nat>
    requires WellFormedNodes(nodes) && h < |nodes| && i < FANOUT
    decreases |nodes| - h, 0, 0
  {
    match nodes[h].children[i]
    case None => []
    case Some(c) => if IsLeaf(nodes[c]) then [c] else LeafNodes(nodes, c)
  }

  /** `x` is a leaf reached from `h` through non-leaf nodes only: the nodes a
      depth-first walk that stops at leaves finds. */
  ghost predicate ExposedLeaf(nodes: seq<Node>, h: nat, x: nat)
    requires WellFormedNodes(nodes) && h < |nodes|
    decreases |nodes| - h
  {
    exists i :: 0 <= i < FANOUT && nodes[h].children[i].Some? &&
      var c := nodes[h].children[i].value;
      if IsLeaf(nodes[c]) then x == c else ExposedLeaf(nodes, c, x)
  }

  predicate NoDuplicates(s: seq<nat>)
  {
    forall i, j :: 0 <= i < j < |s| ==> s[i] != s[j]
  }

  /** Every handle `get_leaf_nodes` returns is a leaf strictly below `h`:
      never `h` itself. */
  lemma {:induction false} LeafNodesBelow(nodes: seq<Node>, h: nat, x: nat)
    requires WellFormedNodes(nodes) && h < |nodes|
    requires x in LeafNodes(nodes, h)
    ensures InSubtree(nodes, h, x) && h < x < |nodes| && IsLeaf(nodes[x])
    decreases |nodes| - h, 2, 0
  {
    var j := LeafNodesFromBelow(nodes, h, 0, x);
    var c := nodes[h].children[j].value;
    SubtreeBounds(nodes, c, x);
  }

  lemma {:induction false} LeafNodesFromBelow(nodes: seq<Node>, h: nat, i: nat, x: nat)
    returns (j: nat)
    requires WellFormedNodes(nodes) && h < |nodes| && i <= FANOUT
    requires x in LeafNodesFrom(nodes, h, i)
    ensures i <= j < FANOUT && nodes[h].children[j].Some?
    ensures x in SlotLeaves(nodes, h, j)
    ensures InSubtree(nodes, nodes[h].children[j].value, x)
    ensures InSubtree(nodes, h, x) && x < |nodes| && IsLeaf(nodes[x])
    decreases |nodes| - h, 1, FANOUT - i
  {
    if x in SlotLeaves(nodes, h, i) {
      j := i;
      var c := nodes[h].children[i].value;
      if !IsLeaf(nodes[c]) {
        LeafNodesBelow(nodes, c, x);
      }
    } else {
      j := LeafNodesFromBelow(nodes, h, i + 1, x);
    }
  }

  /** `get_leaf_nodes` finds exactly the exposed leaves (both directions). */
  lemma {:induction false} LeafNodesExposed(nodes: seq<Node>, h: nat, x: nat)
    requires WellFormedNodes(nodes) && h < |nodes|
    ensures x in LeafNodes(nodes, h) <==> ExposedLeaf(nodes, h, x)
    decreases |nodes| - h, 2, 0
  {
    LeafNodesFromExposed(nodes, h, 0, x);
  }

  lemma {:induction false} LeafNodesFromExposed(nodes: seq<Node>, h: nat, i: nat, x: nat)
    requires WellFormedNodes(nodes) && h < |nodes| && i <= FANOUT
    ensures x in LeafNodesFrom(nodes, h, i) <==>
      exists j :: i <= j < FANOUT && nodes[h].children[j].Some? &&
        var c := nodes[h].children[j].value;
        if IsLeaf(nodes[c]) then x == c else ExposedLeaf(nodes, c, x)
    decreases |nodes| - h, 1, FANOUT - i
  {
    if i < FANOUT {
      LeafNodesFromExposed(nodes, h, i + 1, x);
      match nodes[h].children[i]
      case None =>
      case Some(c) =>
        if !IsLeaf(nodes[c]) {
          LeafNodesExposed(nodes, c, x);
        }
    }
  }

  /** No node is listed twice, so handing out palette indices along the list
      gives every leaf one index. */
  lemma {:induction false} LeafNodesDistinct(nodes: seq<Node>, h: nat)
    requires WellFormedNodes(nodes) && h < |nodes|
    ensures NoDuplicates(LeafNodes(nodes, h))
    decreases |nodes| - h, 2, 0
  {
    LeafNodesFromDistinct(nodes, h, 0);
  }

  lemma {:induction false} LeafNodesFromDistinct(nodes: seq<Node>, h: nat, i: nat)
    requires WellFormedNodes(nodes) && h < |nodes| && i <= FANOUT
    ensures NoDuplicates(LeafNodesFrom(nodes, h, i))
    decreases |nodes| - h, 1, FANOUT - i
  {
    if i < FANOUT {
      var a, b := SlotLeaves(nodes, h, i), LeafNodesFrom(nodes, h, i + 1);
      LeafNodesFromDistinct(nodes, h, i + 1);
      match nodes[h].children[i]
      case None =>
        assert a + b == b;
      case Some(c) =>
        if !IsLeaf(nodes[c]) {
          LeafNodesDistinct(nodes, c);
        }
        forall x | x in a && x in b
          ensures false
        {
          var j := LeafNodesFromBelow(nodes, h, i + 1, x);
          if !IsLeaf(nodes[c]) {
            LeafNodesBelow(nodes, c, x);
          }
          SiblingsDisjoint(nodes, h, i, j, x);
        }
        ConcatDistinct(a, b);
    }
  }

  lemma ConcatDistinct(a: seq<nat>, b: seq<nat>)
    requires NoDuplicates(a) && NoDuplicates(b)
    requires forall x :: x in a ==> x !in b
    ensures NoDuplicates(a + b)
  {
    forall i, j | 0 <= i < j < |a + b|
      ensures (a + b)[i] != (a + b)[j]
    {
      if i < |a| && j >= |a| {
        assert (a + b)[i] in a && (a + b)[j] in b;
      }
    }
  }
}
