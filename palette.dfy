/** Palette construction: `OctreeQuantizer::make_palette`. */
module Palette {
  import opened Colors
  import opened Octree
  import opened Leaves
  import opened Pruning

  /** The nodes and the palette built so far by the palette loop. */
  datatype Assigned = Assigned(nodes: seq<Node>, palette: seq<Color>)

  /** The palette loop over `leaves` from position `i`: stop once `i` reaches
      `colorCount`; otherwise append the leaf's averaged colour (the loop
      checks `is_leaf` first) and give the leaf palette index `i`. */
  function AssignFrom(nodes: seq<Node>, leaves: seq<nat>, i: nat, colorCount: int, palette: seq<Color>): (r: Assigned)
    requires forall k :: 0 <= k < |leaves| ==> leaves[k] < |nodes|
    requires i <= |leaves|
    ensures SameShape(nodes, r.nodes)
    decreases |leaves| - i
  {
    if i == |leaves| || i >= colorCount then Assigned(nodes, palette)
    else
      var node := nodes[leaves[i]];
      var extended := if IsLeaf(node) then palette + [GetColor(node).value] else palette;
      AssignFrom(nodes[leaves[i] := node.(paletteIndex := i)], leaves, i + 1, colorCount, extended)
  }

  /** The number of palette entries: `colorCount` capped by the number of
      leaves, and none at all when `colorCount <= 0`. */
  function Cap(colorCount: int, leaves: nat): nat
  {
    if colorCount <= 0 then 0 else if colorCount < leaves then colorCount else leaves
  }

  /** Handles of leaves of the arena. */
  ghost predicate AllLeaves(nodes: seq<Node>, leaves: seq<nat>)
  {
    forall k :: 0 <= k < |leaves| ==> leaves[k] < |nodes| && IsLeaf(nodes[leaves[k]])
  }

  /** The palette loop appends the averaged colours of the first `Cap`
      leaves, in list order, to the palette it started with. */
  lemma {:induction false} AssignFromPalette(nodes: seq<Node>, leaves: seq<nat>, i: nat, colorCount: int, palette: seq<Color>)
    requires AllLeaves(nodes, leaves) && NoDuplicates(leaves)
    requires i <= Cap(colorCount, |leaves|)
    ensures var r := AssignFrom(nodes, leaves, i, colorCount, palette);
      var m := Cap(colorCount, |leaves|);
      && |r.palette| == |palette| + m - i
      && r.palette[..|palette|] == palette
      && (forall k :: i <= k < m ==> r.palette[|palette| + k - i] == GetColor(nodes[leaves[k]]).value)
    decreases |leaves| - i
  {
    var m := Cap(colorCount, |leaves|);
    if i < m {
      var node := nodes[leaves[i]];
      var extended := palette + [GetColor(node).value];
      var nodes1 := nodes[leaves[i] := node.(paletteIndex := i)];
      var r := AssignFrom(nodes1, leaves, i + 1, colorCount, extended);
      assert r == AssignFrom(nodes, leaves, i, colorCount, palette);
      AssignFromLeaves(nodes, leaves, i);
      AssignFromPalette(nodes1, leaves, i + 1, colorCount, extended);
      assert r.palette[..|palette|] == r.palette[..|extended|][..|palette|];
    }
  }

  /** The palette loop gives the `k`-th of the first `Cap` leaves palette
      index `k` and changes no other node. */
  lemma {:induction false} AssignFromNodes(nodes: seq<Node>, leaves: seq<nat>, i: nat, colorCount: int, palette: seq<Color>)
    requires AllLeaves(nodes, leaves) && NoDuplicates(leaves)
    requires i <= Cap(colorCount, |leaves|)
    ensures var r := AssignFrom(nodes, leaves, i, colorCount, palette);
      var m := Cap(colorCount, |leaves|);
      && |r.nodes| == |nodes|
      && (forall k :: i <= k < m ==> r.nodes[leaves[k]] == nodes[leaves[k]].(paletteIndex := k))
      && (forall x :: 0 <= x < |nodes| && NotAmong(x, leaves, i, m) ==> r.nodes[x] == nodes[x])
    decreases |leaves| - i
  {
    var m := Cap(colorCount, |leaves|);
    if i < m {
      var node := nodes[leaves[i]];
      var extended := palette + [GetColor(node).value];
      var nodes1 := nodes[leaves[i] := node.(paletteIndex := i)];
      var r := AssignFrom(nodes1, leaves, i + 1, colorCount, extended);
      assert r == AssignFrom(nodes, leaves, i, colorCount, palette);
      AssignFromLeaves(nodes, leaves, i);
      AssignFromNodes(nodes1, leaves, i + 1, colorCount, extended);
    }
  }

  /** Giving leaf `leaves[i]` its index leaves it a leaf and touches no other
      listed leaf. */
  lemma AssignFromLeaves(nodes: seq<Node>, leaves: seq<nat>, i: nat)
    requires AllLeaves(nodes, leaves) && NoDuplicates(leaves) && i < |leaves|
    ensures var nodes1 := nodes[leaves[i] := nodes[leaves[i]].(paletteIndex := i)];
      && AllLeaves(nodes1, leaves)
      && forall k :: i < k < |leaves| ==> nodes1[leaves[k]] == nodes[leaves[k]]
  {
    var nodes1 := nodes[leaves[i] := nodes[leaves[i]].(paletteIndex := i)];
    forall k | i < k < |leaves|
      ensures nodes1[leaves[k]] == nodes[leaves[k]]
    {
      assert leaves[k] != leaves[i];
    }
  }

  /** `x` is none of `leaves[i..m]`. */
  predicate NotAmong(x: nat, leaves: seq<nat>, i: nat, m: nat)
  {
    forall k :: i <= k < m && k < |leaves| ==> leaves[k] != x
  }

  /** The outcome of `make_palette`: the final tree and the palette. */
  datatype Outcome = Outcome(tree: Tree, palette: seq<Color>)

  /** The tree as the reduction leaves it, the running leaf count starting at
      the size of `get_leaves()`. */
  function PrunedTree(t: Tree, colorCount: int): (p: Tree)
    requires WellFormed(t) && ROOT < |t.nodes|
    ensures WellFormed(p) && SameShape(t.nodes, p.nodes)
  {
    PruneFrom(t, MAX_DEPTH - 1, |LeafNodes(t.nodes, ROOT)|, colorCount).tree
  }

  /** `get_leaves()` after the reduction: the list the palette loop walks. */
  function PrunedLeaves(t: Tree, colorCount: int): (leaves: seq<nat>)
    requires WellFormed(t) && ROOT < |t.nodes|
    ensures AllLeaves(PrunedTree(t, colorCount).nodes, leaves) && NoDuplicates(leaves)
  {
    var p := PrunedTree(t, colorCount);
    LeafNodesAllLeaves(p.nodes, ROOT);
    LeafNodesDistinct(p.nodes, ROOT);
    LeafNodes(p.nodes, ROOT)
  }

  lemma LeafNodesAllLeaves(nodes: seq<Node>, h: nat)
    requires WellFormedNodes(nodes) && h < |nodes|
    ensures AllLeaves(nodes, LeafNodes(nodes, h))
  {
    var leaves := LeafNodes(nodes, h);
    forall k | 0 <= k < |leaves|
      ensures leaves[k] < |nodes| && IsLeaf(nodes[leaves[k]])
    {
      LeafNodesBelow(nodes, h, leaves[k]);
    }
  }

  /** The palette loop run over `get_leaves()` of `nodes`. */
  function AssignAll(nodes: seq<Node>, colorCount: int): (a: Assigned)
    requires WellFormedNodes(nodes) && ROOT < |nodes|
    ensures SameShape(nodes, a.nodes)
  {
    LeafNodesAllLeaves(nodes, ROOT);
    AssignFrom(nodes, LeafNodes(nodes, ROOT), 0, colorCount, [])
  }

  /** `OctreeQuantizer::make_palette(colorCount)`. */
  function MakePalette(t: Tree, colorCount: int): (o: Outcome)
    requires WellFormed(t) && ROOT < |t.nodes|
    ensures WellFormed(o.tree) && SameShape(t.nodes, o.tree.nodes)
  {
    var p := PrunedTree(t, colorCount);
    var a := AssignAll(p.nodes, colorCount);
    SameShapeWellFormed(p.nodes, a.nodes);
    Outcome(p.(nodes := a.nodes), a.palette)
  }

  /** The palette has `min(colorCount, |leaves|)` entries (none when
      `colorCount <= 0`); entry `i` is the averaged colour of the `i`-th leaf
      in `get_leaves()` order, which gets palette index `i`; every other node
      is as the reduction left it. */
  lemma MakePaletteSpec(t: Tree, colorCount: int)
    requires WellFormed(t) && ROOT < |t.nodes|
    ensures var o, leaves := MakePalette(t, colorCount), PrunedLeaves(t, colorCount);
      && |o.palette| == Cap(colorCount, |leaves|)
      && |o.palette| <= |leaves|
      && (colorCount > 0 ==> |o.palette| <= colorCount)
    ensures var o, p, leaves := MakePalette(t, colorCount), PrunedTree(t, colorCount), PrunedLeaves(t, colorCount);
      forall i :: 0 <= i < |o.palette| ==>
        && o.palette[i] == GetColor(p.nodes[leaves[i]]).value
        && o.tree.nodes[leaves[i]] == p.nodes[leaves[i]].(paletteIndex := i)
    ensures var o, p, leaves := MakePalette(t, colorCount), PrunedTree(t, colorCount), PrunedLeaves(t, colorCount);
      && (forall x :: 0 <= x < |p.nodes| && NotAmong(x, leaves, 0, |o.palette|) ==> o.tree.nodes[x] == p.nodes[x])
      && o.tree.levels == p.levels
  {
    var p := PrunedTree(t, colorCount);
    var leaves := PrunedLeaves(t, colorCount);
    var a := AssignAll(p.nodes, colorCount);
    AssignFromPalette(p.nodes, leaves, 0, colorCount, []);
    AssignFromNodes(p.nodes, leaves, 0, colorCount, []);
    assert MakePalette(t, colorCount) == Outcome(p.(nodes := a.nodes), a.palette);
  }

  /** No palette index has been handed out yet: every node still has the
      constructor's index 0. */
  ghost predicate Unassigned(nodes: seq<Node>)
  {
    forall x :: 0 <= x < |nodes| ==> nodes[x].paletteIndex == 0
  }

  /** Two arenas with the same slots and the same counts list the same leaves. */
  ghost predicate SameCounts(a: seq<Node>, b: seq<Node>)
  {
    SameShape(a, b) && forall x :: 0 <= x < |a| ==> a[x].pixelCount == b[x].pixelCount
  }

  lemma {:induction false} LeafNodesSameCounts(a: seq<Node>, b: seq<Node>, h: nat)
    requires WellFormedNodes(a) && WellFormedNodes(b) && SameCounts(a, b) && h < |a|
    ensures LeafNodes(a, h) == LeafNodes(b, h)
    decreases |a| - h, 2, 0
  {
    LeafNodesFromSameCounts(a, b, h, 0);
  }

  lemma {:induction false} LeafNodesFromSameCounts(a: seq<Node>, b: seq<Node>, h: nat, i: nat)
    requires WellFormedNodes(a) && WellFormedNodes(b) && SameCounts(a, b) && h < |a| && i <= FANOUT
    ensures LeafNodesFrom(a, h, i) == LeafNodesFrom(b, h, i)
    decreases |a| - h, 1, FANOUT - i
  {
    if i < FANOUT {
      LeafNodesFromSameCounts(a, b, h, i + 1);
      assert a[h].children == b[h].children;
      match a[h].children[i]
      case None =>
      case Some(c) =>
        if !IsLeaf(a[c]) {
          LeafNodesSameCounts(a, b, c);
        }
    }
  }
}
