/** `OctreeQuantizer` and the `OctreeNode` member functions that change or
    walk the tree, as one class over a node arena. Every node member takes the
    handle of the node it runs on; each method is proved to do what the
    specification function of the same operation computes. */
module Quantizer {
  import opened Colors
  import opened Octree
  import opened Leaves
  import Insertion
  import opened Pruning
  import opened Lookup
  import Palette
  import Reachable

  class OctreeQuantizer {
    /** The nodes, addressed by handle; `nodes[ROOT]` is `root`. */
    var nodes: seq<Node>
    /** `levels[d]`: the nodes registered at level `d`, in creation order. */
    var levels: seq<seq<nat>>

    function State(): Tree
      reads this
    {
      Tree(nodes, levels)
    }

    ghost predicate Valid()
      reads this
    {
      WellFormed(State()) && ROOT < |nodes|
    }

    /** `OctreeQuantizer()`: eight empty registry levels and a root created at
        level 0, hence registered in `levels[0]`. */
    constructor ()
      ensures Valid()
      ensures nodes == [EmptyNode()]
      ensures levels == [[ROOT], [], [], [], [], [], [], []]
      ensures State() == Reachable.Initial()
    {
      nodes := [];
      levels := [[], [], [], [], [], [], [], []];
      new;
      var h := NewNode(0);
      assert levels == [[ROOT], [], [], [], [], [], [], []] by {
        assert |levels| == MAX_DEPTH && levels[0] == [ROOT];
        assert forall d :: 1 <= d < MAX_DEPTH ==> levels[d] == [];
      }
    }

    /** The `OctreeNode(level, parent)` constructor: an empty node with eight
        empty slots, registered through `add_level_node` unless its level is
        `MAX_DEPTH - 1` or more. */
    method NewNode(level: nat) returns (h: nat)
      requires WellFormed(State())
      modifies this
      ensures h == old(|nodes|)
      ensures State() == Insertion.NewNode(old(State()), level)
    {
      h := |nodes|;
      nodes := nodes + [EmptyNode()];
      if level < MAX_DEPTH - 1 {
        AddLevelNode(level, h);
      }
    }

    /** `add_level_node(level, node)`: append the node to `levels[level]`. */
    method AddLevelNode(level: nat, h: nat)
      requires level < |levels|
      modifies this
      ensures nodes == old(nodes)
      ensures levels == old(levels)[level := old(levels)[level] + [h]]
    {
      levels := levels[level := levels[level] + [h]];
    }

    /** `OctreeNode::add_color(color, level, parent)` on node `h`. */
    method NodeAddColor(h: nat, c: Color, level: nat)
      requires WellFormed(State()) && h < |nodes|
      modifies this
      ensures State() == Insertion.AddColorAt(old(State()), h, c, level)
      decreases if level < MAX_DEPTH then MAX_DEPTH - level else 0
    {
      if level >= MAX_DEPTH {
        nodes := nodes[h := Insertion.Absorb(nodes[h], c)];
        return;
      }
      ghost var before := State();
      var index := ColorIndexForLevel(c, level);
      if nodes[h].children[index].None? {
        var child := NewNode(level);
        var n := nodes[h];
        nodes := nodes[h := n.(children := n.children[index := Some(child)])];
        assert State() == Insertion.Grow(before, h, index, level);
      }
      var child := nodes[h].children[index].value;
      assert Insertion.AddColorAt(State(), child, c, level + 1) == Insertion.AddColorAt(before, h, c, level);
      NodeAddColor(child, c, level + 1);
    }

    /** `OctreeQuantizer::add_color`: insert one pixel from the root. */
    method AddColor(c: Color)
      requires Valid()
      modifies this
      ensures Valid()
      ensures State() == Insertion.AddColor(old(State()), c)
    {
      NodeAddColor(ROOT, c, 0);
    }

    /** `OctreeNode::get_leaf_nodes` on node `h`. */
    method GetLeafNodes(h: nat) returns (leaves: seq<nat>)
      requires WellFormedNodes(nodes) && h < |nodes|
      ensures leaves == LeafNodes(nodes, h)
      decreases |nodes| - h
    {
      leaves := [];
      var i := 0;
      while i < FANOUT
        invariant 0 <= i <= FANOUT
        invariant leaves + LeafNodesFrom(nodes, h, i) == LeafNodes(nodes, h)
      {
        var slot := nodes[h].children[i];
        if slot.Some? {
          var child := slot.value;
          if IsLeaf(nodes[child]) {
            leaves := leaves + [child];
          } else {
            var below := GetLeafNodes(child);
            leaves := leaves + below;
          }
        }
        i := i + 1;
      }
    }

    /** `OctreeQuantizer::get_leaves`. */
    method GetLeaves() returns (leaves: seq<nat>)
      requires Valid()
      ensures leaves == LeafNodes(nodes, ROOT)
    {
      leaves := GetLeafNodes(ROOT);
    }

    /** `OctreeNode::get_nodes_pixel_count` on node `h`: its own count plus
        those of its children (not of deeper nodes). With no negative counts
        in the tree it is never below the node's own count. */
    method GetNodesPixelCount(h: nat) returns (sum: int)
      requires WellFormedNodes(nodes) && h < |nodes|
      ensures sum == nodes[h].pixelCount + ChildPixelSum(nodes, h, FANOUT)
      ensures (forall x :: 0 <= x < |nodes| ==> nodes[x].pixelCount >= 0) ==> sum >= nodes[h].pixelCount
    {
      sum := nodes[h].pixelCount;
      var i := 0;
      while i < FANOUT
        invariant 0 <= i <= FANOUT
        invariant sum == nodes[h].pixelCount + ChildPixelSum(nodes, h, i)
      {
        var slot := nodes[h].children[i];
        if slot.Some? {
          sum := sum + nodes[slot.value].pixelCount;
        }
        i := i + 1;
      }
      if forall x :: 0 <= x < |nodes| ==> nodes[x].pixelCount >= 0 {
        ChildPixelSumNonNegative(nodes, h, FANOUT);
      }
    }

    /** `OctreeNode::remove_leaves` on node `h`: every child's sums and count
        are added into `h` (the children stay attached), and the result is the
        number of children minus one. */
    method RemoveLeaves(h: nat) returns (delta: int)
      requires WellFormed(State()) && h < |nodes|
      modifies this
      ensures nodes == CollapseAt(old(nodes), h)
      ensures levels == old(levels)
      ensures delta == ChildCount(old(nodes), h, FANOUT) - 1
      ensures -1 <= delta < FANOUT
      ensures delta == -1 <==> forall i :: 0 <= i < FANOUT ==> old(nodes)[h].children[i].None?
    {
      var result := 0;
      var i := 0;
      while i < FANOUT
        invariant 0 <= i <= FANOUT
        invariant nodes == old(nodes)[h := CollapsedUpTo(old(nodes), h, i)]
        invariant levels == old(levels)
        invariant result == ChildCount(old(nodes), h, i)
      {
        CollapsedUpToStep(old(nodes), h, i);
        var slot := nodes[h].children[i];
        if slot.Some? {
          var child := nodes[slot.value];
          assert child == old(nodes)[slot.value];
          var n := nodes[h];
          nodes := nodes[h := n.(color := AddRgb(n.color, child.color), pixelCount := n.pixelCount + child.pixelCount)];
          result := result + 1;
        }
        i := i + 1;
      }
      delta := result - 1;
      ChildCountBounds(old(nodes), h, FANOUT);
    }

    /** `OctreeNode::get_palette_index(color, level)` on node `h`; a node that
        is not a leaf and has no child gives `InconsistentTree`. */
    method NodeGetPaletteIndex(h: nat, c: Color, level: nat) returns (r: Result<int>)
      requires WellFormedNodes(nodes) && h < |nodes|
      ensures r == PaletteIndexOf(nodes, h, c, level)
      decreases |nodes| - h
    {
      if IsLeaf(nodes[h]) {
        return Ok(nodes[h].paletteIndex);
      }
      var index := ColorIndexForLevel(c, level);
      if nodes[h].children[index].Some? {
        r := NodeGetPaletteIndex(nodes[h].children[index].value, c, level + 1);
        return;
      }
      var i := 0;
      while i < FANOUT
        invariant 0 <= i <= FANOUT
        invariant FirstChildSlot(nodes[h].children, 0) == FirstChildSlot(nodes[h].children, i)
      {
        if nodes[h].children[i].Some? {
          r := NodeGetPaletteIndex(nodes[h].children[i].value, c, level + 1);
          return;
        }
        i := i + 1;
      }
      r := Err(InconsistentTree);
    }

    /** `OctreeQuantizer::get_palette_index`: the lookup from the root. */
    method GetPaletteIndex(c: Color) returns (r: Result<int>)
      requires Valid()
      ensures r == PaletteIndexOf(nodes, ROOT, c, 0)
    {
      r := NodeGetPaletteIndex(ROOT, c, 0);
    }

    /** `OctreeQuantizer::make_palette(colorCount)`: the reduction, then the
        palette loop over `get_leaves()`. */
    method MakePalette(colorCount: int) returns (palette: seq<Color>)
      requires Valid()
      modifies this
      ensures Valid()
      ensures State() == Palette.MakePalette(old(State()), colorCount).tree
      ensures palette == Palette.MakePalette(old(State()), colorCount).palette
    {
      ghost var o := Palette.MakePalette(State(), colorCount);
      var all := GetLeaves();
      Reduce(colorCount, |all|);
      palette := AssignPalette(colorCount);
      assert State() == o.tree;
    }

    /** The reduction loop of `make_palette`, from `MAX_DEPTH - 1` down to 0,
        with the running leaf count starting at `leafCount`. */
    method Reduce(colorCount: int, leafCount: int)
      requires WellFormed(State())
      modifies this
      ensures State() == PruneFrom(old(State()), MAX_DEPTH - 1, leafCount, colorCount).tree
    {
      ghost var target := PruneFrom(State(), MAX_DEPTH - 1, leafCount, colorCount);
      var count := leafCount;
      var level: int := MAX_DEPTH - 1;
      while level > -1
        invariant -1 <= level < MAX_DEPTH
        invariant WellFormed(State())
        invariant PruneFrom(State(), level, count, colorCount) == target
      {
        if |levels[level]| > 0 {
          count := ReduceLevel(level, colorCount, count);
          if count <= colorCount {
            break;
          }
          levels := levels[level := []];
        }
        level := level - 1;
      }
    }

    /** The inner loop of the reduction: `remove_leaves` on each node
        registered at `level`, stopping once the count reaches `colorCount`. */
    method ReduceLevel(level: nat, colorCount: int, leafCount: int) returns (count: int)
      requires WellFormed(State()) && level < MAX_DEPTH
      modifies this
      ensures var p := PruneNodes(old(State()), old(levels[level]), leafCount, colorCount);
        State() == p.tree && count == p.leafCount
    {
      ghost var target := PruneNodes(State(), levels[level], leafCount, colorCount);
      var hs := levels[level];
      count := leafCount;
      var k := 0;
      while k < |hs|
        invariant 0 <= k <= |hs|
        invariant WellFormed(State()) && levels == old(levels)
        invariant PruneNodes(State(), hs[k..], count, colorCount) == target
      {
        ghost var before, countBefore := State(), count;
        var delta := RemoveLeaves(hs[k]);
        count := count - delta;
        k := k + 1;
        PruneNodesStep(before, State(), hs, k - 1, countBefore, count, colorCount);
        if count <= colorCount {
          break;
        }
      }
    }

    /** The palette loop of `make_palette`: walk `get_leaves()`, stop once the
        index reaches `colorCount`, append each leaf's averaged colour and
        give it the next palette index. */
    method AssignPalette(colorCount: int) returns (palette: seq<Color>)
      requires Valid()
      modifies this
      ensures var a := Palette.AssignAll(old(nodes), colorCount);
        nodes == a.nodes && palette == a.palette && levels == old(levels)
    {
      var leaves := GetLeaves();
      Palette.LeafNodesAllLeaves(nodes, ROOT);
      palette := [];
      var paletteIndex := 0;
      while paletteIndex < |leaves|
        invariant 0 <= paletteIndex <= |leaves|
        invariant |nodes| == old(|nodes|) && levels == old(levels)
        invariant Palette.AssignFrom(nodes, leaves, paletteIndex, colorCount, palette) ==
          Palette.AssignFrom(old(nodes), leaves, 0, colorCount, [])
      {
        if paletteIndex >= colorCount {
          break;
        }
        var h := leaves[paletteIndex];
        if IsLeaf(nodes[h]) {
          var average := GetColor(nodes[h]);
          palette := palette + [average.value];
        }
        nodes := nodes[h := nodes[h].(paletteIndex := paletteIndex)];
        paletteIndex := paletteIndex + 1;
      }
    }
  }
}
