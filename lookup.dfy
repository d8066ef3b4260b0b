/** Palette lookup: `OctreeNode::get_palette_index`. */
module Lookup {
  import opened Colors
  import opened Octree
  import opened Leaves

  /** The lowest slot at or after `i` that holds a child, or `FANOUT` when
      there is none. */
  function FirstChildSlot(children: seq<Option<nat>>, i: nat): (j: nat)
    requires |children| == FANOUT && i <= FANOUT
    ensures i <= j <= FANOUT
    ensures j < FANOUT ==> children[j].Some?
    ensures forall k :: i <= k < j ==> children[k].None?
    decreases FANOUT - i
  {
    if i == FANOUT then FANOUT
    else if children[i].Some? then i
    else FirstChildSlot(children, i + 1)
  }

  /** The palette index for colour `c` looked up from node `h` at `level`: a
      leaf answers with its own index; otherwise the descent goes into the
      colour's slot, or, if that is empty, into the lowest filled slot, with
      the same colour and `level + 1`. A non-leaf node with no child at all is
      reported as `InconsistentTree`. */
  function PaletteIndexOf(nodes: seq<Node>, h: nat, c: Color, level: nat): Result<int>
    requires WellFormedNodes(nodes) && h < |nodes|
    decreases |nodes| - h
  {
    if IsLeaf(nodes[h]) then Ok(nodes[h].paletteIndex)
    else
      var index := ColorIndexForLevel(c, level);
      match nodes[h].children[index]
      case Some(child) => PaletteIndexOf(nodes, child, c, level + 1)
      case None =>
        var j := FirstChildSlot(nodes[h].children, 0);
        if j < FANOUT then PaletteIndexOf(nodes, nodes[h].children[j].value, c, level + 1)
        else Err(InconsistentTree)
  }

  /** At a node that is not a leaf, the lookup goes on from the child in the
      colour's slot when there is one. */
  lemma LookupStep(nodes: seq<Node>, h: nat, c: Color, level: nat, child: nat)
    requires WellFormedNodes(nodes) && h < |nodes| && !IsLeaf(nodes[h])
    requires nodes[h].children[ColorIndexForLevel(c, level)] == Some(child)
    ensures child < |nodes| && PaletteIndexOf(nodes, h, c, level) == PaletteIndexOf(nodes, child, c, level + 1)
  {
  }

  /** A successful lookup answers with the palette index of the node itself,
      when it is a leaf, or of one of its exposed leaves, that is, of a node
      `get_leaf_nodes` lists. */
  lemma {:induction false} LookupReachesLeaf(nodes: seq<Node>, h: nat, c: Color, level: nat)
    returns (x: nat)
    requires WellFormedNodes(nodes) && h < |nodes|
    requires PaletteIndexOf(nodes, h, c, level).Ok?
    ensures x < |nodes| && IsLeaf(nodes[x])
    ensures PaletteIndexOf(nodes, h, c, level).value == nodes[x].paletteIndex
    ensures x == h || (!IsLeaf(nodes[h]) && ExposedLeaf(nodes, h, x))
    decreases |nodes| - h
  {
    if IsLeaf(nodes[h]) {
      x := h;
    } else {
      var index := ColorIndexForLevel(c, level);
      var slot := if nodes[h].children[index].Some? then index else FirstChildSlot(nodes[h].children, 0);
      var child := nodes[h].children[slot].value;
      x := LookupReachesLeaf(nodes, child, c, level + 1);
      assert ExposedLeaf(nodes, h, x) by {
        assert 0 <= slot < FANOUT && nodes[h].children[slot].Some?;
      }
    }
  }

  /** Every node that is not a leaf has at least one child. */
  ghost predicate NoDeadEnds(nodes: seq<Node>)
    requires WellFormedNodes(nodes)
  {
    forall h :: 0 <= h < |nodes| && !IsLeaf(nodes[h]) ==> FirstChildSlot(nodes[h].children, 0) < FANOUT
  }

  /** Lookup fails only at a dead end: in a tree without one it always
      answers. */
  lemma {:induction false} LookupSucceeds(nodes: seq<Node>, h: nat, c: Color, level: nat)
    requires WellFormedNodes(nodes) && h < |nodes| && NoDeadEnds(nodes)
    ensures PaletteIndexOf(nodes, h, c, level).Ok?
    decreases |nodes| - h
  {
    if !IsLeaf(nodes[h]) {
      var index := ColorIndexForLevel(c, level);
      var slot := if nodes[h].children[index].Some? then index else FirstChildSlot(nodes[h].children, 0);
      LookupSucceeds(nodes, nodes[h].children[slot].value, c, level + 1);
    }
  }

  /** A node with no child at all that is not a leaf makes the lookup fail
      there. */
  lemma DeadEndFails(nodes: seq<Node>, h: nat, c: Color, level: nat)
    requires WellFormedNodes(nodes) && h < |nodes| && !IsLeaf(nodes[h])
    requires forall i :: 0 <= i < FANOUT ==> nodes[h].children[i].None?
    ensures PaletteIndexOf(nodes, h, c, level) == Err(InconsistentTree)
  {
  }
}
