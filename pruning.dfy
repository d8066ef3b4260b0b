/** Pruning: `OctreeNode::remove_leaves`, `OctreeNode::get_nodes_pixel_count`
    and the reduction loop at the start of `OctreeQuantizer::make_palette`. */
module Pruning {
  import opened Colors
  import opened Octree

  const NO_COLOR: Color := Color(0, 0, 0, 0)

  /** The colour sum held by slot `i` of `h` (nothing for an empty slot). */
  function SlotColor(nodes: seq<Node>, h: nat, i: nat): Color
    requires WellFormedNodes(nodes) && h < |nodes| && i < FANOUT
  {
    match nodes[h].children[i]
    case None => NO_COLOR
    case Some(c) => nodes[c].color
  }

  function SlotPixels(nodes: seq<Node>, h: nat, i: nat): int
    requires WellFormedNodes(nodes) && h < |nodes| && i < FANOUT
  {
    match nodes[h].children[i]
    case None => 0
    case Some(c) => nodes[c].pixelCount
  }

  /** The channel sums of the children in slots `0..k-1` of `h`. */
  function ChildColorSum(nodes: seq<Node>, h: nat, k: nat): Color
    requires WellFormedNodes(nodes) && h < |nodes| && k <= FANOUT
  {
    if k == 0 then NO_COLOR else AddRgb(ChildColorSum(nodes, h, k - 1), SlotColor(nodes, h, k - 1))
  }

  /** The pixel counts of the children in slots `0..k-1` of `h`. */
  function ChildPixelSum(nodes: seq<Node>, h: nat, k: nat): int
    requires WellFormedNodes(nodes) && h < |nodes| && k <= FANOUT
  {
    if k == 0 then 0 else ChildPixelSum(nodes, h, k - 1) + SlotPixels(nodes, h, k - 1)
  }

  /** How many of the slots `0..k-1` of `h` hold a child. */
  function ChildCount(nodes: seq<Node>, h: nat, k: nat): nat
    requires WellFormedNodes(nodes) && h < |nodes| && k <= FANOUT
  {
    if k == 0 then 0 else ChildCount(nodes, h, k - 1) + (if nodes[h].children[k - 1].Some? then 1 else 0)
  }

  /** Node `h` after the children in slots `0..k-1` were folded into it. */
  function CollapsedUpTo(nodes: seq<Node>, h: nat, k: nat): Node
    requires WellFormedNodes(nodes) && h < |nodes| && k <= FANOUT
  {
    nodes[h].(color := AddRgb(nodes[h].color, ChildColorSum(nodes, h, k)),
              pixelCount := nodes[h].pixelCount + ChildPixelSum(nodes, h, k))
  }

  /** Node `h` after `remove_leaves`: every child folded in, the slots kept. */
  function Collapsed(nodes: seq<Node>, h: nat): Node
    requires WellFormedNodes(nodes) && h < |nodes|
  {
    CollapsedUpTo(nodes, h, FANOUT)
  }

  /** The arena after `remove_leaves` on `h`. */
  function CollapseAt(nodes: seq<Node>, h: nat): (r: seq<Node>)
    requires WellFormedNodes(nodes) && h < |nodes|
    ensures WellFormedNodes(r) && SameShape(nodes, r)
  {
    var r := nodes[h := Collapsed(nodes, h)];
    SameShapeWellFormed(nodes, r);
    r
  }

  /** Folding in one more slot: an empty slot changes nothing, a child adds
      its sums and its count. */
  lemma CollapsedUpToStep(nodes: seq<Node>, h: nat, k: nat)
    requires WellFormedNodes(nodes) && h < |nodes| && k < FANOUT
    ensures var n := CollapsedUpTo(nodes, h, k);
      CollapsedUpTo(nodes, h, k + 1) ==
        match nodes[h].children[k]
        case None => n
        case Some(c) => n.(color := AddRgb(n.color, nodes[c].color), pixelCount := n.pixelCount + nodes[c].pixelCount)
  {
  }

  /** The count of children is at most the number of slots looked at, and it
      is zero exactly when all those slots are empty. */
  lemma {:induction false} ChildCountBounds(nodes: seq<Node>, h: nat, k: nat)
    requires WellFormedNodes(nodes) && h < |nodes| && k <= FANOUT
    ensures ChildCount(nodes, h, k) <= k
    ensures ChildCount(nodes, h, k) == 0 <==> forall i :: 0 <= i < k ==> nodes[h].children[i].None?
  {
    if k > 0 {
      ChildCountBounds(nodes, h, k - 1);
    }
  }

  /** Folding children with pixels into a node with a non-negative count makes
      that node a leaf. */
  lemma {:induction false} CollapseMakesLeaf(nodes: seq<Node>, h: nat, i: nat)
    requires WellFormedNodes(nodes) && h < |nodes| && i < FANOUT
    requires forall x :: 0 <= x < |nodes| ==> nodes[x].pixelCount >= 0
    requires nodes[h].children[i].Some? && IsLeaf(nodes[nodes[h].children[i].value])
    ensures IsLeaf(Collapsed(nodes, h))
  {
    ChildPixelSumAtLeast(nodes, h, FANOUT, i);
  }

  lemma {:induction false} ChildPixelSumAtLeast(nodes: seq<Node>, h: nat, k: nat, i: nat)
    requires WellFormedNodes(nodes) && h < |nodes| && i < k <= FANOUT
    requires forall x :: 0 <= x < |nodes| ==> nodes[x].pixelCount >= 0
    ensures ChildPixelSum(nodes, h, k) >= SlotPixels(nodes, h, i)
  {
    if i < k - 1 {
      ChildPixelSumAtLeast(nodes, h, k - 1, i);
    } else {
      ChildPixelSumNonNegative(nodes, h, k - 1);
    }
  }

  lemma {:induction false} ChildPixelSumNonNegative(nodes: seq<Node>, h: nat, k: nat)
    requires WellFormedNodes(nodes) && h < |nodes| && k <= FANOUT
    requires forall x :: 0 <= x < |nodes| ==> nodes[x].pixelCount >= 0
    ensures ChildPixelSum(nodes, h, k) >= 0
  {
    if k > 0 {
      ChildPixelSumNonNegative(nodes, h, k - 1);
    }
  }

  // ---------------------------------------------------------------------
  // The reduction loop of make_palette
  // ---------------------------------------------------------------------

  /** The state of the reduction: the tree and the running `leaf_count`. */
  datatype Pruned = Pruned(tree: Tree, leafCount: int)

  /** The inner loop over the registered nodes `hs` of one level: collapse
      each in order and stop right after the one that brings `leafCount` down
      to `colorCount` or below. */
  function PruneNodes(t: Tree, hs: seq<nat>, leafCount: int, colorCount: int): (r: Pruned)
    requires WellFormed(t)
    requires forall k :: 0 <= k < |hs| ==> hs[k] < |t.nodes|
    ensures WellFormed(r.tree) && SameShape(t.nodes, r.tree.nodes) && r.tree.levels == t.levels
    decreases |hs|
  {
    if hs == [] then Pruned(t, leafCount)
    else
      var nodes := CollapseAt(t.nodes, hs[0]);
      var lc := leafCount - (ChildCount(t.nodes, hs[0], FANOUT) - 1);
      if lc <= colorCount then Pruned(t.(nodes := nodes), lc)
      else PruneNodes(t.(nodes := nodes), hs[1..], lc, colorCount)
  }

  /** One step of the inner loop at position `k`: collapse `hs[k]`, then
      either stop, when that meets the target, or go on with the rest. */
  lemma PruneNodesStep(before: Tree, after: Tree, hs: seq<nat>, k: nat, countBefore: int, count: int, colorCount: int)
    requires WellFormed(before) && k < |hs|
    requires forall j :: 0 <= j < |hs| ==> hs[j] < |before.nodes|
    requires after == before.(nodes := CollapseAt(before.nodes, hs[k]))
    requires count == countBefore - (ChildCount(before.nodes, hs[k], FANOUT) - 1)
    ensures WellFormed(after)
    ensures count <= colorCount ==> PruneNodes(before, hs[k..], countBefore, colorCount) == Pruned(after, count)
    ensures count > colorCount ==>
      PruneNodes(before, hs[k..], countBefore, colorCount) == PruneNodes(after, hs[k + 1..], count, colorCount)
  {
    assert hs[k..][0] == hs[k] && hs[k..][1..] == hs[k + 1..];
  }

  /** The outer loop, from `level` down to 0: a level with registered nodes is
      processed; if the target is then met the reduction stops, otherwise the
      level's registry is cleared and the next shallower level follows. */
  function PruneFrom(t: Tree, level: int, leafCount: int, colorCount: int): (r: Pruned)
    requires WellFormed(t) && -1 <= level < MAX_DEPTH
    ensures WellFormed(r.tree) && SameShape(t.nodes, r.tree.nodes)
    decreases level + 1
  {
    if level < 0 then Pruned(t, leafCount)
    else if |t.levels[level]| == 0 then PruneFrom(t, level - 1, leafCount, colorCount)
    else
      var p := PruneNodes(t, t.levels[level], leafCount, colorCount);
      if p.leafCount <= colorCount then p
      else PruneFrom(p.tree.(levels := p.tree.levels[level := []]), level - 1, p.leafCount, colorCount)
  }

  /** Collapsing keeps everything but the sums and counts of the node. */
  lemma CollapseKeepsIndices(nodes: seq<Node>, h: nat)
    requires WellFormedNodes(nodes) && h < |nodes|
    ensures forall x :: 0 <= x < |nodes| ==> CollapseAt(nodes, h)[x].paletteIndex == nodes[x].paletteIndex
  {
  }

  /** Every registry level is either as it was or emptied. */
  ghost predicate RegistryCleared(a: seq<seq<nat>>, b: seq<seq<nat>>)
  {
    |a| == |b| && forall d :: 0 <= d < |a| ==> b[d] == a[d] || b[d] == []
  }

  lemma {:induction false} PruneNodesKeepsIndices(t: Tree, hs: seq<nat>, leafCount: int, colorCount: int)
    requires WellFormed(t)
    requires forall k :: 0 <= k < |hs| ==> hs[k] < |t.nodes|
    ensures var r := PruneNodes(t, hs, leafCount, colorCount);
      forall x :: 0 <= x < |t.nodes| ==> r.tree.nodes[x].paletteIndex == t.nodes[x].paletteIndex
    decreases |hs|
  {
    if hs != [] {
      var nodes := CollapseAt(t.nodes, hs[0]);
      CollapseKeepsIndices(t.nodes, hs[0]);
      var lc := leafCount - (ChildCount(t.nodes, hs[0], FANOUT) - 1);
      if lc > colorCount {
        PruneNodesKeepsIndices(t.(nodes := nodes), hs[1..], lc, colorCount);
      }
    }
  }

  /** The reduction never touches child slots or palette indices, and only
      ever empties registry levels. */
  lemma {:induction false} PruneKeepsStructure(t: Tree, level: int, leafCount: int, colorCount: int)
    requires WellFormed(t) && -1 <= level < MAX_DEPTH
    ensures var r := PruneFrom(t, level, leafCount, colorCount);
      && SameShape(t.nodes, r.tree.nodes)
      && (forall x :: 0 <= x < |t.nodes| ==> r.tree.nodes[x].paletteIndex == t.nodes[x].paletteIndex)
      && RegistryCleared(t.levels, r.tree.levels)
    decreases level + 1
  {
    if level >= 0 {
      var r := PruneFrom(t, level, leafCount, colorCount);
      var t1, lc1;
      if |t.levels[level]| == 0 {
        t1, lc1 := t, leafCount;
      } else {
        var p := PruneNodes(t, t.levels[level], leafCount, colorCount);
        PruneNodesKeepsIndices(t, t.levels[level], leafCount, colorCount);
        if p.leafCount <= colorCount {
          assert r == p;
          return;
        }
        t1, lc1 := p.tree.(levels := p.tree.levels[level := []]), p.leafCount;
      }
      assert r == PruneFrom(t1, level - 1, lc1, colorCount);
      PruneKeepsStructure(t1, level - 1, lc1, colorCount);
    }
  }

  /** The reduction ends either with the running leaf count at the target or
      with every registry level emptied: it gives up only when nothing is left
      to collapse. */
  lemma {:induction false} PruneReachesTarget(t: Tree, level: int, leafCount: int, colorCount: int)
    requires WellFormed(t) && -1 <= level < MAX_DEPTH
    ensures var r := PruneFrom(t, level, leafCount, colorCount);
      r.leafCount > colorCount ==>
        forall d :: 0 <= d <= level ==> r.tree.levels[d] == []
    decreases level + 1
  {
    if level >= 0 {
      var r := PruneFrom(t, level, leafCount, colorCount);
      var t1, lc1;
      if |t.levels[level]| == 0 {
        t1, lc1 := t, leafCount;
      } else {
        var p := PruneNodes(t, t.levels[level], leafCount, colorCount);
        t1, lc1 := p.tree.(levels := p.tree.levels[level := []]), p.leafCount;
        if p.leafCount <= colorCount {
          assert r == p;
          return;
        }
      }
      assert t1.levels[level] == [] && r == PruneFrom(t1, level - 1, lc1, colorCount);
      PruneReachesTarget(t1, level - 1, lc1, colorCount);
      PruneKeepsStructure(t1, level - 1, lc1, colorCount);
    }
  }

  /** Where the reduction stops: at level `s`, the first level whose nodes
      bring the count to the target, or `s == -1` when it never does. Levels
      deeper than `s` (down to `level`) end up empty, because each was either
      empty or processed in full and cleared; `s` itself and every shallower
      level are left as they were. */
  lemma {:induction false} PruneStopLevel(t: Tree, level: int, leafCount: int, colorCount: int) returns (s: int)
    requires WellFormed(t) && -1 <= level < MAX_DEPTH
    ensures -1 <= s <= level
    ensures var r := PruneFrom(t, level, leafCount, colorCount);
      && EmptyBetween(r.tree.levels, s, level)
      && SameOutside(r.tree.levels, t.levels, s, level)
      && (s >= 0 ==> t.levels[s] != [] && r.leafCount <= colorCount)
    decreases level + 1
  {
    if level < 0 {
      s := -1;
    } else if |t.levels[level]| == 0 {
      var r := PruneFrom(t, level - 1, leafCount, colorCount);
      assert PruneFrom(t, level, leafCount, colorCount) == r;
      s := PruneStopLevel(t, level - 1, leafCount, colorCount);
      StopLevelStep(t.levels, t.levels, r.tree.levels, level, s);
    } else {
      var p := PruneNodes(t, t.levels[level], leafCount, colorCount);
      if p.leafCount <= colorCount {
        assert PruneFrom(t, level, leafCount, colorCount) == p;
        s := level;
      } else {
        var t1 := p.tree.(levels := p.tree.levels[level := []]);
        var r := PruneFrom(t1, level - 1, p.leafCount, colorCount);
        assert PruneFrom(t, level, leafCount, colorCount) == r;
        s := PruneStopLevel(t1, level - 1, p.leafCount, colorCount);
        StopLevelStep(t.levels, t1.levels, r.tree.levels, level, s);
      }
    }
  }

  /** Registry levels `lo + 1` to `hi` of `a` are empty. */
  ghost predicate EmptyBetween(a: seq<seq<nat>>, lo: int, hi: int)
  {
    forall d :: 0 <= d < |a| && lo < d <= hi ==> a[d] == []
  }

  /** Registry levels of `a` up to `lo` and beyond `hi` are those of `b`. */
  ghost predicate SameOutside(a: seq<seq<nat>>, b: seq<seq<nat>>, lo: int, hi: int)
  {
    |a| == |b| && forall d :: 0 <= d < |a| && (d <= lo || hi < d) ==> a[d] == b[d]
  }

  /** Going on below `level` after leaving it as it was when it is empty, or
      clearing it: what holds of the levels below carries over to `level`
      itself. */
  lemma StopLevelStep(before: seq<seq<nat>>, cleared: seq<seq<nat>>, after: seq<seq<nat>>, level: nat, s: int)
    requires level < |before| && -1 <= s < level
    requires cleared == before[level := []] || (cleared == before && before[level] == [])
    requires EmptyBetween(after, s, level - 1) && SameOutside(after, cleared, s, level - 1)
    ensures EmptyBetween(after, s, level) && SameOutside(after, before, s, level)
  {
    assert after[level] == cleared[level] == [];
  }

  /** Registry levels above `level` that are empty are skipped. */
  lemma {:induction false} PruneSkipsEmpty(t: Tree, from: int, level: int, leafCount: int, colorCount: int)
    requires WellFormed(t) && -1 <= level <= from < MAX_DEPTH
    requires forall d :: level < d <= from ==> t.levels[d] == []
    ensures PruneFrom(t, from, leafCount, colorCount) == PruneFrom(t, level, leafCount, colorCount)
    decreases from - level
  {
    if from > level {
      PruneSkipsEmpty(t, from - 1, level, leafCount, colorCount);
    }
  }

  /** The reduction collapses the first node of the deepest non-empty
      registry level even when the leaf count already meets the target (below
      it, or equal to it with a node that has a child): the count is compared
      only after `remove_leaves`, so the leaf count can drop below the target. */
  lemma PruneCollapsesBelowTarget(t: Tree, level: nat, leafCount: int, colorCount: int)
    requires WellFormed(t) && level < MAX_DEPTH && t.levels[level] != []
    requires forall d :: level < d < MAX_DEPTH ==> t.levels[d] == []
    requires leafCount <= colorCount
    requires leafCount < colorCount || ChildCount(t.nodes, t.levels[level][0], FANOUT) > 0
    ensures var r := PruneFrom(t, MAX_DEPTH - 1, leafCount, colorCount);
      && r.tree == t.(nodes := CollapseAt(t.nodes, t.levels[level][0]))
      && r.leafCount == leafCount - (ChildCount(t.nodes, t.levels[level][0], FANOUT) - 1)
      && r.leafCount <= colorCount
  {
    PruneSkipsEmpty(t, MAX_DEPTH - 1, level, leafCount, colorCount);
    PruneNodesStep(t, t.(nodes := CollapseAt(t.nodes, t.levels[level][0])), t.levels[level], 0,
      leafCount, leafCount - (ChildCount(t.nodes, t.levels[level][0], FANOUT) - 1), colorCount);
  }
}
