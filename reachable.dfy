/** The states the quantizer reaches through its public operations, and what
    a lookup answers in them: the round trip from `add_color` to
    `get_palette_index`, and lookups after `make_palette`. */
module Reachable {
  import opened Colors
  import opened Octree
  import opened Leaves
  import opened Insertion
  import opened Pruning
  import opened Lookup
  import opened Palette

  /** No pixel count is negative. */
  ghost predicate NonNegativeCounts(nodes: seq<Node>)
  {
    forall x :: 0 <= x < |nodes| ==> nodes[x].pixelCount >= 0
  }

  /** Every node but `h` that is not a leaf has a child. */
  ghost predicate NoDeadEndsBut(nodes: seq<Node>, h: nat)
    requires WellFormedNodes(nodes)
  {
    forall y :: 0 <= y < |nodes| && y != h && !IsLeaf(nodes[y]) ==> FirstChildSlot(nodes[y].children, 0) < FANOUT
  }

  /** The quantizer as the constructor leaves it: the root alone, registered
      in `levels[0]`. */
  function Initial(): (t: Tree)
    ensures WellFormed(t) && ROOT < |t.nodes|
  {
    Tree([EmptyNode()], [[ROOT], [], [], [], [], [], [], []])
  }

  /** A quantizer after at least one `add_color` and before `make_palette`:
      counts are non-negative, no palette index has been handed out, the root
      has a child and every node that is not a leaf has a child. */
  ghost predicate Populated(t: Tree)
  {
    && WellFormed(t) && ROOT < |t.nodes|
    && NonNegativeCounts(t.nodes) && Unassigned(t.nodes)
    && NoDeadEnds(t.nodes)
    && FirstChildSlot(t.nodes[ROOT].children, 0) < FANOUT
  }

  /** A filled slot makes the fallback find a child. */
  lemma FirstChildSlotFinds(children: seq<Option<nat>>, i: nat)
    requires |children| == FANOUT && i < FANOUT && children[i].Some?
    ensures FirstChildSlot(children, 0) < FANOUT
  {
  }

  // ---------------------------------------------------------------------
  // add_color keeps the quantizer populated
  // ---------------------------------------------------------------------

  /** An insertion that starts at `h`, where `h` is the only possible dead end,
      leaves no dead end. */
  lemma {:induction false} AddColorNoDeadEnds(t: Tree, h: nat, c: Color, level: nat)
    requires WellFormed(t) && h < |t.nodes|
    requires NonNegativeCounts(t.nodes) && NoDeadEndsBut(t.nodes, h)
    ensures NoDeadEnds(AddColorAt(t, h, c, level).nodes)
    decreases if level < MAX_DEPTH then MAX_DEPTH - level else 0, 1
  {
    if level >= MAX_DEPTH {
      var r := AddColorAt(t, h, c, level);
      assert r.nodes == t.nodes[h := Absorb(t.nodes[h], c)];
      assert IsLeaf(r.nodes[h]);
    } else {
      var index := ColorIndexForLevel(c, level);
      if t.nodes[h].children[index].None? {
        var t1 := Grow(t, h, index, level);
        assert AddColorAt(t1, |t.nodes|, c, level + 1) == AddColorAt(t, h, c, level);
        GrowMovesDeadEnd(t, h, index, level);
        NoDeadEndsStep(t, t1, h, |t.nodes|, c, level);
      } else {
        var child := t.nodes[h].children[index].value;
        assert AddColorAt(t, child, c, level + 1) == AddColorAt(t, h, c, level);
        FilledSlotMovesDeadEnd(t.nodes, h, index, child);
        NoDeadEndsStep(t, t, h, child, c, level);
      }
    }
  }

  /** The inductive step of `AddColorNoDeadEnds`: the insertion from `h`
      goes on from `child` in `t1`, where `child` is the only possible dead
      end. */
  lemma NoDeadEndsStep(t: Tree, t1: Tree, h: nat, child: nat, c: Color, level: nat)
    requires WellFormed(t) && h < |t.nodes| && level < MAX_DEPTH
    requires WellFormed(t1) && child < |t1.nodes|
    requires NonNegativeCounts(t1.nodes) && NoDeadEndsBut(t1.nodes, child)
    requires AddColorAt(t1, child, c, level + 1) == AddColorAt(t, h, c, level)
    ensures NoDeadEnds(AddColorAt(t, h, c, level).nodes)
    decreases MAX_DEPTH - level, 0
  {
    AddColorNoDeadEnds(t1, child, c, level + 1);
  }

  /** Growing the slot of the only possible dead end `h` makes the new node
      the only possible dead end. */
  lemma GrowMovesDeadEnd(t: Tree, h: nat, index: nat, level: nat)
    requires WellFormed(t) && h < |t.nodes| && index < FANOUT
    requires t.nodes[h].children[index].None?
    requires NonNegativeCounts(t.nodes) && NoDeadEndsBut(t.nodes, h)
    ensures var t1 := Grow(t, h, index, level);
      NonNegativeCounts(t1.nodes) && NoDeadEndsBut(t1.nodes, |t.nodes|)
  {
    var t1 := Grow(t, h, index, level);
    GrowNodes(t, h, index, level);
    FirstChildSlotFinds(t1.nodes[h].children, index);
  }

  /** Going on through a filled slot of the only possible dead end `h` makes
      its child the only possible dead end. */
  lemma FilledSlotMovesDeadEnd(nodes: seq<Node>, h: nat, index: nat, child: nat)
    requires WellFormedNodes(nodes) && h < |nodes| && index < FANOUT
    requires nodes[h].children[index] == Some(child)
    requires NoDeadEndsBut(nodes, h)
    ensures NoDeadEndsBut(nodes, child)
  {
    FirstChildSlotFinds(nodes[h].children, index);
  }

  /** `add_color` on a quantizer whose only possible dead end is the root, as
      the constructor leaves it, gives a populated quantizer. */
  lemma AddColorPopulates(t: Tree, c: Color)
    requires WellFormed(t) && ROOT < |t.nodes|
    requires NonNegativeCounts(t.nodes) && Unassigned(t.nodes) && NoDeadEndsBut(t.nodes, ROOT)
    ensures Populated(AddColor(t, c))
  {
    var r := AddColor(t, c);
    AddColorNoDeadEnds(t, ROOT, c, 0);
    AddColorKeepsCounts(t, c);
    var x := AddColorAbsorbsOnPath(t, ROOT, c, 0);
    var index := ColorIndexForLevel(c, 0);
    assert r.nodes[ROOT].children[index].Some?;
    FirstChildSlotFinds(r.nodes[ROOT].children, index);
  }

  /** Insertion keeps counts non-negative and hands out no palette index. */
  lemma AddColorKeepsCounts(t: Tree, c: Color)
    requires WellFormed(t) && ROOT < |t.nodes|
    requires NonNegativeCounts(t.nodes) && Unassigned(t.nodes)
    ensures NonNegativeCounts(AddColor(t, c).nodes) && Unassigned(AddColor(t, c).nodes)
  {
    var r := AddColor(t, c);
    var x := AddColorAbsorbsOnce(t, ROOT, c, 0);
    forall y | 0 <= y < |r.nodes|
      ensures r.nodes[y].pixelCount >= 0 && r.nodes[y].paletteIndex == 0
    {
      if y != x {
        assert SameData(r.nodes[y], Prior(t.nodes, y));
      }
    }
  }

  /** The constructor followed by `add_color` gives a populated quantizer. */
  lemma FirstAddColorPopulates(c: Color)
    ensures Populated(AddColor(Initial(), c))
  {
    AddColorPopulates(Initial(), c);
  }

  /** `add_color` keeps a quantizer populated. */
  lemma AddColorKeepsPopulated(t: Tree, c: Color)
    requires Populated(t)
    ensures Populated(AddColor(t, c))
  {
    AddColorPopulates(t, c);
  }

  // ---------------------------------------------------------------------
  // The round trip from add_color to get_palette_index
  // ---------------------------------------------------------------------

  /** No node that colour `c`'s walk from `h` at `level` visits above
      `MAX_DEPTH` is a leaf. */
  ghost predicate NoLeafOnPath(nodes: seq<Node>, h: nat, c: Color, level: nat)
    requires WellFormedNodes(nodes) && h < |nodes|
    decreases |nodes| - h
  {
    level < MAX_DEPTH ==>
      && !IsLeaf(nodes[h])
      && match nodes[h].children[ColorIndexForLevel(c, level)]
         case None => true
         case Some(child) => NoLeafOnPath(nodes, child, c, level + 1)
  }

  /** After inserting `c`, looking `c` up from the same node answers with
      the palette index of the node that absorbed it, the end of its walk,
      provided no leaf on that walk stops the lookup early. */
  lemma {:induction false} AddColorThenLookup(t: Tree, h: nat, c: Color, level: nat)
    requires WellFormed(t) && h < |t.nodes|
    requires NonNegativeCounts(t.nodes) && NoLeafOnPath(t.nodes, h, c, level)
    ensures var r := AddColorAt(t, h, c, level);
      var x := PathNode(r.nodes, h, c, level);
      x.Some? && PaletteIndexOf(r.nodes, h, c, level) == Ok(r.nodes[x.value].paletteIndex)
    decreases if level < MAX_DEPTH then MAX_DEPTH - level else 0, 1
  {
    var r := AddColorAt(t, h, c, level);
    if level >= MAX_DEPTH {
      assert r.nodes == t.nodes[h := Absorb(t.nodes[h], c)];
      assert IsLeaf(r.nodes[h]);
    } else {
      var index := ColorIndexForLevel(c, level);
      if t.nodes[h].children[index].None? {
        var t1, child := Grow(t, h, index, level), |t.nodes|;
        GrowNodes(t, h, index, level);
        assert NoLeafOnPath(t1.nodes, child, c, level + 1);
        assert r == AddColorAt(t1, child, c, level + 1);
        AddColorThenLookupStep(t1, h, child, c, level);
      } else {
        var child := t.nodes[h].children[index].value;
        assert r == AddColorAt(t, child, c, level + 1);
        AddColorThenLookupStep(t, h, child, c, level);
      }
    }
  }

  /** The inductive step of `AddColorThenLookup`: the insertion goes on from
      the child in the colour's slot of `h`. */
  lemma AddColorThenLookupStep(t: Tree, h: nat, child: nat, c: Color, level: nat)
    requires WellFormed(t) && h < |t.nodes| && level < MAX_DEPTH && !IsLeaf(t.nodes[h])
    requires t.nodes[h].children[ColorIndexForLevel(c, level)] == Some(child)
    requires NonNegativeCounts(t.nodes) && NoLeafOnPath(t.nodes, child, c, level + 1)
    ensures var r := AddColorAt(t, child, c, level + 1);
      var x := PathNode(r.nodes, h, c, level);
      x.Some? && PaletteIndexOf(r.nodes, h, c, level) == Ok(r.nodes[x.value].paletteIndex)
    decreases MAX_DEPTH - level, 0
  {
    var index := ColorIndexForLevel(c, level);
    var r := AddColorAt(t, child, c, level + 1);
    AddColorThenLookup(t, child, c, level + 1);
    AddColorKeepsSlot(t, child, c, level + 1, h, index);
    PathNodeStep(r.nodes, h, c, level, child);
    AddColorKeepsEarlierData(t, child, c, level + 1, h);
    LookupStep(r.nodes, h, c, level, child);
  }

  /** An insertion from `h` changes the data of no node with a smaller
      handle: the node that absorbs the colour lies on the walk from `h`. */
  lemma AddColorKeepsEarlierData(t: Tree, h: nat, c: Color, level: nat, y: nat)
    requires WellFormed(t) && h < |t.nodes| && y < h
    ensures SameData(AddColorAt(t, h, c, level).nodes[y], t.nodes[y])
  {
    var x := AddColorAbsorbsOnPath(t, h, c, level);
  }

  /** `add_color` followed by `get_palette_index` for the same colour: the
      answer is the palette index of the node that absorbed the colour. */
  lemma AddColorRoundTrip(t: Tree, c: Color) returns (x: nat)
    requires WellFormed(t) && ROOT < |t.nodes|
    requires NonNegativeCounts(t.nodes) && NoLeafOnPath(t.nodes, ROOT, c, 0)
    ensures var r := AddColor(t, c);
      && AbsorbedOnlyAt(t.nodes, r.nodes, x, c)
      && PaletteIndexOf(r.nodes, ROOT, c, 0) == Ok(r.nodes[x].paletteIndex)
  {
    x := AddColorAbsorbsOnPath(t, ROOT, c, 0);
    AddColorThenLookup(t, ROOT, c, 0);
  }

  // ---------------------------------------------------------------------
  // make_palette keeps every lookup answering
  // ---------------------------------------------------------------------

  /** `remove_leaves` only raises counts, so it creates no dead end. */
  lemma CollapseKeepsNoDeadEnds(nodes: seq<Node>, h: nat)
    requires WellFormedNodes(nodes) && h < |nodes|
    requires NonNegativeCounts(nodes) && NoDeadEnds(nodes)
    ensures NonNegativeCounts(CollapseAt(nodes, h)) && NoDeadEnds(CollapseAt(nodes, h))
  {
    ChildPixelSumNonNegative(nodes, h, FANOUT);
  }

  lemma {:induction false} PruneNodesKeepsNoDeadEnds(t: Tree, hs: seq<nat>, leafCount: int, colorCount: int)
    requires WellFormed(t)
    requires forall k :: 0 <= k < |hs| ==> hs[k] < |t.nodes|
    requires NonNegativeCounts(t.nodes) && NoDeadEnds(t.nodes)
    ensures var r := PruneNodes(t, hs, leafCount, colorCount);
      NonNegativeCounts(r.tree.nodes) && NoDeadEnds(r.tree.nodes)
    decreases |hs|
  {
    if hs != [] {
      var nodes := CollapseAt(t.nodes, hs[0]);
      CollapseKeepsNoDeadEnds(t.nodes, hs[0]);
      var lc := leafCount - (ChildCount(t.nodes, hs[0], FANOUT) - 1);
      if lc > colorCount {
        PruneNodesKeepsNoDeadEnds(t.(nodes := nodes), hs[1..], lc, colorCount);
      }
    }
  }

  /** The reduction creates no dead end and no negative count. */
  lemma {:induction false} PruneKeepsNoDeadEnds(t: Tree, level: int, leafCount: int, colorCount: int)
    requires WellFormed(t) && -1 <= level < MAX_DEPTH
    requires NonNegativeCounts(t.nodes) && NoDeadEnds(t.nodes)
    ensures var r := PruneFrom(t, level, leafCount, colorCount);
      NonNegativeCounts(r.tree.nodes) && NoDeadEnds(r.tree.nodes)
    decreases level + 1
  {
    if level >= 0 {
      var r := PruneFrom(t, level, leafCount, colorCount);
      var t1, lc1;
      if |t.levels[level]| == 0 {
        t1, lc1 := t, leafCount;
      } else {
        var p := PruneNodes(t, t.levels[level], leafCount, colorCount);
        PruneNodesKeepsNoDeadEnds(t, t.levels[level], leafCount, colorCount);
        if p.leafCount <= colorCount {
          assert r == p;
          return;
        }
        t1, lc1 := p.tree.(levels := p.tree.levels[level := []]), p.leafCount;
      }
      assert r == PruneFrom(t1, level - 1, lc1, colorCount);
      PruneKeepsNoDeadEnds(t1, level - 1, lc1, colorCount);
    }
  }

  /** The palette loop changes only palette indices. */
  lemma {:induction false} AssignFromSameCounts(nodes: seq<Node>, leaves: seq<nat>, i: nat, colorCount: int, palette: seq<Color>)
    requires forall k :: 0 <= k < |leaves| ==> leaves[k] < |nodes|
    requires i <= |leaves|
    ensures SameCounts(nodes, AssignFrom(nodes, leaves, i, colorCount, palette).nodes)
    decreases |leaves| - i
  {
    if i < |leaves| && i < colorCount {
      var node := nodes[leaves[i]];
      var extended := if IsLeaf(node) then palette + [GetColor(node).value] else palette;
      var nodes1 := nodes[leaves[i] := node.(paletteIndex := i)];
      AssignFromSameCounts(nodes1, leaves, i + 1, colorCount, extended);
    }
  }

  /** Dead ends depend only on slots and counts. */
  lemma SameCountsNoDeadEnds(a: seq<Node>, b: seq<Node>)
    requires WellFormedNodes(a) && WellFormedNodes(b) && SameCounts(a, b) && NoDeadEnds(a)
    ensures NoDeadEnds(b)
  {
    forall y | 0 <= y < |b| && !IsLeaf(b[y])
      ensures FirstChildSlot(b[y].children, 0) < FANOUT
    {
      assert a[y].children == b[y].children && a[y].pixelCount == b[y].pixelCount;
    }
  }

  /** Below a node with a child, in an arena without dead ends, there is an
      exposed leaf. */
  lemma {:induction false} SomeExposedLeaf(nodes: seq<Node>, h: nat) returns (x: nat)
    requires WellFormedNodes(nodes) && h < |nodes| && NoDeadEnds(nodes)
    requires FirstChildSlot(nodes[h].children, 0) < FANOUT
    ensures ExposedLeaf(nodes, h, x)
    decreases |nodes| - h
  {
    var j := FirstChildSlot(nodes[h].children, 0);
    var c := nodes[h].children[j].value;
    if IsLeaf(nodes[c]) {
      x := c;
    } else {
      x := SomeExposedLeaf(nodes, c);
    }
  }

  /** A leaf that the palette loop walks over ends up with an index into the
      palette. */
  lemma ListedLeafIndex(t: Tree, colorCount: int, x: nat)
    requires WellFormed(t) && ROOT < |t.nodes| && Unassigned(t.nodes) && colorCount > 0
    requires x in PrunedLeaves(t, colorCount)
    ensures var o := MakePalette(t, colorCount);
      x < |o.tree.nodes| && 0 <= o.tree.nodes[x].paletteIndex < |o.palette|
  {
    var o := MakePalette(t, colorCount);
    var leaves := PrunedLeaves(t, colorCount);
    MakePaletteSpec(t, colorCount);
    PruneKeepsStructure(t, MAX_DEPTH - 1, |LeafNodes(t.nodes, ROOT)|, colorCount);
    var j :| 0 <= j < |leaves| && leaves[j] == x;
    if j >= |o.palette| {
      assert NotAmong(x, leaves, 0, |o.palette|);
    }
  }

  /** The root is never in the list, so it keeps its index 0. */
  lemma RootIndexZero(t: Tree, colorCount: int)
    requires WellFormed(t) && ROOT < |t.nodes| && Unassigned(t.nodes)
    ensures MakePalette(t, colorCount).tree.nodes[ROOT].paletteIndex == 0
  {
    var p := PrunedTree(t, colorCount);
    var leaves := PrunedLeaves(t, colorCount);
    MakePaletteSpec(t, colorCount);
    PruneKeepsStructure(t, MAX_DEPTH - 1, |LeafNodes(t.nodes, ROOT)|, colorCount);
    forall k | 0 <= k < |leaves|
      ensures leaves[k] != ROOT
    {
      LeafNodesBelow(p.nodes, ROOT, leaves[k]);
    }
    assert NotAmong(ROOT, leaves, 0, |MakePalette(t, colorCount).palette|);
  }

  /** After `make_palette(colorCount)` with `colorCount > 0` on a populated
      quantizer, `get_palette_index` answers for every colour, and with an
      index into the palette. */
  lemma LookupInPalette(t: Tree, colorCount: int, c: Color)
    requires Populated(t) && colorCount > 0
    ensures var o := MakePalette(t, colorCount);
      var r := PaletteIndexOf(o.tree.nodes, ROOT, c, 0);
      r.Ok? && 0 <= r.value < |o.palette|
  {
    var o := MakePalette(t, colorCount);
    var p := PrunedTree(t, colorCount);
    var leaves := PrunedLeaves(t, colorCount);
    PruneKeepsNoDeadEnds(t, MAX_DEPTH - 1, |LeafNodes(t.nodes, ROOT)|, colorCount);
    AssignFromSameCounts(p.nodes, LeafNodes(p.nodes, ROOT), 0, colorCount, []);
    assert o.tree.nodes == AssignAll(p.nodes, colorCount).nodes;
    SameCountsNoDeadEnds(p.nodes, o.tree.nodes);
    LookupSucceeds(o.tree.nodes, ROOT, c, 0);
    var x := LookupReachesLeaf(o.tree.nodes, ROOT, c, 0);
    LeafNodesSameCounts(p.nodes, o.tree.nodes, ROOT);
    if x == ROOT {
      var y := SomeExposedLeaf(p.nodes, ROOT);
      LeafNodesExposed(p.nodes, ROOT, y);
      ListedLeafIndex(t, colorCount, y);
      RootIndexZero(t, colorCount);
    } else {
      LeafNodesExposed(o.tree.nodes, ROOT, x);
      ListedLeafIndex(t, colorCount, x);
    }
  }
}
