/** Colour insertion: the `OctreeNode` constructor with its self-registration,
    `OctreeQuantizer::add_level_node` and `OctreeNode::add_color`. */
module Insertion {
  import opened Colors
  import opened Octree

  /** The `OctreeNode` constructor: a fresh empty node at the end of the arena,
      registered in `levels[level]` unless `level >= MAX_DEPTH - 1`. */
  function NewNode(t: Tree, level: nat): (r: Tree)
    requires WellFormed(t)
    ensures WellFormed(r)
  {
    var h := |t.nodes|;
    var nodes := t.nodes + [EmptyNode()];
    forall h1: nat, i1: nat, h2: nat, i2: nat | SameChild(nodes, h1, i1, h2, i2)
      ensures h1 == h2 && i1 == i2
    {
      assert SameChild(t.nodes, h1, i1, h2, i2);
    }
    Tree(nodes, if level < MAX_DEPTH - 1 then t.levels[level := t.levels[level] + [h]] else t.levels)
  }

  /** A child created for the empty slot `index` of `h`; the child receives the
      PARENT's `level`, so it lands in `levels[level]`. */
  function Grow(t: Tree, h: nat, index: nat, level: nat): (r: Tree)
    requires WellFormed(t) && h < |t.nodes| && index < FANOUT
    requires t.nodes[h].children[index].None?
    ensures WellFormed(r)
    ensures |r.nodes| == |t.nodes| + 1 && r.nodes[h].children[index] == Some(|t.nodes|)
  {
    var t1 := NewNode(t, level);
    var n := t1.nodes[h];
    var r := t1.(nodes := t1.nodes[h := n.(children := n.children[index := Some(|t.nodes|)])]);
    forall h1: nat, i1: nat, h2: nat, i2: nat | SameChild(r.nodes, h1, i1, h2, i2)
      ensures h1 == h2 && i1 == i2
    {
      if r.nodes[h1].children[i1] != Some(|t.nodes|) {
        assert SameChild(t1.nodes, h1, i1, h2, i2);
      }
    }
    r
  }

  /** What `Grow` changes: slot `index` of `h` now points at a new empty node
      appended to the arena; every other node is as it was. */
  lemma GrowNodes(t: Tree, h: nat, index: nat, level: nat)
    requires WellFormed(t) && h < |t.nodes| && index < FANOUT
    requires t.nodes[h].children[index].None?
    ensures var r := Grow(t, h, index, level);
      && r.nodes[|t.nodes|] == EmptyNode()
      && r.nodes[h] == t.nodes[h].(children := t.nodes[h].children[index := Some(|t.nodes|)])
      && forall y :: 0 <= y < |t.nodes| && y != h ==> r.nodes[y] == t.nodes[y]
  {
  }

  /** The node that colour `c`'s slot indices lead to from `h` at `level`, one
      slot per level down to `MAX_DEPTH`; `None` when a slot on the way is
      empty. This is the walk `add_color` makes. */
  ghost function PathNode(nodes: seq<Node>, h: nat, c: Color, level: nat): (p: Option<nat>)
    requires WellFormedNodes(nodes) && h < |nodes|
    ensures p.Some? ==> h <= p.value < |nodes|
    ensures p.Some? && level < MAX_DEPTH ==> h < p.value
    decreases |nodes| - h
  {
    if level >= MAX_DEPTH then Some(h)
    else match nodes[h].children[ColorIndexForLevel(c, level)]
      case None => None
      case Some(child) => PathNode(nodes, child, c, level + 1)
  }

  /** A terminal node absorbs one pixel: its colour is added to the sums and
      its count grows by one. */
  function Absorb(n: Node, c: Color): Node
  {
    n.(color := AddRgb(n.color, c), pixelCount := n.pixelCount + 1)
  }

  /** `OctreeNode::add_color(color, level)` on node `h`. */
  function AddColorAt(t: Tree, h: nat, c: Color, level: nat): (r: Tree)
    requires WellFormed(t) && h < |t.nodes|
    ensures WellFormed(r) && |t.nodes| <= |r.nodes|
    decreases if level < MAX_DEPTH then MAX_DEPTH - level else 0
  {
    if level >= MAX_DEPTH then
      var nodes := t.nodes[h := Absorb(t.nodes[h], c)];
      SameShapeWellFormed(t.nodes, nodes);
      t.(nodes := nodes)
    else
      var index := ColorIndexForLevel(c, level);
      var t1 := if t.nodes[h].children[index].None? then Grow(t, h, index, level) else t;
      AddColorAt(t1, t1.nodes[h].children[index].value, c, level + 1)
  }

  /** `OctreeQuantizer::add_color`: insertion starts at the root, level 0. */
  function AddColor(t: Tree, c: Color): (r: Tree)
    requires WellFormed(t) && ROOT < |t.nodes|
    ensures WellFormed(r) && ROOT < |r.nodes|
  {
    AddColorAt(t, ROOT, c, 0)
  }

  // ---------------------------------------------------------------------
  // Pixel totals
  // ---------------------------------------------------------------------

  /** The sum of `pixel_count` over every node of the arena. */
  function TotalPixels(nodes: seq<Node>): int
  {
    if nodes == [] then 0 else TotalPixels(nodes[..|nodes| - 1]) + nodes[|nodes| - 1].pixelCount
  }

  lemma TotalPixelsAppend(nodes: seq<Node>, n: Node)
    ensures TotalPixels(nodes + [n]) == TotalPixels(nodes) + n.pixelCount
  {
    assert (nodes + [n])[..|nodes|] == nodes;
  }

  lemma {:induction false} TotalPixelsUpdate(nodes: seq<Node>, h: nat, n: Node)
    requires h < |nodes|
    ensures TotalPixels(nodes[h := n]) == TotalPixels(nodes) - nodes[h].pixelCount + n.pixelCount
  {
    var last := |nodes| - 1;
    if h == last {
      assert nodes[h := n][..last] == nodes[..last];
    } else {
      assert nodes[h := n][..last] == nodes[..last][h := n];
      TotalPixelsUpdate(nodes[..last], h, n);
    }
  }

  lemma GrowKeepsTotal(t: Tree, h: nat, index: nat, level: nat)
    requires WellFormed(t) && h < |t.nodes| && index < FANOUT
    requires t.nodes[h].children[index].None?
    ensures TotalPixels(Grow(t, h, index, level).nodes) == TotalPixels(t.nodes)
  {
    var grown := t.nodes + [EmptyNode()];
    var n := grown[h];
    TotalPixelsAppend(t.nodes, EmptyNode());
    TotalPixelsUpdate(grown, h, n.(children := n.children[index := Some(|t.nodes|)]));
  }

  /** Each insertion adds exactly one pixel to the tree's total. */
  lemma {:induction false} AddColorCountsOnePixel(t: Tree, h: nat, c: Color, level: nat)
    requires WellFormed(t) && h < |t.nodes|
    ensures TotalPixels(AddColorAt(t, h, c, level).nodes) == TotalPixels(t.nodes) + 1
    decreases if level < MAX_DEPTH then MAX_DEPTH - level else 0
  {
    if level >= MAX_DEPTH {
      TotalPixelsUpdate(t.nodes, h, Absorb(t.nodes[h], c));
    } else {
      var index := ColorIndexForLevel(c, level);
      var t1 := t;
      if t.nodes[h].children[index].None? {
        t1 := Grow(t, h, index, level);
        GrowKeepsTotal(t, h, index, level);
      }
      var child := t1.nodes[h].children[index].value;
      assert AddColorAt(t, h, c, level) == AddColorAt(t1, child, c, level + 1);
      AddColorCountsOnePixel(t1, child, c, level + 1);
    }
  }

  // ---------------------------------------------------------------------
  // What an insertion changes
  // ---------------------------------------------------------------------

  /** `b` extends `a`: nodes are only appended, and no filled slot of `a`
      changes in `b` (an existing child is never replaced). */
  ghost predicate ChildrenExtend(a: seq<Node>, b: seq<Node>)
  {
    |a| <= |b| && forall x :: 0 <= x < |a| ==> SlotsExtend(a[x].children, b[x].children)
  }

  /** Every filled slot of `s` holds the same child in `t`. */
  ghost predicate SlotsExtend(s: seq<Option<nat>>, t: seq<Option<nat>>)
  {
    |s| == |t| && forall i :: 0 <= i < |s| && s[i].Some? ==> t[i] == s[i]
  }

  /** The registry only grows by appending handles of nodes new in this step
      (handles from `firstNew` on), and `levels[MAX_DEPTH - 1]` never changes. */
  ghost predicate RegistryExtends(a: seq<seq<nat>>, b: seq<seq<nat>>, firstNew: nat)
  {
    && |a| == |b| == MAX_DEPTH
    && b[MAX_DEPTH - 1] == a[MAX_DEPTH - 1]
    && forall d :: 0 <= d < MAX_DEPTH ==>
         && |a[d]| <= |b[d]| && b[d][..|a[d]|] == a[d]
         && forall k :: |a[d]| <= k < |b[d]| ==> b[d][k] >= firstNew
  }

  /** The node at handle `y` before a step, an empty node if `y` is new. */
  function Prior(nodes: seq<Node>, y: nat): Node
  {
    if y < |nodes| then nodes[y] else EmptyNode()
  }

  predicate SameData(a: Node, b: Node)
  {
    a.color == b.color && a.pixelCount == b.pixelCount && a.paletteIndex == b.paletteIndex
  }

  /** From `before` to `after`, node `x` absorbed colour `c` and every other
      node, old or new, kept the data it had (new nodes: that of an empty node). */
  ghost predicate AbsorbedOnlyAt(before: seq<Node>, after: seq<Node>, x: nat, c: Color)
  {
    && |before| <= |after| && x < |after|
    && after[x].color == AddRgb(Prior(before, x).color, c)
    && after[x].pixelCount == Prior(before, x).pixelCount + 1
    && after[x].paletteIndex == Prior(before, x).paletteIndex
    && forall y :: 0 <= y < |after| && y != x ==> SameData(after[y], Prior(before, y))
  }

  lemma GrowKeepsData(t: Tree, h: nat, index: nat, level: nat, y: nat)
    requires WellFormed(t) && h < |t.nodes| && index < FANOUT
    requires t.nodes[h].children[index].None?
    ensures SameData(Prior(Grow(t, h, index, level).nodes, y), Prior(t.nodes, y))
  {
  }

  /** Insertion deposits the colour in exactly one node and changes the data
      of no other node; new nodes stay empty unless they are that node. */
  lemma {:induction false} AddColorAbsorbsOnce(t: Tree, h: nat, c: Color, level: nat) returns (x: nat)
    requires WellFormed(t) && h < |t.nodes|
    ensures AbsorbedOnlyAt(t.nodes, AddColorAt(t, h, c, level).nodes, x, c)
    decreases if level < MAX_DEPTH then MAX_DEPTH - level else 0
  {
    if level >= MAX_DEPTH {
      x := h;
    } else {
      var index := ColorIndexForLevel(c, level);
      var t1 := if t.nodes[h].children[index].None? then Grow(t, h, index, level) else t;
      var r := AddColorAt(t1, t1.nodes[h].children[index].value, c, level + 1);
      x := AddColorAbsorbsOnce(t1, t1.nodes[h].children[index].value, c, level + 1);
      if t.nodes[h].children[index].None? {
        forall y | 0 <= y < |r.nodes|
          ensures SameData(Prior(t1.nodes, y), Prior(t.nodes, y))
        {
          GrowKeepsData(t, h, index, level, y);
        }
        GrowKeepsData(t, h, index, level, x);
      }
    }
  }

  /** After an insertion every slot on the colour's walk from `h` is filled,
      and the node the walk ends in has absorbed one more pixel. */
  lemma {:induction false} AddColorFillsPath(t: Tree, h: nat, c: Color, level: nat)
    requires WellFormed(t) && h < |t.nodes|
    ensures var r := AddColorAt(t, h, c, level);
      var p := PathNode(r.nodes, h, c, level);
      p.Some? && r.nodes[p.value].pixelCount == Prior(t.nodes, p.value).pixelCount + 1
    decreases if level < MAX_DEPTH then MAX_DEPTH - level else 0, 1
  {
    if level < MAX_DEPTH {
      var index := ColorIndexForLevel(c, level);
      if t.nodes[h].children[index].None? {
        var t1 := Grow(t, h, index, level);
        assert AddColorAt(t1, |t.nodes|, c, level + 1) == AddColorAt(t, h, c, level);
        GrowKeepsCounts(t, h, index, level);
        FillsPathStep(t, t1, h, |t.nodes|, c, level);
      } else {
        var child := t.nodes[h].children[index].value;
        assert AddColorAt(t, child, c, level + 1) == AddColorAt(t, h, c, level);
        FillsPathStep(t, t, h, child, c, level);
      }
    } else {
      var r := AddColorAt(t, h, c, level);
      assert r.nodes == t.nodes[h := Absorb(t.nodes[h], c)];
      assert PathNode(r.nodes, h, c, level) == Some(h);
    }
  }

  /** One step of `AddColorFillsPath`: the walk from `h` goes through the
      child in the colour's slot of `t1` (`t` itself, or `t` with that slot
      grown), so what holds of the walk from the child holds of `h`. */
  lemma {:induction false} FillsPathStep(t: Tree, t1: Tree, h: nat, child: nat, c: Color, level: nat)
    requires WellFormed(t) && h < |t.nodes|
    requires WellFormed(t1) && h < |t1.nodes| && child < |t1.nodes| && level < MAX_DEPTH
    requires t1.nodes[h].children[ColorIndexForLevel(c, level)] == Some(child)
    requires forall y: nat :: Prior(t1.nodes, y).pixelCount == Prior(t.nodes, y).pixelCount
    requires AddColorAt(t1, child, c, level + 1) == AddColorAt(t, h, c, level)
    ensures var r := AddColorAt(t, h, c, level);
      var p := PathNode(r.nodes, h, c, level);
      p.Some? && r.nodes[p.value].pixelCount == Prior(t.nodes, p.value).pixelCount + 1
    decreases MAX_DEPTH - level, 0
  {
    AddColorFillsPath(t1, child, c, level + 1);
    var r := AddColorAt(t1, child, c, level + 1);
    AddColorKeepsSlot(t1, child, c, level + 1, h, ColorIndexForLevel(c, level));
    PathNodeStep(r.nodes, h, c, level, child);
    var x := PathNode(r.nodes, child, c, level + 1).value;
    assert r.nodes[x].pixelCount == Prior(t.nodes, x).pixelCount + 1;
  }

  /** Growing a slot changes no pixel count, old or new. */
  lemma GrowKeepsCounts(t: Tree, h: nat, index: nat, level: nat)
    requires WellFormed(t) && h < |t.nodes| && index < FANOUT
    requires t.nodes[h].children[index].None?
    ensures forall y: nat :: Prior(Grow(t, h, index, level).nodes, y).pixelCount == Prior(t.nodes, y).pixelCount
  {
    forall y: nat ensures Prior(Grow(t, h, index, level).nodes, y).pixelCount == Prior(t.nodes, y).pixelCount {
      GrowKeepsData(t, h, index, level, y);
    }
  }

  /** The node that absorbs the colour is the one its slot indices lead to at
      `MAX_DEPTH`, and every slot on that walk is filled afterwards. */
  lemma AddColorAbsorbsOnPath(t: Tree, h: nat, c: Color, level: nat) returns (x: nat)
    requires WellFormed(t) && h < |t.nodes|
    ensures AbsorbedOnlyAt(t.nodes, AddColorAt(t, h, c, level).nodes, x, c)
    ensures PathNode(AddColorAt(t, h, c, level).nodes, h, c, level) == Some(x)
  {
    x := AddColorAbsorbsOnce(t, h, c, level);
    AddColorFillsPath(t, h, c, level);
  }

  /** One step of the walk: from `h` the walk goes on from its child in the
      colour's slot. */
  lemma PathNodeStep(nodes: seq<Node>, h: nat, c: Color, level: nat, child: nat)
    requires WellFormedNodes(nodes) && h < |nodes| && level < MAX_DEPTH
    requires nodes[h].children[ColorIndexForLevel(c, level)] == Some(child)
    ensures child < |nodes| && PathNode(nodes, h, c, level) == PathNode(nodes, child, c, level + 1)
  {
  }

  /** A filled slot keeps its child through an insertion. */
  lemma AddColorKeepsSlot(t: Tree, h: nat, c: Color, level: nat, y: nat, i: nat)
    requires WellFormed(t) && h < |t.nodes| && y < |t.nodes| && i < FANOUT
    requires t.nodes[y].children[i].Some?
    ensures AddColorAt(t, h, c, level).nodes[y].children[i] == t.nodes[y].children[i]
  {
    AddColorKeepsChildren(t, h, c, level);
    assert SlotsExtend(t.nodes[y].children, AddColorAt(t, h, c, level).nodes[y].children);
  }

  /** Insertion never replaces an existing child: it only fills empty slots
      and appends nodes. */
  lemma {:induction false} AddColorKeepsChildren(t: Tree, h: nat, c: Color, level: nat)
    requires WellFormed(t) && h < |t.nodes|
    ensures ChildrenExtend(t.nodes, AddColorAt(t, h, c, level).nodes)
    decreases if level < MAX_DEPTH then MAX_DEPTH - level else 0
  {
    if level < MAX_DEPTH {
      var index := ColorIndexForLevel(c, level);
      if t.nodes[h].children[index].None? {
        var t1 := Grow(t, h, index, level);
        var child := t1.nodes[h].children[index].value;
        var r := AddColorAt(t1, child, c, level + 1);
        assert r == AddColorAt(t, h, c, level);
        AddColorKeepsChildren(t1, child, c, level + 1);
        GrowKeepsChildren(t, h, index, level);
        ChildrenExtendTrans(t.nodes, t1.nodes, r.nodes);
      } else {
        var child := t.nodes[h].children[index].value;
        assert AddColorAt(t, h, c, level) == AddColorAt(t, child, c, level + 1);
        AddColorKeepsChildren(t, child, c, level + 1);
      }
    }
  }

  /** Insertion only appends to the registry, and only handles of nodes it
      created; `levels[MAX_DEPTH - 1]` stays as it was. */
  lemma {:induction false} AddColorExtendsRegistry(t: Tree, h: nat, c: Color, level: nat)
    requires WellFormed(t) && h < |t.nodes|
    ensures RegistryExtends(t.levels, AddColorAt(t, h, c, level).levels, |t.nodes|)
    decreases if level < MAX_DEPTH then MAX_DEPTH - level else 0
  {
    if level < MAX_DEPTH {
      var index := ColorIndexForLevel(c, level);
      if t.nodes[h].children[index].None? {
        var t1 := Grow(t, h, index, level);
        var child := t1.nodes[h].children[index].value;
        var r := AddColorAt(t1, child, c, level + 1);
        assert r == AddColorAt(t, h, c, level);
        AddColorExtendsRegistry(t1, child, c, level + 1);
        GrowExtendsRegistry(t, h, index, level);
        RegistryExtendsTrans(t.levels, t1.levels, r.levels, |t.nodes|, |t1.nodes|);
      } else {
        var child := t.nodes[h].children[index].value;
        assert AddColorAt(t, h, c, level) == AddColorAt(t, child, c, level + 1);
        AddColorExtendsRegistry(t, child, c, level + 1);
      }
    }
  }

  lemma GrowKeepsChildren(t: Tree, h: nat, index: nat, level: nat)
    requires WellFormed(t) && h < |t.nodes| && index < FANOUT
    requires t.nodes[h].children[index].None?
    ensures ChildrenExtend(t.nodes, Grow(t, h, index, level).nodes)
  {
  }

  lemma GrowExtendsRegistry(t: Tree, h: nat, index: nat, level: nat)
    requires WellFormed(t) && h < |t.nodes| && index < FANOUT
    requires t.nodes[h].children[index].None?
    ensures RegistryExtends(t.levels, Grow(t, h, index, level).levels, |t.nodes|)
  {
  }

  lemma ChildrenExtendTrans(a: seq<Node>, b: seq<Node>, c: seq<Node>)
    requires ChildrenExtend(a, b) && ChildrenExtend(b, c)
    ensures ChildrenExtend(a, c)
  {
    forall x | 0 <= x < |a|
      ensures SlotsExtend(a[x].children, c[x].children)
    {
      assert SlotsExtend(a[x].children, b[x].children) && SlotsExtend(b[x].children, c[x].children);
    }
  }

  lemma RegistryExtendsTrans(a: seq<seq<nat>>, b: seq<seq<nat>>, c: seq<seq<nat>>, na: nat, nb: nat)
    requires RegistryExtends(a, b, na) && RegistryExtends(b, c, nb) && na <= nb
    ensures RegistryExtends(a, c, na)
  {
    forall d | 0 <= d < MAX_DEPTH
      ensures c[d][..|a[d]|] == a[d]
    {
      assert c[d][..|a[d]|] == c[d][..|b[d]|][..|a[d]|];
    }
  }

  /** A newly created node is empty and registered at the end of
      `levels[level]` exactly when `level < MAX_DEPTH - 1`; the rest of the
      registry is left as it was. */
  lemma NewNodeRegisters(t: Tree, level: nat)
    requires WellFormed(t)
    ensures var r := NewNode(t, level);
      && r.nodes[|t.nodes|] == EmptyNode() && r.nodes[..|t.nodes|] == t.nodes
      && (forall d :: 0 <= d < MAX_DEPTH && d != level ==> r.levels[d] == t.levels[d])
      && (level < MAX_DEPTH - 1 ==> r.levels[level] == t.levels[level] + [|t.nodes|])
      && (level >= MAX_DEPTH - 1 ==> r.levels == t.levels)
  {
  }
}
