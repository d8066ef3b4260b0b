/** The `OctreeNode` record and the arena of nodes that stands for the pointer
    graph: a node is addressed by its handle, its index in the arena, and the
    root is handle 0. */
module Octree {
  import opened Colors

  datatype Option<T> = None | Some(value: T)

  /** The contract violations that the quantizer reports instead of undefined
      behaviour. */
  datatype Error = InconsistentTree | EmptyLeafAverage

  datatype Result<T> = Ok(value: T) | Err(error: Error)

  /** Number of child slots of a node (`children.resize(8)`). */
  const FANOUT: nat := 8

  const ROOT: nat := 0

  /** One node: `color` is the running colour sum, `children` the eight slots. */
  datatype Node = Node(color: Color, pixelCount: int, paletteIndex: int, children: seq<Option<nat>>)

  /** The arena of nodes together with the per-level registry `levels`. */
  datatype Tree = Tree(nodes: seq<Node>, levels: seq<seq<nat>>)

  /** A node as the constructor leaves it: zero sums, no pixels, palette index
      0 and eight empty slots. */
  function EmptyNode(): Node
  {
    Node(Rgb(0, 0, 0), 0, 0, seq(FANOUT, _ => None))
  }

  /** A node is a leaf exactly when it has absorbed pixels. */
  predicate IsLeaf(n: Node)
  {
    n.pixelCount > 0
  }

  /** Adds the red, green and blue channels of `b` to `a`; alpha stays. */
  function AddRgb(a: Color, b: Color): Color
  {
    Color(a.red + b.red, a.green + b.green, a.blue + b.blue, a.alpha)
  }

  /** The averaged colour of a node, with C++ integer division; dividing by a
      zero pixel count is reported as `EmptyLeafAverage`. */
  function GetColor(n: Node): (r: Result<Color>)
    ensures r.Ok? <==> n.pixelCount != 0
    ensures r.Ok? ==> r.value.alpha == 1
    ensures r.Ok? && IsLeaf(n) && n.color.red >= 0 ==>
              r.value.red * n.pixelCount <= n.color.red < r.value.red * n.pixelCount + n.pixelCount
    ensures r.Ok? && IsLeaf(n) && n.color.green >= 0 ==>
              r.value.green * n.pixelCount <= n.color.green < r.value.green * n.pixelCount + n.pixelCount
    ensures r.Ok? && IsLeaf(n) && n.color.blue >= 0 ==>
              r.value.blue * n.pixelCount <= n.color.blue < r.value.blue * n.pixelCount + n.pixelCount
  {
    if n.pixelCount == 0 then Err(EmptyLeafAverage)
    else Ok(Rgb(TruncDiv(n.color.red, n.pixelCount),
                TruncDiv(n.color.green, n.pixelCount),
                TruncDiv(n.color.blue, n.pixelCount)))
  }

  /** A sum of `count` 8-bit channel values. */
  predicate IsChannelSum(sum: int, count: int)
  {
    0 <= sum <= 255 * count
  }

  /** The average of pixel colours is itself a pixel colour. */
  lemma AverageIsPixel(n: Node)
    requires IsLeaf(n)
    requires IsChannelSum(n.color.red, n.pixelCount)
    requires IsChannelSum(n.color.green, n.pixelCount)
    requires IsChannelSum(n.color.blue, n.pixelCount)
    ensures GetColor(n).Ok? && IsPixel(GetColor(n).value)
  {
    var c, p := GetColor(n).value, n.pixelCount;
    AverageBound(n.color.red, p, c.red);
    AverageBound(n.color.green, p, c.green);
    AverageBound(n.color.blue, p, c.blue);
  }

  lemma AverageBound(sum: int, count: int, q: int)
    requires count > 0 && 0 <= sum <= 255 * count
    requires q * count <= sum < q * count + count
    ensures 0 <= q <= 255
  {
  }

  // ---------------------------------------------------------------------
  // Shape of the arena
  // ---------------------------------------------------------------------

  /** Slots `i1` of `h1` and `i2` of `h2` hold the same child. */
  predicate SameChild(nodes: seq<Node>, h1: nat, i1: nat, h2: nat, i2: nat)
  {
    && h1 < |nodes| && i1 < |nodes[h1].children|
    && h2 < |nodes| && i2 < |nodes[h2].children|
    && nodes[h1].children[i1].Some? && nodes[h1].children[i1] == nodes[h2].children[i2]
  }

  /** Every node has at most one parent, through one slot: the arena is a
      forest. (The trigger keeps this fact from being used unless a proof asks
      about two particular slots.) */
  ghost predicate UniqueParents(nodes: seq<Node>)
  {
    forall h1: nat, i1: nat, h2: nat, i2: nat {:trigger SameChild(nodes, h1, i1, h2, i2)} ::
      SameChild(nodes, h1, i1, h2, i2) ==> h1 == h2 && i1 == i2
  }

  /** Every node has eight slots, every child was allocated after its parent,
      and every node has at most one parent. */
  ghost predicate WellFormedNodes(nodes: seq<Node>)
  {
    && (forall h :: 0 <= h < |nodes| ==> |nodes[h].children| == FANOUT)
    && (forall h, i :: 0 <= h < |nodes| && 0 <= i < FANOUT && nodes[h].children[i].Some? ==>
          h < nodes[h].children[i].value < |nodes|)
    && UniqueParents(nodes)
  }

  /** The quantizer's representation invariant. */
  ghost predicate WellFormed(t: Tree)
  {
    && WellFormedNodes(t.nodes)
    && |t.levels| == MAX_DEPTH
    && forall d, k :: 0 <= d < MAX_DEPTH && 0 <= k < |t.levels[d]| ==> t.levels[d][k] < |t.nodes|
  }

  /** `a` and `b` have the same nodes and the same child slots; only sums,
      counts and palette indices may differ. */
  ghost predicate SameShape(a: seq<Node>, b: seq<Node>)
  {
    |a| == |b| && forall h :: 0 <= h < |a| ==> a[h].children == b[h].children
  }

  lemma SameShapeWellFormed(a: seq<Node>, b: seq<Node>)
    requires WellFormedNodes(a) && SameShape(a, b)
    ensures WellFormedNodes(b)
  {
    assert forall h :: 0 <= h < |b| ==> b[h].children == a[h].children;
    forall h1: nat, i1: nat, h2: nat, i2: nat | SameChild(b, h1, i1, h2, i2)
      ensures h1 == h2 && i1 == i2
    {
      assert SameChild(a, h1, i1, h2, i2);
    }
  }

  // ---------------------------------------------------------------------
  // Subtrees
  // ---------------------------------------------------------------------

  /** `x` is `h` or a descendant of `h`. */
  ghost predicate InSubtree(nodes: seq<Node>, h: nat, x: nat)
    requires WellFormedNodes(nodes) && h < |nodes|
    decreases |nodes| - h
  {
    x == h ||
    exists i :: 0 <= i < FANOUT && nodes[h].children[i].Some? &&
      InSubtree(nodes, nodes[h].children[i].value, x)
  }

  /** Descendants have larger handles. */
  lemma {:induction false} SubtreeBounds(nodes: seq<Node>, h: nat, x: nat)
    requires WellFormedNodes(nodes) && h < |nodes|
    requires InSubtree(nodes, h, x)
    ensures h <= x < |nodes|
    decreases |nodes| - h
  {
    if x != h {
      var i :| 0 <= i < FANOUT && nodes[h].children[i].Some? &&
        InSubtree(nodes, nodes[h].children[i].value, x);
      SubtreeBounds(nodes, nodes[h].children[i].value, x);
    }
  }

  /** A proper descendant hangs from some node of the same subtree. */
  lemma {:induction false} ParentInSubtree(nodes: seq<Node>, a: nat, x: nat)
    returns (p: nat, s: nat)
    requires WellFormedNodes(nodes) && a < |nodes|
    requires InSubtree(nodes, a, x) && x != a
    ensures p < |nodes| && s < FANOUT
    ensures InSubtree(nodes, a, p) && nodes[p].children[s] == Some(x)
    decreases |nodes| - a
  {
    var i :| 0 <= i < FANOUT && nodes[a].children[i].Some? &&
      InSubtree(nodes, nodes[a].children[i].value, x);
    var c := nodes[a].children[i].value;
    if x == c {
      p, s := a, i;
    } else {
      p, s := ParentInSubtree(nodes, c, x);
      assert InSubtree(nodes, a, p);
    }
  }

  /** Two subtrees that share a node are nested. */
  lemma {:induction false} SubtreesNested(nodes: seq<Node>, a: nat, b: nat, x: nat)
    requires WellFormedNodes(nodes) && a < |nodes| && b < |nodes|
    requires InSubtree(nodes, a, x) && InSubtree(nodes, b, x)
    ensures InSubtree(nodes, a, b) || InSubtree(nodes, b, a)
    decreases x
  {
    if x != a && x != b {
      var p1, s1 := ParentInSubtree(nodes, a, x);
      var p2, s2 := ParentInSubtree(nodes, b, x);
      assert SameChild(nodes, p1, s1, p2, s2);
      SubtreesNested(nodes, a, b, p1);
    }
  }

  /** The subtrees under two different slots of one node are disjoint. */
  lemma SiblingsDisjoint(nodes: seq<Node>, h: nat, i: nat, j: nat, x: nat)
    requires WellFormedNodes(nodes) && h < |nodes|
    requires i < FANOUT && j < FANOUT && i != j
    requires nodes[h].children[i].Some? && nodes[h].children[j].Some?
    ensures nodes[h].children[i].value < |nodes| && nodes[h].children[j].value < |nodes|
    ensures !(InSubtree(nodes, nodes[h].children[i].value, x) && InSubtree(nodes, nodes[h].children[j].value, x))
  {
    var ci, cj := nodes[h].children[i].value, nodes[h].children[j].value;
    if InSubtree(nodes, ci, x) && InSubtree(nodes, cj, x) {
      assert ci != cj by {
        if ci == cj {
          assert SameChild(nodes, h, i, h, j);
        }
      }
      SubtreesNested(nodes, ci, cj, x);
      if InSubtree(nodes, ci, cj) {
        var p, s := ParentInSubtree(nodes, ci, cj);
        assert SameChild(nodes, p, s, h, j);
        SubtreeBounds(nodes, ci, p);
      } else {
        var p, s := ParentInSubtree(nodes, cj, ci);
        assert SameChild(nodes, p, s, h, i);
        SubtreeBounds(nodes, cj, p);
      }
    }
  }
}
