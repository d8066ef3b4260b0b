# Octree colour quantizer — a verified Dafny model

This project models the octree colour quantizer of `ConsoleApplication3.cpp`.

**What the quantizer does**
- `add_color` inserts every pixel colour into an octree.
- At depth `d`, bit `7 - d` of red, green and blue selects one of eight children (`get_color_index_for_level`).
- A colour's channel sums and pixel count land in a terminal node at depth `MAX_DEPTH = 8`.
- Every node created at a level below `MAX_DEPTH - 1` is also recorded in a per-level registry (`levels`).

**`make_palette(color_count)`**
1. It counts the leaves.
2. It walks the registry from the deepest level upwards.
3. At each registered node it calls `remove_leaves`, which folds the children's sums and counts into the node.
4. It stops as soon as the running leaf count is at most `color_count`.
5. It walks `get_leaves()`, giving the first `color_count` leaves palette indices `0, 1, …` and appending their averaged colours (`get_color`) to the palette.

**Lookup**
- `get_palette_index` descends the tree by the colour's bits to a leaf.
- When the colour's slot is empty, it falls back to the lowest filled slot.

## How the model is built

**Nodes.**
- The heap of `OctreeNode` objects becomes an arena: a `seq<Node>` indexed by handles.
- The root is handle `0` (`Octree.ROOT`).
- `Node` holds:
  - the colour sum (`Colors.Color`);
  - `pixelCount`;
  - `paletteIndex`;
  - eight child slots of type `Option<nat>` (a null pointer is `None`).

**Well-formedness.** `Octree.WellFormed` states that:
- every node has eight slots;
- every child handle is greater than its parent's handle and inside the arena;
- no node is the child of two slots;
- the registry has `MAX_DEPTH` levels of valid handles.

The "child handle is greater" rule gives termination of every descent. The "no shared child" rule gives the absence of duplicates in `get_leaf_nodes`.

**Pure and imperative layers.**
- The recursive and loop-based code of the source is first given as pure specification functions, one module per concern:
  - `Colors`: the `Color` class, the bit index and C++ division;
  - `Octree`: nodes, `get_color`, well-formedness and subtrees;
  - `Leaves`: `get_leaf_nodes`;
  - `Insertion`: the node constructor, `add_color`, `add_level_node`;
  - `Pruning`: `remove_leaves`, `get_nodes_pixel_count`, the reduction loop;
  - `Lookup`: `get_palette_index`;
  - `Palette`: `make_palette`;
  - `Reachable`: the states the public operations reach, and what `get_palette_index` answers in them.
- `Quantizer.OctreeQuantizer` is a class that holds the arena (`nodes`) and the registry (`levels`) as fields.
- Its methods update those fields in place with the loops of the source, and each method is proved equal to the corresponding specification function.
- The `OctreeNode` methods become methods of that class that take the handle of the node they act on: node objects are updated in place in the arena.

**Arithmetic.**
- Integers are unbounded.
- `get_color` uses C++ truncating division (`Colors.TruncDiv`).
- It reports `Err(EmptyLeafAverage)` where the source would divide by zero.
- `0x80 >> level` is modelled as the bit test `Colors.MaskHit`, which is false for `level >= 8`.

**Lookup dead end.** At a node that is not a leaf and has no child at all, `get_palette_index` falls off the end of a non-void function. The model returns `Err(InconsistentTree)` there.

**Behaviour of the source that the lemmas make explicit**
- **The root shares `levels[0]` with its children.** The root is registered in `levels[0]`, and so are its depth-1 children: a node created by `add_color` at `level` is registered at `levels[level]`, one above its own depth. `levels[d]` therefore holds the nodes of depth `d + 1`, and `levels[MAX_DEPTH - 1]` stays empty (`Insertion.NewNodeRegisters`, `Insertion.AddColorExtendsRegistry`).
- **Leaves left over by the root's collapse look up entry 0.** The root is `levels[0][0]`, so it is collapsed before its depth-1 children, while their counts are still 0. That lowers `leaf_count` by the root's children minus one although no leaf was merged, so the reduction can stop with more leaves than `color_count`. The palette loop hands indices only to the first `color_count` leaves; the others keep the index 0 the node constructor gave them, and their colours look up palette entry 0 (`Palette.MakePaletteSpec`: nodes the loop does not reach keep the reduction's state; `Palette.Unassigned` holds before the first `make_palette`). For example, insert white three times and black once, then call `make_palette(1)`. Levels 6 down to 1 are collapsed without effect on the count, which stays 2. Collapsing the root at level 0 then brings it to 1 and the reduction stops. The leaves are black's and white's depth-2 nodes, in that order. The palette is black alone, and white looks up index 0, which is black.
- **One collapse even below target.** The reduction compares the leaf count only after each `remove_leaves`. So the first node of the deepest non-empty level is collapsed even when the leaf count is already at or below `color_count` (`Pruning.PruneCollapsesBelowTarget`).
- **The palette can come out short.** A collapse lowers the leaf count by its number of children minus one, so it can overshoot the target. `make_palette` then returns fewer than `color_count` entries, although the tree had at least that many leaves. For example, with 16 leaves and `color_count = 16`, if the first node of the deepest non-empty registry level has two leaf children, it is still collapsed, which leaves 15 leaves and a 15-entry palette. A palette of exactly `color_count` entries is therefore not promised; `Palette.MakePaletteSpec` states the length as `min(color_count, leaves after the reduction)`.
- **Collapsed children stay reachable.** `remove_leaves` keeps the child pointers. A collapsed node becomes a leaf (`Pruning.CollapseMakesLeaf`), so `get_leaf_nodes` and `get_palette_index` stop there, but its children stay in place.
- **A root that became a leaf answers index 0.** When the root itself became a leaf, `get_palette_index` answers with the root's index. That is 0 as set by the constructor, not an index handed out by the palette loop. It still lies inside the palette, because the palette is not empty then (`Reachable.RootIndexZero`, `Reachable.LookupInPalette`).

## Model

| member | source | states |
|---|---|---|
| Colors.ColorIndexForLevel | ConsoleApplication3.cpp:134-144 | the child index is below 8; its bits 2, 1, 0 are bit `7 - level` of red, green, blue; from level 8 on (mask shifted out) it is 0 |
| Colors.IndexCodesBits | ConsoleApplication3.cpp:134-144 | two colours get the same index at a level if and only if their tested red, green and blue bits agree |
| Colors.SharedPrefixSamePath | ConsoleApplication3.cpp:134-144 | colours whose channels agree on their top `k` bits take the same child at every level below `k`, and for pixel colours the converse holds |
| Colors.TruncDiv | ConsoleApplication3.cpp:146-151 | C++ `/` on `int` rounds toward zero: for a positive divisor the quotient is the floor of the exact quotient when the dividend is non-negative and its ceiling when the dividend is non-positive |
| Octree.GetColor | ConsoleApplication3.cpp:146-151 | averaging succeeds exactly when the pixel count is non-zero; the result has alpha 1 and each channel is the channel sum divided by the count, bounded by the exact average |
| Octree.AverageIsPixel | ConsoleApplication3.cpp:146-151 | the average of channel sums of `n` pixel colours over `n` is again a colour with channels in 0..255 |
| Leaves.LeafNodesBelow | ConsoleApplication3.cpp:64-77 | every handle `get_leaf_nodes` lists is a leaf inside the arena, strictly below the node |
| Leaves.LeafNodesExposed | ConsoleApplication3.cpp:64-77 | a handle is listed if and only if it is a leaf reachable from the node through non-leaf nodes only |
| Leaves.LeafNodesDistinct | ConsoleApplication3.cpp:64-77 | the list has no duplicates |
| Leaves.LeafNodesFromDistinct | ConsoleApplication3.cpp:66-75 | the leaves collected from slots `i..7` are distinct |
| Insertion.NewNode | ConsoleApplication3.cpp:51-58 | a node appended to a well-formed tree keeps the tree well-formed |
| Insertion.NewNodeRegisters | ConsoleApplication3.cpp:51-58 | the new node is empty with eight null slots; it is appended to `levels[level]` exactly when `level < MAX_DEPTH - 1`; no other level and no old node changes |
| Insertion.Grow | ConsoleApplication3.cpp:97-100 | filling an empty slot with a new node keeps the tree well-formed and points that slot at the new handle |
| Insertion.AddColorAt | ConsoleApplication3.cpp:89-102 | inserting keeps the tree well-formed and only appends nodes |
| Insertion.AddColorCountsOnePixel | ConsoleApplication3.cpp:89-102 | one insertion adds exactly one pixel to the total of all pixel counts |
| Insertion.AddColorAbsorbsOnce | ConsoleApplication3.cpp:89-102 | exactly one node absorbs the colour (sums plus the colour, count plus one); every other old node keeps its data and every new node is empty (which node it is: `Insertion.AddColorAbsorbsOnPath`) |
| Insertion.PathNode | ConsoleApplication3.cpp:90-101 | the node the colour's slot indices lead to from a node at `MAX_DEPTH`, if every slot on the way is filled; it is never a smaller handle than the start, and a strictly larger one when the walk starts above `MAX_DEPTH` |
| Insertion.GrowNodes | ConsoleApplication3.cpp:99-100 | growing a slot appends an empty node, points the slot at it and changes no other node |
| Insertion.AddColorFillsPath | ConsoleApplication3.cpp:89-102 | after an insertion every slot on the colour's walk is filled, and the node at its end has one pixel more than before |
| Insertion.AddColorAbsorbsOnPath | ConsoleApplication3.cpp:89-102 | the one node that absorbs the colour is the end of the colour's walk from the start node |
| Insertion.AddColorKeepsChildren | ConsoleApplication3.cpp:97-101 | no filled child slot is ever replaced; nodes are only appended |
| Insertion.AddColorExtendsRegistry | ConsoleApplication3.cpp:97-101 | the registry only grows, by appending handles of nodes created in this insertion, and `levels[MAX_DEPTH - 1]` never changes |
| Insertion.AddColor | ConsoleApplication3.cpp:169-171 | inserting from the root keeps the tree well-formed with the root in place |
| Pruning.CollapseAt | ConsoleApplication3.cpp:118-131 | folding the children into a node keeps well-formedness and every child slot |
| Pruning.ChildCountBounds | ConsoleApplication3.cpp:118-131 | the number of children counted is at most the number of slots, and zero exactly when all slots are null |
| Pruning.CollapseMakesLeaf | ConsoleApplication3.cpp:118-131 | with non-negative counts, a node with a leaf child becomes a leaf when collapsed |
| Pruning.ChildPixelSumAtLeast | ConsoleApplication3.cpp:79-87 | with non-negative counts, the children's pixel sum is at least any one child's count |
| Pruning.PruneNodes | ConsoleApplication3.cpp:179-183 | the inner loop keeps the tree well-formed, the child slots and the registry |
| Pruning.PruneNodesStep | ConsoleApplication3.cpp:179-183 | one step collapses the current node and subtracts `children - 1`; it stops there exactly when the count is at most the target |
| Pruning.PruneFrom | ConsoleApplication3.cpp:177-188 | the reduction keeps the tree well-formed and every child slot |
| Pruning.PruneKeepsStructure | ConsoleApplication3.cpp:177-188 | the reduction changes no child slot and no palette index, and only ever empties registry levels |
| Pruning.PruneReachesTarget | ConsoleApplication3.cpp:177-188 | if the reduction ends above the target, every registry level it passed has been cleared |
| Pruning.PruneStopLevel | ConsoleApplication3.cpp:177-188 | the reduction stops at some level `s` (or runs out, `s = -1`): every level deeper than `s` ends up empty, `s` and every shallower level are as before, and when `s >= 0` level `s` was non-empty and the count is at most the target |
| Pruning.PruneSkipsEmpty | ConsoleApplication3.cpp:177-178 | empty registry levels are skipped without effect |
| Pruning.PruneCollapsesBelowTarget | ConsoleApplication3.cpp:177-185 | with the count already at most the target (below it, or equal to it with a first node that has a child), the reduction still collapses the first node of the deepest non-empty level, subtracts its children minus one, and then stops |
| Pruning.CollapseKeepsIndices | ConsoleApplication3.cpp:118-131 | collapsing changes no palette index |
| Lookup.FirstChildSlot | ConsoleApplication3.cpp:111-114 | the fallback picks the lowest filled slot: all slots before it are null, and slot 8 means none |
| Lookup.LookupReachesLeaf | ConsoleApplication3.cpp:104-116 | a successful lookup answers with the palette index of the node itself, if a leaf, or of a leaf that `get_leaf_nodes` lists for it |
| Lookup.LookupSucceeds | ConsoleApplication3.cpp:104-116 | in a tree where every non-leaf has a child, the lookup always answers |
| Lookup.DeadEndFails | ConsoleApplication3.cpp:110-116 | a non-leaf without children makes the lookup fail with `InconsistentTree` |
| Palette.AssignFrom | ConsoleApplication3.cpp:189-197 | the palette loop changes no child slot |
| Palette.AssignFromPalette | ConsoleApplication3.cpp:189-197 | the loop appends the averaged colours of the first `min(color_count, leaves)` leaves, in list order |
| Palette.AssignFromNodes | ConsoleApplication3.cpp:189-197 | the `k`-th of those leaves gets palette index `k`; every other node is unchanged |
| Palette.AssignAll | ConsoleApplication3.cpp:189-197 | the loop over `get_leaves()` changes no child slot |
| Palette.PrunedLeaves | ConsoleApplication3.cpp:189 | `get_leaves()` after the reduction lists distinct leaves |
| Palette.MakePalette | ConsoleApplication3.cpp:173-198 | `make_palette` keeps the tree well-formed and every child slot |
| Palette.MakePaletteSpec | ConsoleApplication3.cpp:173-198 | the palette has `min(color_count, leaves)` entries (none for `color_count <= 0`); entry `i` is the average of the `i`-th leaf, which gets index `i`; every other node and the registry are as the reduction left them |
| Reachable.Initial | ConsoleApplication3.cpp:155-159 | the state the constructor leaves is a well-formed tree with the root in place |
| Reachable.AddColorNoDeadEnds | ConsoleApplication3.cpp:89-102 | an insertion leaves no node that is neither a leaf nor has a child, when its start node was the only candidate |
| Reachable.AddColorPopulates | ConsoleApplication3.cpp:169-171 | `add_color` on a tree whose only possible dead end is the root gives a populated tree: non-negative counts, no palette index handed out, no dead end, a root with a child |
| Reachable.AddColorKeepsCounts | ConsoleApplication3.cpp:89-102 | insertion keeps every pixel count non-negative and every palette index 0 |
| Reachable.FirstAddColorPopulates | ConsoleApplication3.cpp:155-171 | the constructor followed by one `add_color` gives a populated tree |
| Reachable.AddColorKeepsPopulated | ConsoleApplication3.cpp:169-171 | every further `add_color` keeps the tree populated |
| Reachable.AddColorKeepsEarlierData | ConsoleApplication3.cpp:89-102 | an insertion from a node changes the data of no node with a smaller handle |
| Reachable.AddColorThenLookup | ConsoleApplication3.cpp:89-116 | after inserting a colour from a node, looking the same colour up from that node answers with the palette index of the end of its walk, provided no leaf on the walk stops the lookup early |
| Reachable.AddColorRoundTrip | ConsoleApplication3.cpp:169-201 | `add_color` then `get_palette_index` of the same colour answers with the palette index of the one node that absorbed it, provided no leaf on its walk |
| Reachable.CollapseKeepsNoDeadEnds | ConsoleApplication3.cpp:118-131 | `remove_leaves` keeps counts non-negative and creates no dead end |
| Reachable.PruneNodesKeepsNoDeadEnds | ConsoleApplication3.cpp:179-183 | the inner reduction loop keeps counts non-negative and creates no dead end |
| Reachable.PruneKeepsNoDeadEnds | ConsoleApplication3.cpp:177-188 | the whole reduction keeps counts non-negative and creates no dead end |
| Reachable.AssignFromSameCounts | ConsoleApplication3.cpp:189-197 | the palette loop changes no pixel count and no child slot |
| Reachable.SameCountsNoDeadEnds | ConsoleApplication3.cpp:189-197 | trees with the same counts and slots have the same dead ends |
| Reachable.SomeExposedLeaf | ConsoleApplication3.cpp:64-77 | a node with a child in a tree without dead ends has a leaf below it that `get_leaf_nodes` reaches |
| Reachable.ListedLeafIndex | ConsoleApplication3.cpp:189-197 | every leaf of the list `make_palette` walks gets a palette index inside the palette |
| Reachable.RootIndexZero | ConsoleApplication3.cpp:189-197 | the root is never in the leaf list, so after `make_palette` its index is still 0 |
| Reachable.LookupInPalette | ConsoleApplication3.cpp:173-201 | on a populated tree, after `make_palette(color_count)` with `color_count > 0`, `get_palette_index` answers for every colour, with an index into the palette |
| Quantizer.OctreeQuantizer.constructor | ConsoleApplication3.cpp:155-159 | eight empty registry levels, then the root node (handle 0) registered in `levels[0]`: the state is `Reachable.Initial()` |
| Quantizer.OctreeQuantizer.NewNode | ConsoleApplication3.cpp:51-58 | appends the new node, registering it as the node constructor does; the new state is `Insertion.NewNode` of the old one |
| Quantizer.OctreeQuantizer.AddLevelNode | ConsoleApplication3.cpp:165-167 | appends the handle to `levels[level]` and changes nothing else |
| Quantizer.OctreeQuantizer.NodeAddColor | ConsoleApplication3.cpp:89-102 | the new state is the recursive insertion `Insertion.AddColorAt` from that node |
| Quantizer.OctreeQuantizer.AddColor | ConsoleApplication3.cpp:169-171 | the new state is the insertion from the root at level 0, and the object stays valid |
| Quantizer.OctreeQuantizer.GetLeafNodes | ConsoleApplication3.cpp:64-77 | the loop returns exactly `Leaves.LeafNodes` of the node |
| Quantizer.OctreeQuantizer.GetLeaves | ConsoleApplication3.cpp:161-163 | returns the leaf list of the root |
| Quantizer.OctreeQuantizer.GetNodesPixelCount | ConsoleApplication3.cpp:79-87 | returns the node's own count plus its children's counts, at least its own count when counts are non-negative |
| Quantizer.OctreeQuantizer.RemoveLeaves | ConsoleApplication3.cpp:118-131 | folds the children into the node in place and returns the number of children minus one, between -1 (no child) and 7 |
| Quantizer.OctreeQuantizer.NodeGetPaletteIndex | ConsoleApplication3.cpp:104-116 | returns `Lookup.PaletteIndexOf` of the node, fallback loop included |
| Quantizer.OctreeQuantizer.GetPaletteIndex | ConsoleApplication3.cpp:199-201 | returns the lookup from the root at level 0 |
| Quantizer.OctreeQuantizer.MakePalette | ConsoleApplication3.cpp:173-198 | the new state and the palette are those of `Palette.MakePalette` of the old state, and the object stays valid |
| Quantizer.OctreeQuantizer.Reduce | ConsoleApplication3.cpp:177-188 | the outer loop leaves the state `Pruning.PruneFrom` gives |
| Quantizer.OctreeQuantizer.ReduceLevel | ConsoleApplication3.cpp:179-183 | the inner loop leaves the state and the count `Pruning.PruneNodes` gives |
| Quantizer.OctreeQuantizer.AssignPalette | ConsoleApplication3.cpp:189-197 | the palette loop leaves the nodes and palette `Palette.AssignAll` gives and keeps the registry |

## Left out

- `main`, the OpenCV image I/O, `pch.h` and the debug-output macros `DBG` and `C` are not part of this model; they do no quantization. The loop macro `F` is modelled by what it expands to: the loops over the eight child slots in `get_leaf_nodes`, `get_nodes_pixel_count`, the `get_palette_index` fallback and `remove_leaves` are `while i < FANOUT` loops in `Quantizer.OctreeQuantizer`.
- `new` and the missing `delete` are modelled by appending to the arena; memory that is never freed is not modelled.
- Object identity and aliasing of `OctreeNode*` are not modelled beyond the unique-parent invariant of the arena.
- The `alpha` channel is carried as given (default 1) and is never summed, as in the source.
- Colors.ColorIndexForLevel: does not model the undefined behaviour of `0x80 >> level` for `level >= 32`; the mask is treated as 0 from level 8 on, which is what every level below 32 gives.
- Insertion.AddColorAt: does not model 32-bit overflow of the channel sums and pixel counts, because integers are unbounded.
- Pruning.PruneFrom: does not model 32-bit overflow of `leaf_count`, because integers are unbounded.
- Octree.GetColor: the channel bounds are stated for non-negative sums only; negative sums arise only from colours outside 0..255.
- Reachable.LookupInPalette: stated only for the first `make_palette` call, on a tree where no palette index has been handed out yet; a lookup after a second `make_palette`, or after `add_color` following `make_palette`, is not covered.
- Reachable.AddColorRoundTrip: requires that no node on the colour's walk above depth `MAX_DEPTH` is a leaf. This is not proved for reachable states, because the model does not record the depth of a node: the argument that only nodes at depth `MAX_DEPTH` absorb pixels needs it.
- The invariant that `levels[d]` holds exactly the nodes of depth `d + 1` (plus the root in `levels[0]`) is not stated as a whole. Only its step properties are proved (`Insertion.NewNodeRegisters`, `Insertion.AddColorExtendsRegistry`).
