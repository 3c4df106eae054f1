# Terrain quadtree controller and exact coordinate maps

This project models the level-of-detail controller of the gfx_terrain
renderer, plus the exact part of its coordinate conversions, and proves
properties of that model.

The terrain is a quadtree with one tree per cube face of the planet. The tree
is never stored: each frame, `QuadTree` walks the virtual nodes breadth-first
and does three things.

- It **scores** them. `update_priorities` rebuilds the map from node to
  priority for a camera position, but only when that position has changed.
  The rebuild descends only below nodes scoring at least the cutoff.
- It **decides what to draw**. `update_visibility` works in two passes:
  - The first pass flags every node it reaches as visible or not.
  - The second pass walks again. For each visible node it builds a 4-bit mask
    of the children that are *not* visible. From that mask it puts the node
    in `visible_nodes` (drawn whole), puts it in `partially_visible_nodes`
    (drawn only over the hidden children), or draws nothing for it and
    descends.
- It **triangulates**. `create_index_buffers` builds one triangle index list
  for a grid of `resolution` cells per side, and another for half that
  resolution. It writes them one after the other into a single `u16` buffer.
  The buffer is in the target's byte order, which the model takes to be
  little-endian.

The coordinate part covers the *world* frame and the *NED* frame, and the
*warped* frame.

- *world* has x east, y up and z south. *NED* is north-east-down.
  - The maps between world and NED are pure exchanges of axes and signs.
- *warped* is world with y shifted by a curvature correction. The correction
  depends only on the horizontal position.

Files:

- `priority.dfy` (module `Priorities`) defines the priority scale and its two
  constants, `NONE` and `CUTOFF`.
- `node.dfy` (module `Nodes`) covers the nodes and the breadth-first walk:
  - `VNode` and its children and parent.
  - `Walk`, a pure function giving the visiting order of `breadth_first` for
    a given visitor, with a weight measure that shows it terminates.
  - `Reached`, a description of the visited set that does not mention the
    queue, and the lemma equating the two.
- `quadtree.dfy` (module `QuadTrees`) holds the `QuadTree` class:
  - Its fields: the two render lists, the priority map, the last camera
    position, and the height resolution.
  - Its methods. Each one is a worklist loop proved against `Walk` and
    against the specification functions `RebuiltPriorities`,
    `FirstPassFlags`, `VisibleNodesFor` and `PartiallyVisibleNodesFor`.
  - Lemmas that give those functions their meaning, in terms of parents,
    children and the cutoff.
  - The tiling theorem. Every finest-level cell of a face is drawn exactly
    once. It is drawn either by one node of `visible_nodes`, or by one
    `(node, mask)` of `partially_visible_nodes` whose mask has the bit of
    the child towards the cell.
- `index_buffer.dfy` (module `IndexBuffers`) covers the triangulation:
  - The `make_index_buffer` closure, as a nested-loop method proved against
    the function `IndexBuffer`.
  - `u16` wrap-around, written out.
  - The length of the list, the position and value of each corner, and the
    bound on the indices.
  - The byte layout with the full list first and the half list second.
- `coordinates.dfy` (module `Coordinates`) covers the world↔NED and
  warped↔world maps over the reals, with the shift as a parameter.

## Model

All source cells for the quadtree refer to `src/terrain/quadtree/mod.rs`. All source cells for the coordinates refer to `src/coordinates.rs`.

| member | source | states |
|---|---|---|
| Nodes.Children | src/terrain/quadtree/mod.rs:124 | Returns exactly four children in a fixed order. Child `i` is one level deeper, on the same face. |
| Nodes.ChildInjective | src/terrain/quadtree/mod.rs:124-126 | Different parents or positions give different children, so each mask bit stands for exactly one child. |
| Nodes.Roots | src/terrain/quadtree/mod.rs:88 | The walk starts from exactly the level-0 nodes, one per face. |
| Nodes.AdvanceWeight | src/terrain/quadtree/mod.rs:88-92 | Visiting the front node and queueing its children makes the queue strictly lighter, so every walk ends, whatever the visitor answers. |
| Nodes.WalkStep | src/terrain/quadtree/mod.rs:88-92 | The walk visits the front node, then continues from the queue that is left after its children join the back (they join only if the visitor asks and the node is above the finest level). |
| Nodes.WalkVisits | src/terrain/quadtree/mod.rs:88-92 | Starting from any queue, the walk visits exactly the nodes that lie below a queued node along a chain the visitor expands. |
| Nodes.WalkFromRoots | src/terrain/quadtree/mod.rs:88-92 | Starting from the roots, the walk visits `n` iff `n` is a root, or its parent is visited, was answered true, and is above the finest level. |
| Nodes.ReachedLevelBound | src/terrain/quadtree/mod.rs:91 | No visited node is past `LEVEL_CELL_2CM`, even if the visitor always asks to descend. |
| Nodes.ChildOfParent | src/terrain/quadtree/mod.rs:124 | A node below the roots is child number `x % 2 + 2 (y % 2)` of its parent. |
| Nodes.AncestorStep | src/terrain/quadtree/mod.rs:124 | The ancestor one level further up is the parent of the ancestor at this level. |
| Nodes.OnFaceRoot | src/terrain/quadtree/mod.rs:88 | A node on a face, with x and y below `2^level`, has a root as its level-0 ancestor. |
| Nodes.ReachedAncestor | src/terrain/quadtree/mod.rs:88-92 | If the walk reaches an ancestor of `n`, it reaches and expands every ancestor of `n` above that one. |
| Nodes.ReachedMonotone | src/terrain/quadtree/mod.rs:105 | A visitor that says yes more often reaches a superset of the nodes. |
| QuadTrees.QuadTree.constructor | src/terrain/quadtree/mod.rs:37-46 | Both lists and the priority map start empty and no camera is recorded, so the invariant `Coherent` holds. `Coherent` says the map is empty while no camera is recorded, and is `RebuiltPriorities` of the recorded camera otherwise. |
| QuadTrees.QuadTree.UpdatePriorities | src/terrain/quadtree/mod.rs:80-93 | If the camera equals the recorded one, nothing changes. Otherwise the camera is recorded and the map becomes exactly `RebuiltPriorities`, with no entry surviving from before. Either way, given `Coherent`, the map afterwards is `RebuiltPriorities` of this camera and `Coherent` still holds. |
| QuadTrees.ScoreAdvance | src/terrain/quadtree/mod.rs:88-92 | One visit of the scoring loop inserts the front node with its score and keeps the walk-so-far invariant. |
| QuadTrees.RebuiltKeys | src/terrain/quadtree/mod.rs:87-92 | A node is a key of the rebuilt map iff the walk reaches it through ancestors scoring at least the cutoff and above the finest level. Each key maps to its score. |
| QuadTrees.RebuiltParentAboveCutoff | src/terrain/quadtree/mod.rs:88-92 | Every non-root key has its parent as a key, that parent scores at least the cutoff and is above the finest level, and no key is past the finest level. |
| QuadTrees.PriorityAfterRebuild | src/terrain/quadtree/mod.rs:87-92 | After a rebuild, a lookup answers the score of a reached node and `NONE` for any other node. |
| QuadTrees.UnreachedInvisible | src/terrain/quadtree/mod.rs:87-92 | After a rebuild, a non-root node the scoring walk does not reach is not visible, because its lookup is `NONE`, below the cutoff. |
| QuadTrees.Lookup | src/terrain/quadtree/mod.rs:151 | Returns the stored value for a key and `NONE` for a missing key. |
| QuadTrees.QuadTree.NodePriority | src/terrain/quadtree/mod.rs:150-152 | Returns the stored priority of a key and `NONE` otherwise, and changes nothing. |
| QuadTrees.QuadTree.ComputeVisibilities | src/terrain/quadtree/mod.rs:100-106 | The first pass flags exactly the nodes its walk visits. Each flag is "level is 0, or `node_priority >= CUTOFF`". |
| QuadTrees.VisibilitiesFacts | src/terrain/quadtree/mod.rs:101-106 | The flagged nodes are exactly those reached through visible ancestors, every root is flagged visible, and every child of a visible node above the finest level is flagged. |
| QuadTrees.RenderLookupsDefined | src/terrain/quadtree/mod.rs:121-129 | Every node the second pass reaches has a flag. So do its four children when it is visible and above the finest level, so no index into the flag map can fail. |
| QuadTrees.QuadTree.UpdateVisibility | src/terrain/quadtree/mod.rs:95-144 | Both lists are cleared, then rebuilt as exactly `VisibleNodesFor` and `PartiallyVisibleNodesFor` of the current priorities. |
| QuadTrees.QuadTree.RenderPass | src/terrain/quadtree/mod.rs:121-143 | Starting from empty lists, the second pass leaves exactly the nodes of its walk that are drawn whole, and those drawn in part with their masks, in visiting order. |
| QuadTrees.QuadTree.RenderNext | src/terrain/quadtree/mod.rs:121-143 | One step of the second pass keeps the walk-so-far invariant of both lists and makes the queue lighter. |
| QuadTrees.QuadTree.RenderVisit | src/terrain/quadtree/mod.rs:122-142 | The visitor appends the node to `visible_nodes` iff it is drawn whole, and appends `(node, mask)` to `partially_visible_nodes` iff it is drawn in part. It answers whether to descend. |
| QuadTrees.ChildMask | src/terrain/quadtree/mod.rs:123-128 | The mask loop yields the mask whose bit `i` is set iff the flag of child `i` is false. |
| QuadTrees.Bit | src/terrain/quadtree/mod.rs:126 | The bit of child `i` is `1 << i`. |
| QuadTrees.MaskOfBits | src/terrain/quadtree/mod.rs:123-130 | A four-flag mask is at most 15. Bit `i` is set iff flag `i` is. It is 15 iff every flag is set and 0 iff none is. |
| QuadTrees.ChildMaskFacts | src/terrain/quadtree/mod.rs:123-132 | The child mask of a node has bit `i` set iff child `i` is not visible. It is 15 iff no child is visible and 0 iff all children are. |
| QuadTrees.HiddenAmongChildren | src/terrain/quadtree/mod.rs:124-125 | For a visible node above the finest level, the flags pass 2 reads for its children are exactly those children's visibility. |
| QuadTrees.RenderDecision | src/terrain/quadtree/mod.rs:122-142 | In each of the three branches, the mask comparisons (`== 15`, `> 0`, `< 15`) decide drawn whole, drawn in part and descend exactly as the specification predicates do. |
| QuadTrees.WholeNodesMembers | src/terrain/quadtree/mod.rs:131 | A node is in the whole list of a visit sequence iff it was visited and is drawn whole. |
| QuadTrees.PartialNodesMembers | src/terrain/quadtree/mod.rs:133 | `(n, m)` is in the partial list iff `n` was visited, is drawn in part, and `m` is its child mask. |
| QuadTrees.VisibleNodesExactly | src/terrain/quadtree/mod.rs:122-139 | A node is in `visible_nodes` iff pass 2 reaches it, it is visible, and either it is at the finest level or none of its children is visible. |
| QuadTrees.PartiallyVisibleExactly | src/terrain/quadtree/mod.rs:122-134 | `(n, m)` is in `partially_visible_nodes` iff pass 2 reaches `n`, `n` is visible and above the finest level, some but not all of its children are visible, `m <= 15`, and bit `i` of `m` is set iff child `i` is not visible. |
| QuadTrees.NothingInvisibleDrawn | src/terrain/quadtree/mod.rs:122-142 | No node flagged invisible by the first pass is in either list. |
| QuadTrees.CoversMeans | src/terrain/quadtree/mod.rs:121-143 | The ancestor of `d` at a level covers `d` iff one of two things holds. Either pass 2 reaches it and draws it whole, or pass 2 reaches it, draws it in part, and the child towards `d` is not visible. |
| QuadTrees.CoverFrom | src/terrain/quadtree/mod.rs:121-143 | Below a reached visible ancestor of a finest-level cell, exactly one ancestor at that level or deeper covers the cell. |
| QuadTrees.CoveredExactlyOnce | src/terrain/quadtree/mod.rs:121-143 | Take any finest-level cell of a face. Exactly one level L satisfies one of two conditions. Either its level-L ancestor is in `visible_nodes`, or `(ancestor, m)` is in `partially_visible_nodes` and `m` has the bit of the level-(L+1) ancestor. |
| QuadTrees.QuadTree.CreateIndexBuffers | src/terrain/quadtree/mod.rs:62-74 | The height resolution is truncated to `u16`, and the buffer is the bytes of the full list followed by the half list. |
| IndexBuffers.AddU16 | src/terrain/quadtree/mod.rs:56 | `u16` addition is the sum modulo 2^16. |
| IndexBuffers.MakeIndexBuffer | src/terrain/quadtree/mod.rs:49-61 | The nested loops produce exactly `IndexBuffer(resolution)`, which has `6 * resolution * resolution` entries. |
| IndexBuffers.RowLength | src/terrain/quadtree/mod.rs:54-57 | A row of `n` cells has `6 * n` indices. |
| IndexBuffers.GridLength | src/terrain/quadtree/mod.rs:53-59 | `n` rows have `6 * n * resolution` indices. |
| IndexBuffers.IndexBufferLength | src/terrain/quadtree/mod.rs:49-61 | The list has six indices per cell. |
| IndexBuffers.RowStartValue | src/terrain/quadtree/mod.rs:56 | Row `y` starts at vertex `y * width`, computed in `u16`. |
| IndexBuffers.RowAt | src/terrain/quadtree/mod.rs:54-57 | Index `6x + k` of a row is corner `k` of cell `x`. |
| IndexBuffers.GridAt | src/terrain/quadtree/mod.rs:53-58 | Row `y` of the grid sits right after the rows above it. |
| IndexBuffers.IndexBufferCell | src/terrain/quadtree/mod.rs:52-57 | Index `6(y·r + x) + k` exists and is `offsets[k] + (x + y * width)`, where offsets are `[0, 1, width, 1, width + 1, width]`, `width = r + 1`, and all arithmetic is in `u16`. |
| IndexBuffers.CornerExact | src/terrain/quadtree/mod.rs:52-56 | For at most 255 cells per side nothing wraps: the corner is the exact vertex number `offset + x + y(r+1)`, which is below `(r+1)^2`. |
| IndexBuffers.IndexBufferBounds | src/terrain/quadtree/mod.rs:52-56 | Every index is below `(r+1)^2`, the number of vertices of the grid. |
| IndexBuffers.LittleEndian | src/terrain/quadtree/mod.rs:73-74 | Each `u16` becomes two bytes. |
| IndexBuffers.LittleEndianRoundTrip | src/terrain/quadtree/mod.rs:73-74 | Reading the bytes back gives the original list. |
| IndexBuffers.LittleEndianConcat | src/terrain/quadtree/mod.rs:67-74 | The buffer holds `2 * (full.len() + half.len())` bytes. Its first `2 * full.len()` bytes read back as the full list and the rest as the half list. |
| IndexBuffers.LayOutIndexBuffers | src/terrain/quadtree/mod.rs:62-74 | Builds the lists for `resolution` and `resolution / 2` and lays them out full first. The buffer has the stated length and both parts read back. |
| Coordinates.WorldToNed | src/coordinates.rs:108-114 | World to NED is `(-z, x, -y)`, and `ned_to_world` undoes it. |
| Coordinates.NedWorldRoundTrip | src/coordinates.rs:108-114 | `world_to_ned(ned_to_world(n)) == n`. |
| Coordinates.WorldAxesInNed | src/coordinates.rs:17-18 | World east becomes NED east, world up becomes minus NED down, and world south becomes minus NED north. |
| Coordinates.WorldToNedOrigin | src/coordinates.rs:223-226 | (0, 0, 0) maps to (0, 0, 0). |
| Coordinates.WorldToNedNorth | src/coordinates.rs:227-230 | (0, 0, -10) maps to (10, 0, 0). |
| Coordinates.WorldToNedNorthEastUp | src/coordinates.rs:231-234 | (10, 5, -10) maps to (10, 10, -5). |
| Coordinates.WorldToNedIsRotation | src/coordinates.rs:108-114 | The change of frame keeps dot products, cross products and sums. |
| Coordinates.WarpedToWorld | src/coordinates.rs:117-131 | Unwarping keeps x and z and lowers y by the shift at (x, z). Warping the result gives back the input. |
| Coordinates.WarpRoundTrip | src/coordinates.rs:117-131 | `warped_to_world(world_to_warped(w)) == w`, exactly, for any shift. |
| Coordinates.WarpIsVertical | src/coordinates.rs:117-131 | Warping keeps x and z, and raising a point by `h` raises its warped image by `h`. |

## Left out

- `node.rs` and the `cache` module are not part of this model. `VNode`, `Priority` and `breadth_first` are therefore modelled by choice:
  - `VNode(face, level, x, y)`. Child `i` sits at column `2x + i % 2` and row `2y + i / 2`. There are six faces. `LEVEL_CELL_2CM` is 22.
  - `Priority` is `real`, with `NONE = 0.0` and `CUTOFF = 1.0`.
  - `breadth_first` is a FIFO walk from the six roots. It queues the four children only when the visitor answers true and the node is above `LEVEL_CELL_2CM`.
  - Only `UnreachedInvisible` depends on these values, and only on `NONE < CUTOFF`.
  - A node lies on its face when `face < 6` and `x, y < 2^level`. `CoveredExactlyOnce` is stated for those nodes only. A node outside that range has no root as its level-0 ancestor, so the walks never reach it.
- The strict level-by-level order of the walk is not proved. The properties above are stated about the set of visited nodes and the order of the lists.
- `VNode::priority(camera)` is the uninterpreted field `priorityOf` of the class, and the camera position is an opaque `Point3` compared for exact equality. The `f64` equality of `mint::Point3` is modelled as equality of values. A NaN coordinate, which never equals itself, is not modelled.
- The visitor closures of the source are written as explicit worklist loops. Each loop is proved equal to `Walk` with the visitor's answer.
- The `tile_cache` argument of `update_visibility` is not modelled: the live code never reads it.
- The commented-out code is not modelled: the minimum-missing-level policy in `update_visibility` and `get_height`.
- `node_states`, `node_buffer_length` and the `Debug` impl are not modelled: the core never fills `node_states`.
- Indexing a missing key of the flag map panics in the source. The model proves such a lookup never happens, so there is no panic path.
- The GPU calls of `create_index_buffers` are left out: creating the buffer, mapping it, the `bytemuck` cast and unmapping. The buffer is modelled as the concatenation of the two lists' little-endian bytes.
- The model assumes a little-endian target. `bytemuck::cast_slice` copies each `u16` in the target's native byte order, so a big-endian target would swap the two bytes of every index.
- IndexBuffers.AddU16: the model follows release builds, where `u16` arithmetic wraps. A debug build would panic on overflow instead. For at most 255 cells per side nothing overflows (`CornerExact`). Above that the wrapped values are what the model describes.
- The `u32 as u16` truncation of the height resolution is modelled as the value modulo 2^16.
- Most of `src/coordinates.rs` is not modelled, because it is floating-point geodesy or calls into the `coord_transforms` crate. This covers:
  - ECEF, LLA and polar conversions.
  - The NED matrix at a latitude and longitude.
  - The composite conversions.
  - The fixed-point loop of `world_height_on_surface`.
  - The ECEF round trip within 3 m in the `ecef_warped_ecef` test.
- Coordinates.WarpedToWorld: the curvature shift, which is computed with `sqrt` from `x` and `z`, is a parameter of type `Shift`. The model does not check where that formula is defined or what it approximates. The round trip holds for every shift.
- Floating-point rounding is not modelled: all coordinates are `real`.
