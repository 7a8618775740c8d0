# Bounding-box tree construction

A Dafny model of `BoundingBoxTree`, the bounding-volume hierarchy builder in
`Projects/particle/mesh_query0.1/bounding_box_tree.h`, together with proofs of what it
builds. The builder takes `n` axis-aligned input boxes and produces a binary tree of
nested boxes:

- `construct_from_leaf_boxes` clears the node, numbers the input boxes `0 .. n - 1`,
  computes every box's centroid `0.5 * (xmin + xmax)` and starts the recursion at
  depth 0.
- `construct_recursively` first sets the node's box to the union of the input boxes of
  its slice of the index array. The node is kept as a leaf holding that slice when any
  of these holds:
  - the depth bound is reached;
  - at most `boxes_per_leaf` indices remain;
  - all their centroids coincide.

  Otherwise it picks the axis along which the centroids spread the most (ties go to
  the lower axis). It takes the mean centroid coordinate on that axis as the split
  value, falling back to the middle of the centroid range when the mean is not strictly
  inside it. It partitions the slice in place with two converging scan positions. It
  then builds two children one level deeper, on the indices at or below the split and
  on those above it.

Modules, one per concern:

- `Geometry` (`geometry.dfy`): vectors as triples of exact reals, boxes as min/max
  corners, and `include_box` / `include_point` as component-wise min/max. `Hull` is the
  left-to-right union a node computes, and `HullIsHull` proves it tight. The box type of
  `bounding_box.h` is not part of this model and is reduced to what the builder uses.
- `SplitChoice` (`split.dfy`): the centroid box, the axis choice, the mean, the split
  value and its fallback, and the facts that make the recursion well founded.
- `InPlacePartition` (`partition.dfy`): the two-scan partition as a method with loop
  invariants.
- `BoxTree` (`tree.dfy`): the tree as an immutable datatype, `clear`, and `Built`, the
  recursive description of a correctly built subtree (with `ChildrenBuilt` for its two
  children).
- `TreeBuild` (`build.dfy`): the two construction routines as methods.

Two modelling choices:

- The C++ recursion hands each call the start of its window in one shared array,
  `local_index`, and the window's length, `num_indices`. The model hands each call its slice as a
  sequence, `local`, and returns the slice as the call leaves it, `after`. The right
  child gets the array from position `i` on, exactly as `local_index + i` does. Since a
  call only ever sees its own slice, entries outside it cannot change. The final array
  is the concatenation of the children's results, and the model proves it equal to the
  leaf indices of the subtree read left to right.
- `Built(t, input, cent, maxDepth, perLeaf, depth)` states what the recursion
  produces, node by node:
  - the node's box is the union of the input boxes of the indices below it;
  - the node is a leaf exactly when the stopping rule holds;
  - an internal node stores no indices and has exactly two built children;
  - every centroid in the first child is at most the node's split value on the node's
    axis, and every centroid in the second is above it.

  The axis and split value are those of `NodeAxis` and `NodeSplit`, which depend only
  on the indices the node holds, not on their order.

The header comment of the source allows an internal node to hold indices as well
("don't count on it"). The code never does this, and `Built` states the code's
behaviour. A leaf arises in three ways, not only from the depth bound and the leaf size:
coinciding centroids (lines 99-102) also stop the recursion. `StopsHere` includes all
three.

## Model

| member | source | states |
|---|---|---|
| BoxTree.Clear | Projects/particle/mesh_query0.1/bounding_box_tree.h:34-40 | after `clear` the node holds no indices, has no children and so no leaf indices; its box is untouched |
| TreeBuild.ConstructFromLeafBoxes | Projects/particle/mesh_query0.1/bounding_box_tree.h:42-64 | for `1 <= n` and `boxes_per_leaf > 0`, the result is built from the first `n` boxes and their centroids. Its leaves hold every index below `n` exactly once and nothing else. The root box is the union of the `n` boxes and contains each. No node is deeper than `max_depth` and the tree is strictly binary. When `n <= boxes_per_leaf`, `max_depth == 0` or all centroids coincide, the root is a single leaf holding `0 .. n - 1` in order |
| TreeBuild.ConstructWithDefaults | Projects/particle/mesh_query0.1/bounding_box_tree.h:45-46 | with the default arguments (depth 30, one box per leaf) the tree is built, covers `0 .. n - 1` and is at most 30 levels deep; a single input box gives a single leaf holding index 0 |
| TreeBuild.RootFacts | Projects/particle/mesh_query0.1/bounding_box_tree.h:54-60 | a tree built at depth 0 over a rearrangement of the identity indices covers each index below `n` once, has the union of the first `n` boxes as its box, respects the depth bound, is binary, and is a leaf when the root already meets the stopping rule |
| TreeBuild.IdentityCounts | Projects/particle/mesh_query0.1/bounding_box_tree.h:54-55 | the initial index array holds every index below `n` exactly once and no other |
| TreeBuild.Centroids | Projects/particle/mesh_query0.1/bounding_box_tree.h:54-57 | the centroid array has one entry per box, and entry `k` lies midway between the two faces of box `k` on every axis |
| Geometry.Centroid | Projects/particle/mesh_query0.1/bounding_box_tree.h:56 | the centroid is equidistant from the two faces of the box on every axis |
| Geometry.IncludeBox | Projects/particle/mesh_query0.1/bounding_box_tree.h:81 | `include_box` yields a box containing both operands, and it is contained in every box that contains both (the least such box) |
| Geometry.IncludePoint | Projects/particle/mesh_query0.1/bounding_box_tree.h:94 | growing a box by a point is growing it by the degenerate box of that point |
| Geometry.HullIsHull | Projects/particle/mesh_query0.1/bounding_box_tree.h:79-81 | the box accumulated over a slice encloses every input box of the slice, and each of its faces on each axis is a face of one of them |
| Geometry.HullSameElements | Projects/particle/mesh_query0.1/bounding_box_tree.h:79-81 | the accumulated union depends only on which boxes occur, not on their order |
| Geometry.HullAppend | Projects/particle/mesh_query0.1/bounding_box_tree.h:79-81 | the union over two consecutive runs of boxes is the union of the two runs' unions |
| BoxTree.BuiltBoxIsUnionOfChildren | Projects/particle/mesh_query0.1/bounding_box_tree.h:79-81 | the box of a built internal node is the union of its two children's boxes |
| BoxTree.BuiltBoxEnclosesInputs | Projects/particle/mesh_query0.1/bounding_box_tree.h:79-81 | a built node's box contains the input box of every index stored below it |
| TreeBuild.RootBox | Projects/particle/mesh_query0.1/bounding_box_tree.h:79-81 | a node holding a rearrangement of `0 .. n - 1` whose box is the union of its indices' boxes has as its box the union of the first `n` input boxes, and contains each of them |
| TreeBuild.ConstructRecursively | Projects/particle/mesh_query0.1/bounding_box_tree.h:67-150 | given a non-empty slice of valid indices, the result is built at the given depth. The slice comes back rearranged, and that rearrangement is exactly the subtree's leaf indices in order. A node that stays a leaf holds the slice unchanged and in order |
| TreeBuild.SplitNode | Projects/particle/mesh_query0.1/bounding_box_tree.h:119-147 | when the slice has centroids on both sides of the split, the node keeps its box, stores nothing itself and gets two children built one level deeper. The lower child holds the indices at or below the split, the upper child those above. Together they hold a rearrangement of the slice, which is the array as the call leaves it |
| TreeBuild.BuildChildren | Projects/particle/mesh_query0.1/bounding_box_tree.h:138-146 | the node gets exactly two children, both built one level deeper, and keeps its box and indices. The first child's leaves hold a rearrangement of the lower group, the second's a rearrangement of the upper group, and each call hands back its group in its leaves' order |
| TreeBuild.ChildrenSplit | Projects/particle/mesh_query0.1/bounding_box_tree.h:135-147 | children built on `[0, i)` and `[i, num)` of the partitioned slice hold, in order, a rearrangement of the slice, separated by the split value |
| TreeBuild.InternalBuilt | Projects/particle/mesh_query0.1/bounding_box_tree.h:138-147 | a node that does not stop, whose two built children hold a rearrangement of its indices split by its own axis and split value, and whose box is their union, is built |
| BoxTree.BuiltInternal | Projects/particle/mesh_query0.1/bounding_box_tree.h:138-147 | a built node with children has exactly two and no indices of its own. The stopping rule fails for it, its children lie on either side of its split value, and both are built one level deeper |
| BoxTree.BuiltLeaf | Projects/particle/mesh_query0.1/bounding_box_tree.h:84-87 | a built leaf holds a non-empty list of valid indices, and the stopping rule holds for them |
| BoxTree.LeafIndicesOfPair | Projects/particle/mesh_query0.1/bounding_box_tree.h:138-147 | a node with two children and no indices of its own holds the first child's indices followed by the second's |
| BoxTree.BuiltWithinDepth | Projects/particle/mesh_query0.1/bounding_box_tree.h:84 | a tree built from a depth not above `max_depth` has no node deeper than `max_depth` |
| BoxTree.BuiltIsBinary | Projects/particle/mesh_query0.1/bounding_box_tree.h:138-147 | in a built tree every node has no children or exactly two, and a node with children stores no indices |
| SplitChoice.CentroidBoxIsHull | Projects/particle/mesh_query0.1/bounding_box_tree.h:91-96 | the box grown point by point from the first centroid is the union of the point boxes of all the slice's centroids |
| SplitChoice.CentroidsInBox | Projects/particle/mesh_query0.1/bounding_box_tree.h:91-96 | every centroid of the slice lies inside the centroid box on every axis |
| SplitChoice.CentroidBoxSameElements | Projects/particle/mesh_query0.1/bounding_box_tree.h:91-96 | slices with the same members have the same centroid box and agree on whether their centroids coincide |
| SplitChoice.DegenerateIffCoincident | Projects/particle/mesh_query0.1/bounding_box_tree.h:99-102 | the test `xmax == xmin` on the centroid box holds exactly when all the slice's centroids are the same point |
| TreeBuild.CoincidentRootIsLeaf | Projects/particle/mesh_query0.1/bounding_box_tree.h:99-102 | when all centroids coincide, the root of the built tree is a leaf |
| SplitChoice.ChooseAxis | Projects/particle/mesh_query0.1/bounding_box_tree.h:106-111 | the chosen axis has the largest centroid extent, and every lower axis has a strictly smaller one, so a tie keeps the earlier axis |
| SplitChoice.ChosenAxisSpreads | Projects/particle/mesh_query0.1/bounding_box_tree.h:99-111 | when the centroids do not all coincide, the chosen axis has positive extent |
| SplitChoice.MeanStrictlyInside | Projects/particle/mesh_query0.1/bounding_box_tree.h:92-97 | on an axis where the centroids spread out, their mean lies strictly between the two faces of the centroid box |
| SplitChoice.SumSameContents | Projects/particle/mesh_query0.1/bounding_box_tree.h:92-95 | the accumulated centroid sum depends only on the indices summed, not on their order |
| SplitChoice.MeanSameContents | Projects/particle/mesh_query0.1/bounding_box_tree.h:92-97 | so does the mean |
| SplitChoice.SplitValue | Projects/particle/mesh_query0.1/bounding_box_tree.h:115-117 | on an axis of positive extent, the split value lies strictly inside the centroid range, and it is the mean whenever the mean lies strictly inside |
| SplitChoice.NodeSplit | Projects/particle/mesh_query0.1/bounding_box_tree.h:106-117 | for a slice whose centroids do not coincide, the split value is the mean centroid coordinate on the chosen axis and lies strictly inside the centroid range |
| SplitChoice.NodeSplitSameContents | Projects/particle/mesh_query0.1/bounding_box_tree.h:91-117 | rearranging a slice changes neither its axis, nor whether its centroids coincide, nor its split value |
| SplitChoice.BothSidesOccupied | Projects/particle/mesh_query0.1/bounding_box_tree.h:112-114 | a split value strictly inside the centroid range leaves at least one centroid of the slice at or below it and at least one above it |
| InPlacePartition.Partition | Projects/particle/mesh_query0.1/bounding_box_tree.h:119-137 | the partition returns a rearrangement of the slice and a position `i`. Entries before `i` have centroid at most the split on the axis, and entries from `i` on have centroid above it. `0 < i` when some entry is at or below the split, and `i < num_indices` when some entry is above it |
| InPlacePartition.ScanForward | Projects/particle/mesh_query0.1/bounding_box_tree.h:121-123 | the forward scan passes only entries at or below the split and stops at the end or at an entry above it, never beyond the backward position |
| InPlacePartition.ScanBackward | Projects/particle/mesh_query0.1/bounding_box_tree.h:124-125 | the backward scan passes only entries above the split and stops before the start or at an entry at or below it, never before the forward position |
| InPlacePartition.SwapStep | Projects/particle/mesh_query0.1/bounding_box_tree.h:126-129 | when both scans stop with `i < j`, `std::swap` keeps the slice's contents and every index valid. Afterwards `[0, i]` is at or below the split and `[j, num_indices)` above it, so both settled ends grow by one |
| InPlacePartition.GroupsNonEmpty | Projects/particle/mesh_query0.1/bounding_box_tree.h:134 | a rearrangement split at `i` has a non-empty lower group when an entry is at or below the split and a non-empty upper group when one is above it; with both, `0 < i < num_indices`, so `assert(i < num_indices)` holds |

## Left out

- Memory management: the `new` / `delete` of children and of the two work arrays, the
  destructor and the `virtual` qualifier. The tree is an immutable value and ownership
  is implicit.
- The private copy constructor and assignment operator, which only guard against
  copying.
- Floating point. Coordinates are exact reals, so the mean is always strictly inside the
  centroid range and the midpoint fallback never applies. The branch is kept in
  `SplitValue`. In doubles, rounding can place the mean on a face of the centroid box,
  and for two adjacent doubles the midpoint can round to the upper face; neither is
  modelled.
- `bounding_box.h` and `Vec3d` are not part of this model; boxes are reduced to two
  corners with component-wise min/max.
- Integer widths: the `unsigned int` indices and counts are unbounded naturals.
- The null check on `input_box` in `assert(n>=1 && input_box && boxes_per_leaf>0)`: the input is a
  sequence and cannot be null. The rest of that assertion, and `assert(num_indices>0)`,
  are preconditions.
- TreeBuild.ConstructRecursively: requires the node it fills to have no indices and no
  children. That is how every call in the source receives it, after `clear` at the root
  or as a fresh child. Calling it on a node with a stale subtree is not modelled.
- TreeBuild.Fresh: a fresh node's initial box comes from the default constructor of
  the box type in `bounding_box.h`, which is not part of this model. The model starts
  it at the origin. `construct_recursively` overwrites it at line 79 before any read.
- InPlacePartition.Partition: the source rearranges a window of the shared array and
  leaves the rest alone. Here that is structural, because each call receives only its
  own window, so it is not a separate postcondition.
- Determinism of the build is not stated as a lemma, because the build is a method.
  `Built` nevertheless fixes, at every node, the leaf rule, the axis and the split
  value.
- Tree traversal and queries are not part of this file.
