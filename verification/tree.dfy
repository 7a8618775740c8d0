/** The bounding-box tree as a value, and what it means for a tree to have been built
    from a set of input boxes: every node's box is the union of the input boxes below it,
    a node is a leaf exactly when the stopping rule holds, and an internal node has two
    children whose centroids lie on either side of the node's split value on its axis. */
module BoxTree {
  import opened Geometry
  import opened SplitChoice

  /** One node of the hierarchy: its box, the input indices stored at it (normally only
      at leaves) and its children (none or two when built, any number structurally). */
  datatype Tree = Node(box: Box, index: seq<nat>, children: seq<Tree>)

  /** All input indices stored in the subtree, the node's own first, then each child's
      subtree in order. */
  function LeafIndices(t: Tree): seq<nat>
    decreases t, 1
  {
    t.index + ForestIndices(t.children)
  }

  function ForestIndices(ts: seq<Tree>): seq<nat>
    decreases ts, 0
  {
    if ts == [] then [] else LeafIndices(ts[0]) + ForestIndices(ts[1..])
  }

  /** A node with no index of its own and exactly two children holds what they hold. */
  lemma LeafIndicesOfPair(t: Tree)
    requires t.index == [] && |t.children| == 2
    ensures LeafIndices(t) == LeafIndices(t.children[0]) + LeafIndices(t.children[1])
  {
    var ts := t.children;
    assert ts[1..][1..] == [];
    assert ForestIndices(ts[1..]) == LeafIndices(ts[1]) + ForestIndices(ts[1..][1..]);
  }

  /** `clear()`: drops the node's indices and its whole subtree; the box is kept. */
  function Clear(t: Tree): (r: Tree)
    ensures r.box == t.box
    ensures r.index == [] && r.children == []
    ensures LeafIndices(r) == []
  {
    t.(index := [], children := [])
  }

  /** Every centroid of `left` is at most `split` on `axis`, every centroid of `right`
      exceeds it. */
  predicate SplitsAt(cent: seq<Vec3>, left: seq<nat>, right: seq<nat>, axis: Axis, split: real) {
    (forall x :: x in left ==> x < |cent| && Coord(cent[x], axis) <= split) &&
    (forall x :: x in right ==> x < |cent| && split < Coord(cent[x], axis))
  }

  /** The stopping rule: the depth bound is reached, few enough boxes remain, or the
      centroids cannot be told apart. */
  predicate StopsHere(cent: seq<Vec3>, ids: seq<nat>, depth: nat, maxDepth: nat, perLeaf: nat)
    requires |ids| > 0
    requires forall x :: x in ids ==> x < |cent|
  {
    depth == maxDepth || |ids| <= perLeaf || Coincident(cent, ids)
  }

  /** `t`, at depth `depth`, is what the recursive construction produces over the input
      indices it holds. */
  ghost predicate Built(t: Tree, input: seq<Box>, cent: seq<Vec3>, maxDepth: nat, perLeaf: nat, depth: nat)
    decreases t, 1
  {
    var ids := LeafIndices(t);
    |ids| > 0 &&
    (forall x :: x in ids ==> x < |input| && x < |cent|) &&
    t.box == Hull(Gather(input, ids)) &&
    if StopsHere(cent, ids, depth, maxDepth, perLeaf) then
      t.children == []
    else
      |t.children| == 2 && t.index == [] &&
      SplitsAt(cent, LeafIndices(t.children[0]), LeafIndices(t.children[1]),
               NodeAxis(cent, ids), NodeSplit(cent, ids)) &&
      ChildrenBuilt(t, input, cent, maxDepth, perLeaf, depth)
  }

  /** Both children of the binary node `t`, a node at depth `depth`, are built one level
      deeper. */
  ghost predicate ChildrenBuilt(t: Tree, input: seq<Box>, cent: seq<Vec3>, maxDepth: nat, perLeaf: nat, depth: nat)
    requires |t.children| == 2
    decreases t, 0
  {
    Built(t.children[0], input, cent, maxDepth, perLeaf, depth + 1) &&
    Built(t.children[1], input, cent, maxDepth, perLeaf, depth + 1)
  }

  /** Every node of the subtree lies at depth at most `maxDepth`, counting `t` at `depth`. */
  predicate WithinDepth(t: Tree, depth: nat, maxDepth: nat)
    decreases t
  {
    depth <= maxDepth &&
    forall k :: 0 <= k < |t.children| ==> WithinDepth(t.children[k], depth + 1, maxDepth)
  }

  /** Every node has no children or exactly two, and a node with children stores no
      indices of its own. */
  predicate Binary(t: Tree)
    decreases t
  {
    (t.children == [] || (|t.children| == 2 && t.index == [])) &&
    forall k :: 0 <= k < |t.children| ==> Binary(t.children[k])
  }

  /** The box of an internal node is the union of its two children's boxes. */
  lemma BuiltBoxIsUnionOfChildren(t: Tree, input: seq<Box>, cent: seq<Vec3>, maxDepth: nat, perLeaf: nat, depth: nat)
    requires Built(t, input, cent, maxDepth, perLeaf, depth)
    requires t.children != []
    ensures |t.children| == 2
    ensures t.box == IncludeBox(t.children[0].box, t.children[1].box)
  {
    BuiltInternal(t, input, cent, maxDepth, perLeaf, depth);
    var l, r := t.children[0], t.children[1];
    LeafIndicesOfPair(t);
    GatherAppend(input, LeafIndices(l), LeafIndices(r));
    HullAppend(Gather(input, LeafIndices(l)), Gather(input, LeafIndices(r)));
  }

  /** A node's box contains the input box of every index stored in its subtree. */
  lemma BuiltBoxEnclosesInputs(t: Tree, input: seq<Box>, cent: seq<Vec3>, maxDepth: nat, perLeaf: nat, depth: nat)
    requires Built(t, input, cent, maxDepth, perLeaf, depth)
    ensures forall x :: x in LeafIndices(t) ==> x < |input| && Contains(t.box, input[x])
  {
    var ids := LeafIndices(t);
    var g := Gather(input, ids);
    HullIsHull(g);
    forall x | x in ids ensures x < |input| && Contains(t.box, input[x]) {
      var k :| 0 <= k < |ids| && ids[k] == x;
      assert g[k] == input[x];
    }
  }

  /** What `Built` gives about an internal node: the stopping rule fails, the node stores
      nothing itself, and its two children, built one level deeper, lie on either side of
      its split value. */
  lemma BuiltInternal(t: Tree, input: seq<Box>, cent: seq<Vec3>, maxDepth: nat, perLeaf: nat, depth: nat)
    requires Built(t, input, cent, maxDepth, perLeaf, depth)
    requires t.children != []
    ensures |t.children| == 2 && t.index == []
    ensures depth != maxDepth
    ensures !StopsHere(cent, LeafIndices(t), depth, maxDepth, perLeaf)
    ensures SplitsAt(cent, LeafIndices(t.children[0]), LeafIndices(t.children[1]),
                     NodeAxis(cent, LeafIndices(t)), NodeSplit(cent, LeafIndices(t)))
    ensures Built(t.children[0], input, cent, maxDepth, perLeaf, depth + 1)
    ensures Built(t.children[1], input, cent, maxDepth, perLeaf, depth + 1)
  {
  }

  /** The converse for an internal node: a node that does not stop, stores nothing itself
      and has two built children separated by its split value on its axis is built. */
  lemma BuiltFromChildren(t: Tree, input: seq<Box>, cent: seq<Vec3>, maxDepth: nat, perLeaf: nat, depth: nat)
    requires |t.children| == 2 && t.index == []
    requires |LeafIndices(t)| > 0
    requires forall x :: x in LeafIndices(t) ==> x < |input| && x < |cent|
    requires t.box == Hull(Gather(input, LeafIndices(t)))
    requires !StopsHere(cent, LeafIndices(t), depth, maxDepth, perLeaf)
    requires SplitsAt(cent, LeafIndices(t.children[0]), LeafIndices(t.children[1]),
                      NodeAxis(cent, LeafIndices(t)), NodeSplit(cent, LeafIndices(t)))
    requires ChildrenBuilt(t, input, cent, maxDepth, perLeaf, depth)
    ensures Built(t, input, cent, maxDepth, perLeaf, depth)
  {
  }

  /** The facts `Built` gives about a leaf: it holds its own indices, and the stopping
      rule holds for them. */
  lemma BuiltLeaf(t: Tree, input: seq<Box>, cent: seq<Vec3>, maxDepth: nat, perLeaf: nat, depth: nat)
    requires Built(t, input, cent, maxDepth, perLeaf, depth)
    requires t.children == []
    ensures LeafIndices(t) == t.index && |t.index| > 0
    ensures forall x :: x in t.index ==> x < |input| && x < |cent|
    ensures StopsHere(cent, t.index, depth, maxDepth, perLeaf)
  {
    assert ForestIndices(t.children) == [];
  }

  /** Starting no deeper than `maxDepth`, no node of a built tree is deeper than it. */
  lemma {:induction false} BuiltWithinDepth(t: Tree, input: seq<Box>, cent: seq<Vec3>, maxDepth: nat, perLeaf: nat, depth: nat)
    requires Built(t, input, cent, maxDepth, perLeaf, depth)
    requires depth <= maxDepth
    ensures WithinDepth(t, depth, maxDepth)
    decreases t
  {
    if t.children != [] {
      BuiltInternal(t, input, cent, maxDepth, perLeaf, depth);
      BuiltWithinDepth(t.children[0], input, cent, maxDepth, perLeaf, depth + 1);
      BuiltWithinDepth(t.children[1], input, cent, maxDepth, perLeaf, depth + 1);
      forall k | 0 <= k < |t.children|
        ensures WithinDepth(t.children[k], depth + 1, maxDepth)
      {
        assert k == 0 || k == 1;
      }
    }
  }

  /** A built tree is strictly binary. */
  lemma {:induction false} BuiltIsBinary(t: Tree, input: seq<Box>, cent: seq<Vec3>, maxDepth: nat, perLeaf: nat, depth: nat)
    requires Built(t, input, cent, maxDepth, perLeaf, depth)
    ensures Binary(t)
    decreases t
  {
    if t.children != [] {
      BuiltInternal(t, input, cent, maxDepth, perLeaf, depth);
      BuiltIsBinary(t.children[0], input, cent, maxDepth, perLeaf, depth + 1);
      BuiltIsBinary(t.children[1], input, cent, maxDepth, perLeaf, depth + 1);
      forall k | 0 <= k < |t.children|
        ensures Binary(t.children[k])
      {
        assert k == 0 || k == 1;
      }
    }
  }
}
