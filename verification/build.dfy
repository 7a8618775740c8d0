/** The construction itself: `construct_recursively`, which fills one node from a slice of
    the shared working index array and recurses into two fresh children, and
    `construct_from_leaf_boxes`, which prepares the index and centroid arrays and starts
    the recursion at the root. */
module TreeBuild {
  import opened Geometry
  import opened SplitChoice
  import opened InPlacePartition
  import opened BoxTree

  /** The default arguments of `construct_from_leaf_boxes`. */
  const DefaultMaxDepth: nat := 30
  const DefaultBoxesPerLeaf: nat := 1

  /** A newly allocated node: no indices and no children. Its box is overwritten by the
      construction before anything reads it. */
  const Fresh: Tree := Node(Box((0.0, 0.0, 0.0), (0.0, 0.0, 0.0)), [], [])

  /** The centroid `0.5 * (xmin + xmax)` of every box, by index: entry `k` lies midway
      between the faces of box `k` on every axis. */
  function Centroids(bs: seq<Box>): (r: seq<Vec3>)
    ensures |r| == |bs|
    ensures forall k, a: Axis :: 0 <= k < |bs| ==>
              Coord(r[k], a) - Coord(bs[k].lo, a) == Coord(bs[k].hi, a) - Coord(r[k], a)
  {
    seq(|bs|, k requires 0 <= k < |bs| => Centroid(bs[k]))
  }

  /** The indices `0, 1, ..., n - 1` in order. */
  function Identity(n: nat): (r: seq<nat>)
    ensures |r| == n
    ensures forall k :: 0 <= k < n ==> r[k] == k
  {
    if n == 0 then [] else Identity(n - 1) + [n - 1]
  }

  /** Every index below `n` occurs exactly once in `Identity(n)`, and no other does. */
  lemma {:induction false} IdentityCounts(n: nat)
    ensures forall x: nat :: multiset(Identity(n))[x] == if x < n then 1 else 0
  {
    if n > 0 {
      IdentityCounts(n - 1);
      assert multiset(Identity(n)) == multiset(Identity(n - 1)) + multiset{(n - 1) as nat};
    }
  }

  /** Index-wise bounds on a sequence are bounds on its members. */
  lemma MembersBelow(s: seq<nat>, bound: nat)
    requires forall k :: 0 <= k < |s| ==> s[k] < bound
    ensures forall x :: x in s ==> x < bound
  {
  }

  /** An internal node whose subtree holds a rearrangement of `ids`, split on the axis
      `ids` choose, with two built children, is built. */
  lemma InternalBuilt(t: Tree, input: seq<Box>, cent: seq<Vec3>, maxDepth: nat, perLeaf: nat,
                      depth: nat, ids: seq<nat>, axis: Axis, split: real)
    requires |ids| > 0 && |cent| <= |input|
    requires forall x :: x in ids ==> x < |cent|
    requires !StopsHere(cent, ids, depth, maxDepth, perLeaf)
    requires axis == NodeAxis(cent, ids) && split == NodeSplit(cent, ids)
    requires t.index == [] && |t.children| == 2
    requires t.box == Hull(Gather(input, ids))
    requires multiset(LeafIndices(t)) == multiset(ids)
    requires SplitsAt(cent, LeafIndices(t.children[0]), LeafIndices(t.children[1]), axis, split)
    requires ChildrenBuilt(t, input, cent, maxDepth, perLeaf, depth)
    ensures Built(t, input, cent, maxDepth, perLeaf, depth)
  {
    var all := LeafIndices(t);
    SameMembers(all, ids);
    assert |all| == |ids| by {
      assert |multiset(all)| == |multiset(ids)|;
    }
    NodeSplitSameContents(cent, ids, all);
    GatherSameElements(input, ids, all);
    HullSameElements(Gather(input, ids), Gather(input, all));
    BuiltFromChildren(t, input, cent, maxDepth, perLeaf, depth);
  }

  /** `construct_recursively`: fills `node` from `local`, the indices it is handed. The
      node's box is the union of their input boxes. It becomes a leaf holding `local`
      when the depth bound is reached, when at most `perLeaf` indices remain or when
      their centroids coincide; otherwise `local` is partitioned about the split value on
      the axis of largest centroid extent and the two groups go to two fresh children one
      level deeper. `after` is the index array as the call leaves it: a rearrangement of
      `local`, and exactly the indices of the subtree's leaves in order. */
  method ConstructRecursively(node: Tree, input: seq<Box>, cent: seq<Vec3>, maxDepth: nat,
                              perLeaf: nat, depth: nat, local: seq<nat>)
    returns (t: Tree, after: seq<nat>)
    requires node.index == [] && node.children == []
    requires |cent| <= |input|
    requires |local| > 0
    requires forall k :: 0 <= k < |local| ==> local[k] < |cent|
    ensures |after| == |local| && multiset(after) == multiset(local)
    ensures LeafIndices(t) == after
    ensures Built(t, input, cent, maxDepth, perLeaf, depth)
    ensures t.children == [] ==> t.index == local && after == local
    decreases |local|, 2
  {
    MembersBelow(local, |cent|);
    var box := Hull(Gather(input, local));
    if depth == maxDepth || |local| <= perLeaf {
      return node.(box := box, index := local), local;
    }
    var cb := CentroidBox(cent, local);
    var mean := Mean(cent, local);
    if cb.hi == cb.lo {
      DegenerateIffCoincident(cent, local);
      return node.(box := box, index := local), local;
    }
    DegenerateIffCoincident(cent, local);
    var axis := ChooseAxis(cb);
    ChosenAxisSpreads(cent, local);
    var split := SplitValue(cb, mean, axis);
    BothSidesOccupied(cent, local, axis, split);
    t, after := SplitNode(node.(box := box), input, cent, maxDepth, perLeaf, depth, local, axis, split);
    InternalBuilt(t, input, cent, maxDepth, perLeaf, depth, local, axis, split);
  }

  /** The internal-node branch of `construct_recursively`: partitions `local` about
      `split` on `axis` and builds the two groups into two fresh children, the group at
      most `split` first and the second handed the array from position `i` on. */
  method SplitNode(node: Tree, input: seq<Box>, cent: seq<Vec3>, maxDepth: nat, perLeaf: nat,
                   depth: nat, local: seq<nat>, axis: Axis, split: real)
    returns (t: Tree, after: seq<nat>)
    requires node.index == [] && node.children == []
    requires |cent| <= |input|
    requires forall k :: 0 <= k < |local| ==> local[k] < |cent|
    requires exists k :: 0 <= k < |local| && Coord(cent[local[k]], axis) <= split
    requires exists k :: 0 <= k < |local| && Coord(cent[local[k]], axis) > split
    ensures |after| == |local| && multiset(after) == multiset(local)
    ensures t.box == node.box && t.index == [] && |t.children| == 2
    ensures LeafIndices(t) == after
    ensures SplitsAt(cent, LeafIndices(t.children[0]), LeafIndices(t.children[1]), axis, split)
    ensures ChildrenBuilt(t, input, cent, maxDepth, perLeaf, depth)
    decreases |local|, 1
  {
    var parted, i := Partition(local, cent, axis, split);
    var lowerAfter, upperAfter;
    t, lowerAfter, upperAfter := BuildChildren(node, input, cent, maxDepth, perLeaf, depth, parted[..i], parted[i..]);
    after := lowerAfter + upperAfter;
    ChildrenSplit(t, local, parted, i, cent, axis, split);
  }

  /** `children.resize(2)` and the two recursive calls: a fresh first child built one
      level deeper from `lower`, then a fresh second child from `upper`. Each hands back
      its part of the index array rearranged into its leaves' order. */
  method BuildChildren(node: Tree, input: seq<Box>, cent: seq<Vec3>, maxDepth: nat, perLeaf: nat,
                       depth: nat, lower: seq<nat>, upper: seq<nat>)
    returns (t: Tree, lowerAfter: seq<nat>, upperAfter: seq<nat>)
    requires |cent| <= |input|
    requires |lower| > 0 && |upper| > 0
    requires forall k :: 0 <= k < |lower| ==> lower[k] < |cent|
    requires forall k :: 0 <= k < |upper| ==> upper[k] < |cent|
    ensures t.box == node.box && t.index == node.index && |t.children| == 2
    ensures |lowerAfter| == |lower| && multiset(lowerAfter) == multiset(lower)
    ensures |upperAfter| == |upper| && multiset(upperAfter) == multiset(upper)
    ensures LeafIndices(t.children[0]) == lowerAfter && LeafIndices(t.children[1]) == upperAfter
    ensures ChildrenBuilt(t, input, cent, maxDepth, perLeaf, depth)
    decreases |lower| + |upper|, 0
  {
    var left, right;
    left, lowerAfter := ConstructRecursively(Fresh, input, cent, maxDepth, perLeaf, depth + 1, lower);
    right, upperAfter := ConstructRecursively(Fresh, input, cent, maxDepth, perLeaf, depth + 1, upper);
    t := node.(children := [left, right]);
  }

  /** After the partition, each child holds a rearrangement of its group: together they
      hold a rearrangement of the node's indices, and the split value separates them. */
  lemma ChildrenSplit(t: Tree, local: seq<nat>, parted: seq<nat>, i: nat,
                      cent: seq<Vec3>, axis: Axis, split: real)
    requires t.index == [] && |t.children| == 2
    requires i <= |parted| && multiset(parted) == multiset(local)
    requires forall k :: 0 <= k < i ==> parted[k] < |cent| && Coord(cent[parted[k]], axis) <= split
    requires forall k :: i <= k < |parted| ==> parted[k] < |cent| && Coord(cent[parted[k]], axis) > split
    requires multiset(LeafIndices(t.children[0])) == multiset(parted[..i])
    requires multiset(LeafIndices(t.children[1])) == multiset(parted[i..])
    ensures LeafIndices(t) == LeafIndices(t.children[0]) + LeafIndices(t.children[1])
    ensures multiset(LeafIndices(t)) == multiset(local)
    ensures SplitsAt(cent, LeafIndices(t.children[0]), LeafIndices(t.children[1]), axis, split)
  {
    var lower, upper := parted[..i], parted[i..];
    assert parted == lower + upper;
    LeafIndicesOfPair(t);
    SameMembers(LeafIndices(t.children[0]), lower);
    SameMembers(LeafIndices(t.children[1]), upper);
  }

  /** Gathering the first `n` indices in order gives the first `n` boxes. */
  lemma GatherIdentity(bs: seq<Box>, n: nat)
    requires n <= |bs|
    ensures forall x :: x in Identity(n) ==> x < |bs|
    ensures Gather(bs, Identity(n)) == bs[..n]
  {
    MembersBelow(Identity(n), |bs|);
  }

  /** A node holding a rearrangement of the first `n` indices, whose box is the union of
      their input boxes, has as its box the union of the first `n` input boxes, and so
      contains each of them. */
  lemma RootBox(box: Box, ids: seq<nat>, input: seq<Box>, n: nat)
    requires 0 < n <= |input| && |ids| > 0
    requires multiset(ids) == multiset(Identity(n))
    requires forall x :: x in ids ==> x < |input|
    requires box == Hull(Gather(input, ids))
    ensures box == Hull(input[..n])
    ensures forall k :: 0 <= k < n ==> Contains(box, input[k])
  {
    SameMembers(Identity(n), ids);
    GatherIdentity(input, n);
    GatherSameElements(input, ids, Identity(n));
    HullSameElements(Gather(input, ids), input[..n]);
    HullIsHull(input[..n]);
    forall k | 0 <= k < n ensures Contains(box, input[k]) {
      assert input[..n][k] == input[k];
    }
  }

  /** A rearrangement of the first `n` indices has length `n`, holds each index below `n`
      exactly once and no other. */
  lemma RootCounts(ids: seq<nat>, n: nat)
    requires multiset(ids) == multiset(Identity(n))
    ensures |ids| == n
    ensures forall x: nat :: x < n ==> multiset(ids)[x] == 1
    ensures forall x :: x in ids ==> x < n
  {
    IdentityCounts(n);
    forall x | x in ids ensures x < n {
      assert x in multiset(ids);
    }
    assert |multiset(ids)| == |multiset(Identity(n))|;
  }

  /** A rearrangement of the first `n` indices whose centroids all coincide. */
  lemma CoincidentIdentity(ids: seq<nat>, cent: seq<Vec3>, n: nat)
    requires 0 < n <= |cent|
    requires multiset(ids) == multiset(Identity(n))
    requires forall k :: 0 <= k < n ==> cent[k] == cent[0]
    ensures |ids| > 0 && forall x :: x in ids ==> x < |cent|
    ensures Coincident(cent, ids)
  {
    var id := Identity(n);
    MembersBelow(id, |cent|);
    assert id[0] == 0;
    forall x | x in id ensures cent[x] == cent[id[0]] {
      var k :| 0 <= k < n && id[k] == x;
    }
    assert Coincident(cent, id);
    SameMembers(id, ids);
    CentroidBoxSameElements(cent, id, ids);
  }

  /** When all the centroids coincide, the root of a tree built over a rearrangement of
      the first `n` indices is a leaf. */
  lemma CoincidentRootIsLeaf(t: Tree, input: seq<Box>, cent: seq<Vec3>, maxDepth: nat, perLeaf: nat, n: nat)
    requires 0 < n <= |cent|
    requires Built(t, input, cent, maxDepth, perLeaf, 0)
    requires multiset(LeafIndices(t)) == multiset(Identity(n))
    requires forall k :: 0 <= k < n ==> cent[k] == cent[0]
    ensures t.children == []
  {
    if t.children != [] {
      BuiltInternal(t, input, cent, maxDepth, perLeaf, 0);
      CoincidentIdentity(LeafIndices(t), cent, n);
      assert false;
    }
  }

  /** What the build promises at the root, for a tree built over a rearrangement of the
      first `n` indices with their centroids: each index held once, the box of all the
      first `n` input boxes, bounded depth, two children per internal node, and a single
      leaf when the root already meets the stopping rule. */
  lemma RootFacts(t: Tree, input: seq<Box>, cent: seq<Vec3>, maxDepth: nat, perLeaf: nat, n: nat)
    requires 0 < n <= |input| && |cent| == n
    requires forall k :: 0 <= k < n ==> cent[k] == Centroid(input[k])
    requires Built(t, input, cent, maxDepth, perLeaf, 0)
    requires multiset(LeafIndices(t)) == multiset(Identity(n))
    ensures forall x: nat :: x < n ==> multiset(LeafIndices(t))[x] == 1
    ensures forall x :: x in LeafIndices(t) ==> x < n
    ensures t.box == Hull(input[..n])
    ensures forall k :: 0 <= k < n ==> Contains(t.box, input[k])
    ensures WithinDepth(t, 0, maxDepth)
    ensures Binary(t)
    ensures n <= perLeaf || maxDepth == 0 ==> t.children == []
    ensures (forall k :: 0 <= k < n ==> Centroid(input[k]) == Centroid(input[0])) ==> t.children == []
  {
    RootCounts(LeafIndices(t), n);
    RootBox(t.box, LeafIndices(t), input, n);
    if forall k :: 0 <= k < n ==> Centroid(input[k]) == Centroid(input[0]) {
      CoincidentRootIsLeaf(t, input, cent, maxDepth, perLeaf, n);
    }
    BuiltWithinDepth(t, input, cent, maxDepth, perLeaf, 0);
    BuiltIsBinary(t, input, cent, maxDepth, perLeaf, 0);
  }

  /** `construct_from_leaf_boxes`: clears `self`, numbers the first `n` input boxes
      `0 .. n - 1`, computes their centroids and builds the whole tree from depth 0. */
  method ConstructFromLeafBoxes(self: Tree, n: nat, input: seq<Box>, maxDepth: nat, perLeaf: nat)
    returns (t: Tree)
    requires 1 <= n <= |input| && perLeaf > 0
    ensures Built(t, input, Centroids(input[..n]), maxDepth, perLeaf, 0)
    ensures multiset(LeafIndices(t)) == multiset(Identity(n))
    ensures forall x: nat :: x < n ==> multiset(LeafIndices(t))[x] == 1
    ensures forall x :: x in LeafIndices(t) ==> x < n
    ensures t.box == Hull(input[..n])
    ensures forall k :: 0 <= k < n ==> Contains(t.box, input[k])
    ensures WithinDepth(t, 0, maxDepth)
    ensures Binary(t)
    ensures n <= perLeaf || maxDepth == 0 ==> t.children == [] && t.index == Identity(n)
    ensures (forall k :: 0 <= k < n ==> Centroid(input[k]) == Centroid(input[0])) ==>
              t.children == [] && t.index == Identity(n)
  {
    var root := Clear(self);
    var index: seq<nat> := [];
    var cent: seq<Vec3> := [];
    var i := 0;
    while i < n
      invariant i <= n
      invariant |index| == i && |cent| == i
      invariant forall k :: 0 <= k < i ==> index[k] == k && cent[k] == Centroid(input[k])
    {
      index := index + [i];
      cent := cent + [Centroid(input[i])];
      i := i + 1;
    }
    assert index == Identity(n);
    assert cent == Centroids(input[..n]);
    var after;
    t, after := ConstructRecursively(root, input, cent, maxDepth, perLeaf, 0, index);
    assert multiset(LeafIndices(t)) == multiset(Identity(n));
    RootFacts(t, input, cent, maxDepth, perLeaf, n);
  }

  /** `construct_from_leaf_boxes` with its default arguments: at most 30 levels below the
      root and one box per leaf. */
  method ConstructWithDefaults(self: Tree, n: nat, input: seq<Box>) returns (t: Tree)
    requires 1 <= n <= |input|
    ensures Built(t, input, Centroids(input[..n]), DefaultMaxDepth, DefaultBoxesPerLeaf, 0)
    ensures multiset(LeafIndices(t)) == multiset(Identity(n))
    ensures WithinDepth(t, 0, 30) && Binary(t)
    ensures n == 1 ==> t.children == [] && t.index == [0]
  {
    t := ConstructFromLeafBoxes(self, n, input, DefaultMaxDepth, DefaultBoxesPerLeaf);
  }
}
