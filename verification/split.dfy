/** How a node decides where to split: the bounding box of its centroids, the axis of
    largest centroid extent, the mean centroid and the split value on that axis. */
module SplitChoice {
  import opened Geometry

  /** The point box of every centroid, by input index. */
  function PointBoxes(cent: seq<Vec3>): (r: seq<Box>)
    ensures |r| == |cent|
    ensures forall k :: 0 <= k < |cent| ==> r[k] == PointBox(cent[k])
  {
    seq(|cent|, k requires 0 <= k < |cent| => PointBox(cent[k]))
  }

  /** The box of the centroids of `ids`: started at the first centroid and grown with
      `IncludePoint` by the others in order. */
  function CentroidBox(cent: seq<Vec3>, ids: seq<nat>): Box
    requires |ids| > 0
    requires forall x :: x in ids ==> x < |cent|
  {
    assert ids[0] in ids;
    if |ids| == 1 then PointBox(cent[ids[0]])
    else
      var prefix := ids[..|ids| - 1];
      assert ids[|ids| - 1] in ids;
      assert forall x :: x in prefix ==> x in ids;
      IncludePoint(CentroidBox(cent, prefix), cent[ids[|ids| - 1]])
  }

  /** Growing a box point by point gives the union of the point boxes of the centroids. */
  lemma {:induction false} CentroidBoxIsHull(cent: seq<Vec3>, ids: seq<nat>)
    requires |ids| > 0
    requires forall x :: x in ids ==> x < |cent|
    ensures CentroidBox(cent, ids) == Hull(Gather(PointBoxes(cent), ids))
  {
    if |ids| > 1 {
      var prefix := ids[..|ids| - 1];
      assert ids[|ids| - 1] in ids;
      assert forall x :: x in prefix ==> x in ids;
      CentroidBoxIsHull(cent, prefix);
      assert Gather(PointBoxes(cent), ids)[..|ids| - 1] == Gather(PointBoxes(cent), prefix);
    }
  }

  /** Every centroid of `ids` lies within the centroid box, on every axis. */
  lemma CentroidsInBox(cent: seq<Vec3>, ids: seq<nat>)
    requires |ids| > 0
    requires forall x :: x in ids ==> x < |cent|
    ensures forall x, a: Axis :: x in ids ==>
      Coord(CentroidBox(cent, ids).lo, a) <= Coord(cent[x], a) <= Coord(CentroidBox(cent, ids).hi, a)
  {
    var cb := CentroidBox(cent, ids);
    var g := Gather(PointBoxes(cent), ids);
    CentroidBoxIsHull(cent, ids);
    HullIsHull(g);
    forall x, a: Axis | x in ids
      ensures Coord(cb.lo, a) <= Coord(cent[x], a) <= Coord(cb.hi, a)
    {
      var k :| 0 <= k < |ids| && ids[k] == x;
      assert Contains(cb, g[k]);
    }
  }

  /** All centroids of `ids` are the same point. */
  predicate Coincident(cent: seq<Vec3>, ids: seq<nat>)
    requires |ids| > 0
    requires forall x :: x in ids ==> x < |cent|
  {
    assert ids[0] in ids;
    forall x :: x in ids ==> cent[x] == cent[ids[0]]
  }

  /** The centroid box is a single point exactly when all the centroids coincide. */
  lemma DegenerateIffCoincident(cent: seq<Vec3>, ids: seq<nat>)
    requires |ids| > 0
    requires forall x :: x in ids ==> x < |cent|
    ensures CentroidBox(cent, ids).lo == CentroidBox(cent, ids).hi <==> Coincident(cent, ids)
  {
    var cb := CentroidBox(cent, ids);
    var g := Gather(PointBoxes(cent), ids);
    CentroidBoxIsHull(cent, ids);
    HullIsHull(g);
    CentroidsInBox(cent, ids);
    if cb.lo == cb.hi {
      forall x | x in ids ensures cent[x] == cent[ids[0]] {
        forall a: Axis ensures Coord(cent[x], a) == Coord(cent[ids[0]], a) {
          assert Coord(cb.lo, a) <= Coord(cent[x], a) <= Coord(cb.hi, a);
          assert Coord(cb.lo, a) <= Coord(cent[ids[0]], a) <= Coord(cb.hi, a);
        }
        VecExt(cent[x], cent[ids[0]]);
      }
    }
    if Coincident(cent, ids) {
      forall a: Axis ensures Coord(cb.lo, a) == Coord(cb.hi, a) {
        assert Attained(cb, g, a);
        var i :| 0 <= i < |g| && Coord(g[i].lo, a) == Coord(cb.lo, a);
        var j :| 0 <= j < |g| && Coord(g[j].hi, a) == Coord(cb.hi, a);
        assert ids[i] in ids && ids[j] in ids;
      }
      VecExt(cb.lo, cb.hi);
    }
  }

  /** Index lists with the same members have the same centroid box and agree on whether
      their centroids coincide. */
  lemma CentroidBoxSameElements(cent: seq<Vec3>, ids1: seq<nat>, ids2: seq<nat>)
    requires |ids1| > 0
    requires forall x :: x in ids1 ==> x < |cent|
    requires forall x :: x in ids1 <==> x in ids2
    ensures |ids2| > 0 && forall x :: x in ids2 ==> x < |cent|
    ensures CentroidBox(cent, ids1) == CentroidBox(cent, ids2)
    ensures Coincident(cent, ids1) <==> Coincident(cent, ids2)
  {
    assert ids1[0] in ids2;
    CentroidBoxIsHull(cent, ids1);
    CentroidBoxIsHull(cent, ids2);
    GatherSameElements(PointBoxes(cent), ids1, ids2);
    HullSameElements(Gather(PointBoxes(cent), ids1), Gather(PointBoxes(cent), ids2));
    DegenerateIffCoincident(cent, ids1);
    DegenerateIffCoincident(cent, ids2);
  }

  /** When the centroids do not all coincide, the chosen axis has positive extent. */
  lemma ChosenAxisSpreads(cent: seq<Vec3>, ids: seq<nat>)
    requires |ids| > 0
    requires forall x :: x in ids ==> x < |cent|
    requires !Coincident(cent, ids)
    ensures Extent(CentroidBox(cent, ids), ChooseAxis(CentroidBox(cent, ids))) > 0.0
  {
    var cb := CentroidBox(cent, ids);
    DegenerateIffCoincident(cent, ids);
    CentroidsInBox(cent, ids);
    assert ids[0] in ids;
    if forall a: Axis :: Coord(cb.lo, a) == Coord(cb.hi, a) {
      VecExt(cb.lo, cb.hi);
    }
    var a: Axis :| Coord(cb.lo, a) != Coord(cb.hi, a);
    assert Coord(cb.lo, a) <= Coord(cent[ids[0]], a) <= Coord(cb.hi, a);
    assert Extent(cb, a) > 0.0;
  }

  /** A split value strictly inside the centroid range on `axis` leaves some centroid of
      `ids` on each side: the ones on the two faces of the centroid box. */
  lemma BothSidesOccupied(cent: seq<Vec3>, ids: seq<nat>, axis: Axis, split: real)
    requires |ids| > 0
    requires forall x :: x in ids ==> x < |cent|
    requires Coord(CentroidBox(cent, ids).lo, axis) < split < Coord(CentroidBox(cent, ids).hi, axis)
    ensures exists k :: 0 <= k < |ids| && ids[k] < |cent| && Coord(cent[ids[k]], axis) <= split
    ensures exists k :: 0 <= k < |ids| && ids[k] < |cent| && Coord(cent[ids[k]], axis) > split
  {
    var cb := CentroidBox(cent, ids);
    var g := Gather(PointBoxes(cent), ids);
    CentroidBoxIsHull(cent, ids);
    HullIsHull(g);
    assert Attained(cb, g, axis);
    var i :| 0 <= i < |g| && Coord(g[i].lo, axis) == Coord(cb.lo, axis);
    var j :| 0 <= j < |g| && Coord(g[j].hi, axis) == Coord(cb.hi, axis);
    assert Coord(cent[ids[i]], axis) <= split;
    assert Coord(cent[ids[j]], axis) > split;
  }

  function Extent(b: Box, a: Axis): real {
    Coord(b.hi, a) - Coord(b.lo, a)
  }

  /** The axis of largest extent; on a tie the lowest such axis. The scan over axes 1
      and 2 replaces the current axis only when the next extent is strictly larger. */
  function ChooseAxis(cb: Box): (axis: Axis)
    ensures Extent(cb, 0) <= Extent(cb, axis)
    ensures Extent(cb, 1) <= Extent(cb, axis)
    ensures Extent(cb, 2) <= Extent(cb, axis)
    ensures axis != 0 ==> Extent(cb, 0) < Extent(cb, axis)
    ensures axis == 2 ==> Extent(cb, 1) < Extent(cb, axis)
  {
    var first: Axis := if Extent(cb, 1) > Extent(cb, 0) then 1 else 0;
    if Extent(cb, 2) > Extent(cb, first) then 2 else first
  }

  /** The centroids of `ids` added up in order. */
  function CentroidSum(cent: seq<Vec3>, ids: seq<nat>): Vec3
    requires |ids| > 0
    requires forall x :: x in ids ==> x < |cent|
  {
    assert ids[0] in ids && ids[|ids| - 1] in ids;
    if |ids| == 1 then cent[ids[0]]
    else
      var prefix := ids[..|ids| - 1];
      assert forall x :: x in prefix ==> x in ids;
      Add(CentroidSum(cent, prefix), cent[ids[|ids| - 1]])
  }

  /** The sum scaled by `1/num_indices`. */
  function Mean(cent: seq<Vec3>, ids: seq<nat>): Vec3
    requires |ids| > 0
    requires forall x :: x in ids ==> x < |cent|
  {
    Scale(1.0 / (|ids| as real), CentroidSum(cent, ids))
  }

  /** Summing two lists one after the other is adding their sums. */
  lemma {:induction false} SumAppend(cent: seq<Vec3>, s: seq<nat>, t: seq<nat>)
    requires |s| > 0 && |t| > 0
    requires forall x :: x in s + t ==> x < |cent|
    ensures forall x :: x in s ==> x < |cent|
    ensures forall x :: x in t ==> x < |cent|
    ensures CentroidSum(cent, s + t) == Add(CentroidSum(cent, s), CentroidSum(cent, t))
    decreases |t|
  {
    var st := s + t;
    assert forall x :: x in s ==> x in st;
    assert forall x :: x in t ==> x in st;
    if |t| == 1 {
      assert st[..|st| - 1] == s;
    } else {
      var front := t[..|t| - 1];
      assert st[..|st| - 1] == s + front;
      assert forall x :: x in s + front ==> x in st;
      SumAppend(cent, s, front);
    }
  }

  /** Inserting the index `x` anywhere in a list adds its centroid to the sum. */
  lemma SumInsert(cent: seq<Vec3>, p: seq<nat>, x: nat, q: seq<nat>)
    requires |p + q| > 0 && x < |cent|
    requires forall y :: y in p + q ==> y < |cent|
    ensures forall y :: y in p + [x] + q ==> y < |cent|
    ensures CentroidSum(cent, p + [x] + q) == Add(CentroidSum(cent, p + q), cent[x])
  {
    var b := p + [x] + q;
    forall y | y in b ensures y < |cent| {
      assert y == x || y in p + q;
    }
    if q == [] {
      assert b[..|b| - 1] == p && p + q == p;
    } else if p == [] {
      assert b == [x] + q && p + q == q;
      SumAppend(cent, [x], q);
      AddSwap(cent[x], CentroidSum(cent, q), cent[x]);
    } else {
      var px := p + [x];
      assert px[..|p|] == p;
      assert forall y :: y in px ==> y in b;
      assert b == px + q;
      SumAppend(cent, px, q);
      SumAppend(cent, p, q);
      AddSwap(CentroidSum(cent, p), cent[x], CentroidSum(cent, q));
    }
  }

  /** Lists with the same contents have the same members. */
  lemma SameMembers(a: seq<nat>, b: seq<nat>)
    requires multiset(a) == multiset(b)
    ensures forall x :: x in a <==> x in b
  {
    forall x ensures x in a <==> x in b {
      assert x in a <==> x in multiset(a);
      assert x in b <==> x in multiset(b);
    }
  }

  /** Removing the last entry of `a` and an equal entry of `b` keeps the contents equal. */
  lemma RemoveMatching(a: seq<nat>, b: seq<nat>, j: nat)
    requires |a| > 0 && j < |b| && b[j] == a[|a| - 1]
    requires multiset(a) == multiset(b)
    ensures multiset(a[..|a| - 1]) == multiset(b[..j] + b[j + 1..])
  {
    var x := b[j];
    var front, p, q := a[..|a| - 1], b[..j], b[j + 1..];
    assert a == front + [x];
    assert multiset(a) == multiset(front) + multiset{x};
    assert b == p + [x] + q;
    assert multiset(b) == multiset(p) + multiset{x} + multiset(q);
    assert multiset(front) == multiset(a) - multiset{x};
    assert multiset(p) + multiset(q) == multiset(b) - multiset{x};
    assert multiset(p + q) == multiset(p) + multiset(q);
  }

  /** The sum depends only on the contents of the list, not on its order. */
  lemma {:induction false} SumSameContents(cent: seq<Vec3>, a: seq<nat>, b: seq<nat>)
    requires |a| > 0 && multiset(a) == multiset(b)
    requires forall x :: x in a ==> x < |cent|
    ensures |b| > 0 && forall x :: x in b ==> x < |cent|
    ensures CentroidSum(cent, a) == CentroidSum(cent, b)
    decreases |a|
  {
    assert |multiset(a)| == |multiset(b)|;
    SameMembers(a, b);
    var x := a[|a| - 1];
    assert x in a && x in multiset(b);
    var j :| 0 <= j < |b| && b[j] == x;
    if |a| > 1 {
      var front := a[..|a| - 1];
      var p, q := b[..j], b[j + 1..];
      RemoveMatching(a, b, j);
      assert forall y :: y in front ==> y in a;
      SumSameContents(cent, front, p + q);
      assert b == p + [x] + q;
      SumInsert(cent, p, x, q);
    } else {
      assert b == [x];
    }
  }

  /** So does the mean. */
  lemma MeanSameContents(cent: seq<Vec3>, a: seq<nat>, b: seq<nat>)
    requires |a| > 0 && multiset(a) == multiset(b)
    requires forall x :: x in a ==> x < |cent|
    ensures |b| > 0 && forall x :: x in b ==> x < |cent|
    ensures Mean(cent, a) == Mean(cent, b)
  {
    assert |multiset(a)| == |multiset(b)|;
    SumSameContents(cent, a, b);
  }

  /** `m` added to itself `n` times. */
  function Repeat(n: nat, m: real): real {
    if n == 0 then 0.0 else Repeat(n - 1, m) + m
  }

  lemma {:induction false} RepeatIsProduct(n: nat, m: real)
    ensures Repeat(n, m) == (n as real) * m
  {
    if n > 0 {
      RepeatIsProduct(n - 1, m);
    }
  }

  /** A lower bound on every centroid bounds the sum, strictly when one centroid exceeds it. */
  lemma {:induction false} SumAtLeast(cent: seq<Vec3>, ids: seq<nat>, a: Axis, m: real)
    requires |ids| > 0
    requires forall x :: x in ids ==> x < |cent| && m <= Coord(cent[x], a)
    ensures Coord(CentroidSum(cent, ids), a) >= Repeat(|ids|, m)
    ensures (exists x :: x in ids && m < Coord(cent[x], a)) ==>
      Coord(CentroidSum(cent, ids), a) > Repeat(|ids|, m)
  {
    assert ids[0] in ids;
    if |ids| == 1 {
      assert CentroidSum(cent, ids) == cent[ids[0]];
      assert forall x :: x in ids ==> x == ids[0];
    } else {
      var prefix := ids[..|ids| - 1];
      var last := ids[|ids| - 1];
      assert last in ids;
      assert forall x :: x in prefix ==> x in ids;
      SumAtLeast(cent, prefix, a, m);
      var sp := Coord(CentroidSum(cent, prefix), a);
      var c := Coord(cent[last], a);
      assert Coord(CentroidSum(cent, ids), a) == sp + c;
      if exists x :: x in ids && m < Coord(cent[x], a) {
        var x :| x in ids && m < Coord(cent[x], a);
        if x != last {
          assert x in prefix;
        }
      }
    }
  }

  /** An upper bound on every centroid bounds the sum, strictly when one centroid is below it. */
  lemma {:induction false} SumAtMost(cent: seq<Vec3>, ids: seq<nat>, a: Axis, m: real)
    requires |ids| > 0
    requires forall x :: x in ids ==> x < |cent| && Coord(cent[x], a) <= m
    ensures Coord(CentroidSum(cent, ids), a) <= Repeat(|ids|, m)
    ensures (exists x :: x in ids && Coord(cent[x], a) < m) ==>
      Coord(CentroidSum(cent, ids), a) < Repeat(|ids|, m)
  {
    assert ids[0] in ids;
    if |ids| == 1 {
      assert CentroidSum(cent, ids) == cent[ids[0]];
      assert forall x :: x in ids ==> x == ids[0];
    } else {
      var prefix := ids[..|ids| - 1];
      var last := ids[|ids| - 1];
      assert last in ids;
      assert forall x :: x in prefix ==> x in ids;
      SumAtMost(cent, prefix, a, m);
      var sp := Coord(CentroidSum(cent, prefix), a);
      var c := Coord(cent[last], a);
      assert Coord(CentroidSum(cent, ids), a) == sp + c;
      if exists x :: x in ids && Coord(cent[x], a) < m {
        var x :| x in ids && Coord(cent[x], a) < m;
        if x != last {
          assert x in prefix;
        }
      }
    }
  }

  /** The sum of the centroids lies strictly between `n` copies of each end of their range. */
  lemma SumStrictlyInside(cent: seq<Vec3>, ids: seq<nat>, a: Axis)
    requires |ids| > 0
    requires forall x :: x in ids ==> x < |cent|
    requires Extent(CentroidBox(cent, ids), a) > 0.0
    ensures Repeat(|ids|, Coord(CentroidBox(cent, ids).lo, a)) < Coord(CentroidSum(cent, ids), a)
    ensures Coord(CentroidSum(cent, ids), a) < Repeat(|ids|, Coord(CentroidBox(cent, ids).hi, a))
  {
    var cb := CentroidBox(cent, ids);
    var g := Gather(PointBoxes(cent), ids);
    CentroidBoxIsHull(cent, ids);
    HullIsHull(g);
    var lo, hi := Coord(cb.lo, a), Coord(cb.hi, a);
    CentroidsInBox(cent, ids);
    assert Attained(cb, g, a);
    var i :| 0 <= i < |g| && Coord(g[i].lo, a) == lo;
    var j :| 0 <= j < |g| && Coord(g[j].hi, a) == hi;
    assert ids[i] in ids && ids[j] in ids;
    SumAtLeast(cent, ids, a, lo);
    SumAtMost(cent, ids, a, hi);
  }

  /** With exact arithmetic, on any axis where the centroids are spread out the mean lies
      strictly inside their range. */
  lemma MeanStrictlyInside(cent: seq<Vec3>, ids: seq<nat>, a: Axis)
    requires |ids| > 0
    requires forall x :: x in ids ==> x < |cent|
    requires Extent(CentroidBox(cent, ids), a) > 0.0
    ensures Coord(CentroidBox(cent, ids).lo, a) < Coord(Mean(cent, ids), a) < Coord(CentroidBox(cent, ids).hi, a)
  {
    SumStrictlyInside(cent, ids, a);
    MeanBetween(cent, ids, a, Coord(CentroidBox(cent, ids).lo, a), Coord(CentroidBox(cent, ids).hi, a));
  }

  /** Bounds on the sum carry over to the mean. */
  lemma MeanBetween(cent: seq<Vec3>, ids: seq<nat>, a: Axis, lo: real, hi: real)
    requires |ids| > 0
    requires forall x :: x in ids ==> x < |cent|
    requires Repeat(|ids|, lo) < Coord(CentroidSum(cent, ids), a) < Repeat(|ids|, hi)
    ensures lo < Coord(Mean(cent, ids), a) < hi
  {
    ScaledInside(CentroidSum(cent, ids), |ids|, a, lo, hi);
  }

  /** `n * lo < v < n * hi` on axis `a` puts `v / n` strictly between `lo` and `hi` there. */
  lemma ScaledInside(v: Vec3, n: nat, a: Axis, lo: real, hi: real)
    requires n > 0
    requires Repeat(n, lo) < Coord(v, a) < Repeat(n, hi)
    ensures lo < Coord(Scale(1.0 / (n as real), v), a) < hi
  {
    var c := 1.0 / (n as real);
    assert Coord(Scale(c, v), a) == c * Coord(v, a);
    DivideBounds(Coord(v, a), n, Coord(Scale(c, v), a), lo, hi);
  }

  lemma DivideBounds(s: real, n: nat, t: real, lo: real, hi: real)
    requires n > 0 && Repeat(n, lo) < s < Repeat(n, hi)
    requires t == (1.0 / (n as real)) * s
    ensures lo < t < hi
  {
    var k := n as real;
    RepeatIsProduct(n, lo);
    RepeatIsProduct(n, hi);
    assert k * lo < s < k * hi;
    assert (1.0 / k) * (k * lo) == lo;
    assert (1.0 / k) * (k * hi) == hi;
  }

  /** The split value: the mean on `axis`, unless it is not strictly inside the centroid
      range, in which case the middle of that range. */
  function SplitValue(cb: Box, mean: Vec3, axis: Axis): (split: real)
    requires Extent(cb, axis) > 0.0
    ensures Coord(cb.lo, axis) < split < Coord(cb.hi, axis)
    ensures Coord(cb.lo, axis) < Coord(mean, axis) < Coord(cb.hi, axis) ==> split == Coord(mean, axis)
  {
    var split := Coord(mean, axis);
    if split <= Coord(cb.lo, axis) || split >= Coord(cb.hi, axis) then
      0.5 * (Coord(cb.lo, axis) + Coord(cb.hi, axis))
    else
      split
  }

  /** The axis a node holding `ids` splits on: the one of largest centroid extent. */
  function NodeAxis(cent: seq<Vec3>, ids: seq<nat>): Axis
    requires |ids| > 0
    requires forall x :: x in ids ==> x < |cent|
  {
    ChooseAxis(CentroidBox(cent, ids))
  }

  /** The split value of a node holding `ids` whose centroids do not all coincide. With
      exact arithmetic the midpoint fallback never applies: the value is always the mean
      centroid coordinate on the node's axis, strictly inside the centroid box. */
  function NodeSplit(cent: seq<Vec3>, ids: seq<nat>): (split: real)
    requires |ids| > 0
    requires forall x :: x in ids ==> x < |cent|
    requires !Coincident(cent, ids)
    ensures split == Coord(Mean(cent, ids), NodeAxis(cent, ids))
    ensures Coord(CentroidBox(cent, ids).lo, NodeAxis(cent, ids)) < split
    ensures split < Coord(CentroidBox(cent, ids).hi, NodeAxis(cent, ids))
  {
    ChosenAxisSpreads(cent, ids);
    MeanStrictlyInside(cent, ids, NodeAxis(cent, ids));
    SplitValue(CentroidBox(cent, ids), Mean(cent, ids), NodeAxis(cent, ids))
  }

  /** The axis and split value of a node depend only on the indices it holds, not on
      their order. */
  lemma NodeSplitSameContents(cent: seq<Vec3>, a: seq<nat>, b: seq<nat>)
    requires |a| > 0 && multiset(a) == multiset(b)
    requires forall x :: x in a ==> x < |cent|
    ensures |b| > 0 && forall x :: x in b ==> x < |cent|
    ensures NodeAxis(cent, a) == NodeAxis(cent, b)
    ensures Coincident(cent, a) <==> Coincident(cent, b)
    ensures !Coincident(cent, a) ==> NodeSplit(cent, a) == NodeSplit(cent, b)
  {
    MeanSameContents(cent, a, b);
    SameMembers(a, b);
    CentroidBoxSameElements(cent, a, b);
  }
}
