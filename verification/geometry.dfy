/** Three-component vectors and axis-aligned boxes, kept to what the tree builder uses:
    min/max corners, union with a box or a point, a point box and a centroid.
    Coordinates are exact reals. */
module Geometry {

  type Vec3 = (real, real, real)

  /** One of the three spatial axes. */
  type Axis = a: nat | a < 3

  function Coord(v: Vec3, a: Axis): real {
    if a == 0 then v.0 else if a == 1 then v.1 else v.2
  }

  /** Two vectors that agree on every axis are equal. */
  lemma VecExt(u: Vec3, v: Vec3)
    requires forall a: Axis :: Coord(u, a) == Coord(v, a)
    ensures u == v
  {
    assert Coord(u, 0) == Coord(v, 0);
    assert Coord(u, 1) == Coord(v, 1);
    assert Coord(u, 2) == Coord(v, 2);
  }

  function Add(u: Vec3, v: Vec3): (r: Vec3)
    ensures forall a: Axis :: Coord(r, a) == Coord(u, a) + Coord(v, a)
  {
    (u.0 + v.0, u.1 + v.1, u.2 + v.2)
  }

  /** Vector addition is commutative, so the terms of a sum can be exchanged. */
  lemma AddSwap(u: Vec3, v: Vec3, w: Vec3)
    ensures Add(u, v) == Add(v, u)
    ensures Add(Add(u, v), w) == Add(Add(u, w), v)
  {
  }

  function Scale(s: real, v: Vec3): (r: Vec3)
    ensures forall a: Axis :: Coord(r, a) == s * Coord(v, a)
  {
    (s * v.0, s * v.1, s * v.2)
  }

  function Min(x: real, y: real): real { if x <= y then x else y }

  function Max(x: real, y: real): real { if x <= y then y else x }

  function MinV(u: Vec3, v: Vec3): (r: Vec3)
    ensures forall a: Axis :: Coord(r, a) == Min(Coord(u, a), Coord(v, a))
  {
    (Min(u.0, v.0), Min(u.1, v.1), Min(u.2, v.2))
  }

  function MaxV(u: Vec3, v: Vec3): (r: Vec3)
    ensures forall a: Axis :: Coord(r, a) == Max(Coord(u, a), Coord(v, a))
  {
    (Max(u.0, v.0), Max(u.1, v.1), Max(u.2, v.2))
  }

  /** An axis-aligned box given by its minimum corner `lo` and maximum corner `hi`. */
  datatype Box = Box(lo: Vec3, hi: Vec3)

  /** The degenerate box holding the single point `p`. */
  function PointBox(p: Vec3): Box {
    Box(p, p)
  }

  /** `outer` reaches at least as far as `inner` on both sides of every axis. */
  predicate Contains(outer: Box, inner: Box) {
    forall a: Axis ::
      Coord(outer.lo, a) <= Coord(inner.lo, a) && Coord(inner.hi, a) <= Coord(outer.hi, a)
  }

  lemma ContainsTransitive(a: Box, b: Box, c: Box)
    requires Contains(a, b) && Contains(b, c)
    ensures Contains(a, c)
  {
  }

  /** `b.include_box(c)`: the least box containing both. */
  function IncludeBox(b: Box, c: Box): (r: Box)
    ensures Contains(r, b) && Contains(r, c)
    ensures forall d :: Contains(d, b) && Contains(d, c) ==> Contains(d, r)
  {
    Box(MinV(b.lo, c.lo), MaxV(b.hi, c.hi))
  }

  /** `b.include_point(p)`: growing a box by a point is growing it by the point's box. */
  function IncludePoint(b: Box, p: Vec3): (r: Box)
    ensures r == IncludeBox(b, PointBox(p))
  {
    Box(MinV(b.lo, p), MaxV(b.hi, p))
  }

  /** The centroid `0.5 * (xmin + xmax)` of a box. */
  function Centroid(b: Box): (c: Vec3)
    ensures forall a: Axis :: Coord(c, a) - Coord(b.lo, a) == Coord(b.hi, a) - Coord(c, a)
  {
    Scale(0.5, Add(b.lo, b.hi))
  }

  /** Every box of `bs` lies inside `r`. */
  predicate Encloses(r: Box, bs: seq<Box>) {
    forall k :: 0 <= k < |bs| ==> Contains(r, bs[k])
  }

  /** On axis `a`, both faces of `r` are touched by some box of `bs`. */
  predicate Attained(r: Box, bs: seq<Box>, a: Axis) {
    (exists k :: 0 <= k < |bs| && Coord(bs[k].lo, a) == Coord(r.lo, a)) &&
    (exists k :: 0 <= k < |bs| && Coord(bs[k].hi, a) == Coord(r.hi, a))
  }

  /** `r` is the tight union of the boxes of `bs`. */
  predicate IsHull(r: Box, bs: seq<Box>) {
    Encloses(r, bs) && forall a: Axis :: Attained(r, bs, a)
  }

  /** The union of a non-empty list of boxes, accumulated left to right with `IncludeBox`
      starting from the first one. */
  function Hull(bs: seq<Box>): Box
    requires |bs| > 0
  {
    if |bs| == 1 then bs[0] else IncludeBox(Hull(bs[..|bs| - 1]), bs[|bs| - 1])
  }

  /** The accumulated union is tight: it encloses every box and each of its faces is a
      face of one of the boxes. */
  lemma {:induction false} HullIsHull(bs: seq<Box>)
    requires |bs| > 0
    ensures IsHull(Hull(bs), bs)
  {
    if |bs| > 1 {
      var front := bs[..|bs| - 1];
      var h := Hull(front);
      var r := Hull(bs);
      HullIsHull(front);
      assert r == IncludeBox(h, bs[|bs| - 1]);
      assert forall k :: 0 <= k < |bs| - 1 ==> bs[k] == front[k];
      forall k | 0 <= k < |bs| - 1
        ensures Contains(r, bs[k])
      {
        ContainsTransitive(r, h, front[k]);
      }
      forall a: Axis
        ensures Attained(r, bs, a)
      {
        assert Attained(h, front, a);
      }
    }
  }

  /** The union depends only on which boxes occur, not on their order or repetition. */
  lemma HullUnique(r1: Box, bs1: seq<Box>, r2: Box, bs2: seq<Box>)
    requires IsHull(r1, bs1) && IsHull(r2, bs2)
    requires forall b :: b in bs1 <==> b in bs2
    ensures r1 == r2
  {
    forall a: Axis
      ensures Coord(r1.lo, a) == Coord(r2.lo, a) && Coord(r1.hi, a) == Coord(r2.hi, a)
    {
      assert Attained(r1, bs1, a) && Attained(r2, bs2, a);
      var k1 :| 0 <= k1 < |bs1| && Coord(bs1[k1].lo, a) == Coord(r1.lo, a);
      assert bs1[k1] in bs2;
      var m1 :| 0 <= m1 < |bs2| && bs2[m1] == bs1[k1];
      assert Contains(r2, bs2[m1]);
      var k2 :| 0 <= k2 < |bs2| && Coord(bs2[k2].lo, a) == Coord(r2.lo, a);
      assert bs2[k2] in bs1;
      var m2 :| 0 <= m2 < |bs1| && bs1[m2] == bs2[k2];
      assert Contains(r1, bs1[m2]);
      var j1 :| 0 <= j1 < |bs1| && Coord(bs1[j1].hi, a) == Coord(r1.hi, a);
      assert bs1[j1] in bs2;
      var n1 :| 0 <= n1 < |bs2| && bs2[n1] == bs1[j1];
      assert Contains(r2, bs2[n1]);
      var j2 :| 0 <= j2 < |bs2| && Coord(bs2[j2].hi, a) == Coord(r2.hi, a);
      assert bs2[j2] in bs1;
      var n2 :| 0 <= n2 < |bs1| && bs1[n2] == bs2[j2];
      assert Contains(r1, bs1[n2]);
    }
    VecExt(r1.lo, r2.lo);
    VecExt(r1.hi, r2.hi);
  }

  /** Reordering the boxes does not change their union. */
  lemma HullSameElements(bs1: seq<Box>, bs2: seq<Box>)
    requires |bs1| > 0
    requires forall b :: b in bs1 <==> b in bs2
    ensures |bs2| > 0 && Hull(bs1) == Hull(bs2)
  {
    assert bs1[0] in bs2;
    HullIsHull(bs1);
    HullIsHull(bs2);
    HullUnique(Hull(bs1), bs1, Hull(bs2), bs2);
  }

  /** The union of two lists is the union of their two unions. */
  lemma HullAppend(bs1: seq<Box>, bs2: seq<Box>)
    requires |bs1| > 0 && |bs2| > 0
    ensures Hull(bs1 + bs2) == IncludeBox(Hull(bs1), Hull(bs2))
  {
    var h1, h2 := Hull(bs1), Hull(bs2);
    var r := IncludeBox(h1, h2);
    HullIsHull(bs1);
    HullIsHull(bs2);
    HullIsHull(bs1 + bs2);
    var bs := bs1 + bs2;
    forall k | 0 <= k < |bs|
      ensures Contains(r, bs[k])
    {
      if k < |bs1| {
        assert bs[k] == bs1[k];
        ContainsTransitive(r, h1, bs1[k]);
      } else {
        assert bs[k] == bs2[k - |bs1|];
        ContainsTransitive(r, h2, bs2[k - |bs1|]);
      }
    }
    forall a: Axis
      ensures Attained(r, bs, a)
    {
      assert Attained(h1, bs1, a) && Attained(h2, bs2, a);
      var i1 :| 0 <= i1 < |bs1| && Coord(bs1[i1].lo, a) == Coord(h1.lo, a);
      var i2 :| 0 <= i2 < |bs2| && Coord(bs2[i2].lo, a) == Coord(h2.lo, a);
      assert bs[i1] == bs1[i1] && bs[|bs1| + i2] == bs2[i2];
      var j1 :| 0 <= j1 < |bs1| && Coord(bs1[j1].hi, a) == Coord(h1.hi, a);
      var j2 :| 0 <= j2 < |bs2| && Coord(bs2[j2].hi, a) == Coord(h2.hi, a);
      assert bs[j1] == bs1[j1] && bs[|bs1| + j2] == bs2[j2];
    }
    HullUnique(r, bs, Hull(bs), bs);
  }

  /** The boxes `bs[ids[0]], bs[ids[1]], ...` picked out by a list of indices. */
  function Gather(bs: seq<Box>, ids: seq<nat>): (r: seq<Box>)
    requires forall x :: x in ids ==> x < |bs|
    ensures |r| == |ids|
    ensures forall k :: 0 <= k < |ids| ==> ids[k] < |bs| && r[k] == bs[ids[k]]
  {
    assert forall k :: 0 <= k < |ids| ==> ids[k] in ids;
    seq(|ids|, k requires 0 <= k < |ids| => bs[ids[k]])
  }

  /** Index lists holding the same indices gather the same boxes. */
  lemma GatherSameElements(bs: seq<Box>, ids1: seq<nat>, ids2: seq<nat>)
    requires forall x :: x in ids1 ==> x < |bs|
    requires forall x :: x in ids1 <==> x in ids2
    ensures forall x :: x in ids2 ==> x < |bs|
    ensures forall b :: b in Gather(bs, ids1) <==> b in Gather(bs, ids2)
  {
    var g1, g2 := Gather(bs, ids1), Gather(bs, ids2);
    forall b | b in g1 ensures b in g2 {
      var k :| 0 <= k < |g1| && g1[k] == b;
      assert ids1[k] in ids2;
      var m :| 0 <= m < |ids2| && ids2[m] == ids1[k];
      assert g2[m] == b;
    }
    forall b | b in g2 ensures b in g1 {
      var k :| 0 <= k < |g2| && g2[k] == b;
      assert ids2[k] in ids1;
      var m :| 0 <= m < |ids1| && ids1[m] == ids2[k];
      assert g1[m] == b;
    }
  }

  lemma GatherAppend(bs: seq<Box>, ids1: seq<nat>, ids2: seq<nat>)
    requires forall x :: x in ids1 + ids2 ==> x < |bs|
    ensures forall x :: x in ids1 ==> x < |bs|
    ensures forall x :: x in ids2 ==> x < |bs|
    ensures Gather(bs, ids1 + ids2) == Gather(bs, ids1) + Gather(bs, ids2)
  {
    forall x | x in ids1 ensures x < |bs| { assert x in ids1 + ids2; }
    forall x | x in ids2 ensures x < |bs| { assert x in ids1 + ids2; }
  }
}
