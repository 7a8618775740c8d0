/** The quicksort-style split of the index array a node was handed: two scan positions
    converge from its ends, swapping entries that sit on the wrong side of
    the split value. */
module InPlacePartition {
  import opened Geometry

  /** `a` with the entries at `x` and `y` exchanged (`std::swap`). */
  function Swap(a: seq<nat>, x: nat, y: nat): (b: seq<nat>)
    requires x < |a| && y < |a|
    ensures |b| == |a| && b[x] == a[y] && b[y] == a[x]
    ensures forall k :: 0 <= k < |a| && k != x && k != y ==> b[k] == a[k]
  {
    a[x := a[y]][y := a[x]]
  }

  /** One exchange of the partition loop: with everything before `p` at most `split`,
      everything after `q` above it, `t[p]` above and `t[q]` at most `split`, exchanging
      them keeps the contents and extends both settled ends by one entry. */
  lemma SwapStep(t: seq<nat>, cent: seq<Vec3>, axis: Axis, split: real, p: nat, q: nat)
    requires p < q < |t|
    requires forall k :: 0 <= k < |t| ==> t[k] < |cent|
    requires forall k :: 0 <= k < p ==> Coord(cent[t[k]], axis) <= split
    requires forall k :: q < k < |t| ==> Coord(cent[t[k]], axis) > split
    requires Coord(cent[t[p]], axis) > split && Coord(cent[t[q]], axis) <= split
    ensures |Swap(t, p, q)| == |t| && multiset(Swap(t, p, q)) == multiset(t)
    ensures forall k :: 0 <= k < |t| ==> Swap(t, p, q)[k] < |cent|
    ensures forall k :: 0 <= k <= p ==> Coord(cent[Swap(t, p, q)[k]], axis) <= split
    ensures forall k :: q <= k < |t| ==> Coord(cent[Swap(t, p, q)[k]], axis) > split
  {
  }

  /** An entry of `s` that belongs to one group shows that the group is not empty in the
      rearrangement `t`. */
  lemma GroupsNonEmpty(s: seq<nat>, t: seq<nat>, cent: seq<Vec3>, axis: Axis, split: real, i: nat)
    requires |t| == |s| && i <= |t| && multiset(t) == multiset(s)
    requires forall k :: 0 <= k < |s| ==> s[k] < |cent|
    requires forall k :: 0 <= k < |t| ==> t[k] < |cent|
    requires forall k :: 0 <= k < i ==> Coord(cent[t[k]], axis) <= split
    requires forall k :: i <= k < |t| ==> Coord(cent[t[k]], axis) > split
    ensures (exists k :: 0 <= k < |s| && Coord(cent[s[k]], axis) <= split) ==> 0 < i
    ensures (exists k :: 0 <= k < |s| && Coord(cent[s[k]], axis) > split) ==> i < |t|
  {
    if exists k :: 0 <= k < |s| && Coord(cent[s[k]], axis) <= split {
      var k :| 0 <= k < |s| && Coord(cent[s[k]], axis) <= split;
      assert s[k] in multiset(t);
      var m :| 0 <= m < |t| && t[m] == s[k];
    }
    if exists k :: 0 <= k < |s| && Coord(cent[s[k]], axis) > split {
      var k :| 0 <= k < |s| && Coord(cent[s[k]], axis) > split;
      assert s[k] in multiset(t);
      var m :| 0 <= m < |t| && t[m] == s[k];
    }
  }

  /** Advances `p` over entries whose centroid is at most `split` on `axis`, stopping at
      the first other entry or at the end of `s`. */
  method ScanForward(s: seq<nat>, cent: seq<Vec3>, axis: Axis, split: real, p0: int, q: int)
    returns (p: int)
    requires forall k :: 0 <= k < |s| ==> s[k] < |cent|
    requires 0 <= p0 <= |s| && -1 <= q < |s| && p0 <= q + 1
    requires forall k :: q < k < |s| ==> Coord(cent[s[k]], axis) > split
    ensures p0 <= p <= |s| && p <= q + 1
    ensures forall k :: p0 <= k < p ==> Coord(cent[s[k]], axis) <= split
    ensures p < |s| ==> Coord(cent[s[p]], axis) > split
  {
    p := p0;
    while p < |s| && Coord(cent[s[p]], axis) <= split
      invariant p0 <= p <= |s| && p <= q + 1
      invariant forall k :: p0 <= k < p ==> Coord(cent[s[k]], axis) <= split
      decreases |s| - p
    {
      p := p + 1;
    }
  }

  /** Moves `q` back over entries whose centroid exceeds `split` on `axis`, stopping at
      the first other entry or before the start of `s`. */
  method ScanBackward(s: seq<nat>, cent: seq<Vec3>, axis: Axis, split: real, p: int, q0: int)
    returns (q: int)
    requires forall k :: 0 <= k < |s| ==> s[k] < |cent|
    requires 0 <= p <= |s| && -1 <= q0 < |s| && p <= q0 + 1
    requires forall k :: 0 <= k < p ==> Coord(cent[s[k]], axis) <= split
    ensures -1 <= q <= q0 && p <= q + 1
    ensures forall k :: q < k <= q0 ==> Coord(cent[s[k]], axis) > split
    ensures q >= 0 ==> Coord(cent[s[q]], axis) <= split
  {
    q := q0;
    while q >= 0 && Coord(cent[s[q]], axis) > split
      invariant -1 <= q <= q0 && p <= q + 1
      invariant forall k :: q < k <= q0 ==> Coord(cent[s[k]], axis) > split
      decreases q
    {
      q := q - 1;
    }
  }

  /** The two-scan partition of the `|s|` indices a node was handed: the result `t` is
      a rearrangement of `s` whose first `i` entries have their centroid at most `split`
      on `axis` and whose others exceed it. When `s` has entries on both sides, both groups are non-empty. */
  method Partition(s: seq<nat>, cent: seq<Vec3>, axis: Axis, split: real)
    returns (t: seq<nat>, i: nat)
    requires forall k :: 0 <= k < |s| ==> s[k] < |cent|
    ensures |t| == |s| && multiset(t) == multiset(s)
    ensures forall k :: 0 <= k < |t| ==> t[k] < |cent|
    ensures i <= |t|
    ensures forall k :: 0 <= k < i ==> Coord(cent[t[k]], axis) <= split
    ensures forall k :: i <= k < |t| ==> Coord(cent[t[k]], axis) > split
    ensures (exists k :: 0 <= k < |s| && Coord(cent[s[k]], axis) <= split) ==> 0 < i
    ensures (exists k :: 0 <= k < |s| && Coord(cent[s[k]], axis) > split) ==> i < |t|
  {
    t := s;
    var p: int := 0;
    var q: int := |s| - 1;
    while true
      invariant |t| == |s| && multiset(t) == multiset(s)
      invariant forall k :: 0 <= k < |t| ==> t[k] < |cent|
      invariant 0 <= p <= |t| && -1 <= q < |t| && p <= q + 1
      invariant forall k :: 0 <= k < p ==> Coord(cent[t[k]], axis) <= split
      invariant forall k :: q < k < |t| ==> Coord(cent[t[k]], axis) > split
      decreases q - p + 1
    {
      p := ScanForward(t, cent, axis, split, p, q);
      q := ScanBackward(t, cent, axis, split, p, q);
      if p < q {
        SwapStep(t, cent, axis, split, p, q);
        t := Swap(t, p, q);
        p := p + 1;
        q := q - 1;
      } else {
        break;
      }
    }
    i := p;
    GroupsNonEmpty(s, t, cent, axis, split, i);
  }
}
