// Surface triangles, the per-particle closest-triangle record, and the brute-force scan
// that defines what the search must find.

module Candidates {
  import opened Geometry

  /** A surface triangle: its three corners and its precomputed unit face normal `n`. */
  datatype Triangle = Triangle(a: Vec3, b: Vec3, c: Vec3, n: Vec3)

  /** What `Triangle3d::closest_point` returns: the closest point `x` and its barycentric weights. */
  datatype ClosestPoint = ClosestPoint(x: Vec3, weights: Vec3)

  /** `Triangle3d::closest_point` is not part of this model; it is a parameter of this type. */
  type ClosestFn = (Triangle, Vec3) -> ClosestPoint

  predicate VerticesIn(b: Box, tri: Triangle) {
    Contains(b, tri.a) && Contains(b, tri.b) && Contains(b, tri.c)
  }

  /** The one fact the search relies on: the closest point lies on the triangle, and so in every box
      that holds the triangle's corners. */
  ghost predicate ClosestInBoxes(closest: ClosestFn) {
    forall tri, q, b :: VerticesIn(b, tri) ==> Contains(b, closest(tri, q).x)
  }

  /** CloseTriangleInfo. While searching, `phi` holds a squared distance and `normal` the raw
      displacement from the closest point to the particle; `triangle` is -1 until one is found. */
  datatype Info = Info(phi: real, normal: Vec3, triangle: int, weights: Vec3)

  /** Displacement from the closest point of `tri` to `x`. */
  function Delta(closest: ClosestFn, tri: Triangle, x: Vec3): Vec3 {
    Sub(x, closest(tri, x).x)
  }

  function SqrDistanceTo(closest: ClosestFn, tri: Triangle, x: Vec3): real {
    SqrMagnitude(Delta(closest, tri, x))
  }

  /** The record that triangle `t` gives particle position `x`: distance, delta and weights all come
      from one closest-point evaluation. */
  function Candidate(closest: ClosestFn, tris: seq<Triangle>, t: nat, x: Vec3): (r: Info)
    requires t < |tris|
    ensures r.triangle == t && Add(closest(tris[t], x).x, r.normal) == x
    ensures r.phi == SqrMagnitude(r.normal) && r.phi >= 0.0
  {
    var close := closest(tris[t], x);
    Info(SqrMagnitude(Sub(x, close.x)), Sub(x, close.x), t, close.weights)
  }

  /** Squared distances from `x` to every triangle, in triangle order. */
  function Distances(closest: ClosestFn, tris: seq<Triangle>, x: Vec3): (ds: seq<real>)
    ensures |ds| == |tris|
    ensures forall t :: 0 <= t < |tris| ==> ds[t] == Candidate(closest, tris, t, x).phi && ds[t] >= 0.0
  {
    seq(|tris|, t requires 0 <= t < |tris| => SqrDistanceTo(closest, tris[t], x))
  }

  /** Best squared distance so far and the index it came from (-1: none). */
  datatype Best = Best(sqrDistance: real, index: int)

  /** The brute-force inner loop: visit the candidates in order, starting from `init`, and keep a
      candidate only when it is strictly smaller than the best so far. */
  function Scan(init: real, ds: seq<real>): (b: Best)
    ensures -1 <= b.index < |ds| && b.sqrDistance <= init
    ensures b.index == -1 ==> b.sqrDistance == init
    ensures b.index >= 0 ==> b.sqrDistance == ds[b.index] < init
    decreases |ds|
  {
    if ds == [] then Best(init, -1)
    else
      var b := Scan(init, ds[..|ds| - 1]);
      if b.sqrDistance > ds[|ds| - 1] then Best(ds[|ds| - 1], |ds| - 1) else b
  }

  /** Scanning one more candidate of `ds`. */
  lemma ScanStep(init: real, ds: seq<real>, k: nat)
    requires 0 < k <= |ds|
    ensures var b := Scan(init, ds[..k - 1]);
      Scan(init, ds[..k]) == if b.sqrDistance > ds[k - 1] then Best(ds[k - 1], k - 1) else b
  {
    assert ds[..k][..k - 1] == ds[..k - 1];
  }

  /** `v` is the minimum of `init` and all of `ds`, attained at `idx` (-1: attained only by `init`). */
  ghost predicate IsMinimum(init: real, ds: seq<real>, v: real, idx: int) {
    v <= init && (forall t :: 0 <= t < |ds| ==> v <= ds[t]) &&
    ((idx == -1 && v == init) || (0 <= idx < |ds| && v == ds[idx] && v < init))
  }

  /** The scan finds the minimum of `init` and the candidates, at the first candidate that attains it. */
  lemma {:induction false} ScanIsMinimum(init: real, ds: seq<real>)
    ensures IsMinimum(init, ds, Scan(init, ds).sqrDistance, Scan(init, ds).index)
    ensures var b := Scan(init, ds); b.index >= 0 ==> forall t :: 0 <= t < b.index ==> ds[t] > b.sqrDistance
    decreases |ds|
  {
    if ds != [] {
      var front := ds[..|ds| - 1];
      ScanIsMinimum(init, front);
      assert forall t :: 0 <= t < |front| ==> front[t] == ds[t];
    }
  }

  /** Any minimum of `init` and `ds` is the scan's, and it is attained by a candidate exactly when the
      scan's index is not -1. */
  lemma MinimumIsScan(init: real, ds: seq<real>, v: real, idx: int)
    requires IsMinimum(init, ds, v, idx)
    ensures v == Scan(init, ds).sqrDistance
    ensures idx == -1 <==> Scan(init, ds).index == -1
  {
    ScanIsMinimum(init, ds);
  }

  /** Scanning from a cutoff `a` gives the minimum of the cutoff and a scan from any larger start `b`
      (the brute force starts from FLT_MAX); the index survives exactly when it beats the cutoff. */
  lemma ScanCutoff(a: real, b: real, ds: seq<real>)
    requires a <= b
    ensures Scan(a, ds).sqrDistance == Min(a, Scan(b, ds).sqrDistance)
    ensures Scan(a, ds).index == if Scan(b, ds).sqrDistance < a then Scan(b, ds).index else -1
  {
    ScanIsMinimum(a, ds);
    ScanIsMinimum(b, ds);
    var sa, sb := Scan(a, ds), Scan(b, ds);
    if sb.sqrDistance < a {
      assert sb.index >= 0;
      MinimumIsScan(a, ds, sb.sqrDistance, sb.index);
    } else {
      MinimumIsScan(a, ds, a, -1);
    }
  }
}
