// Exact 3-D vector and axis-aligned box algebra over the reals, and the two
// squared-distance lower bounds that prune the dual-tree closest-triangle search.

module Geometry {

  datatype Vec3 = Vec3(x: real, y: real, z: real)

  const Zero := Vec3(0.0, 0.0, 0.0)

  function Add(a: Vec3, b: Vec3): Vec3 { Vec3(a.x + b.x, a.y + b.y, a.z + b.z) }

  function Sub(a: Vec3, b: Vec3): Vec3 { Vec3(a.x - b.x, a.y - b.y, a.z - b.z) }

  function Neg(a: Vec3): Vec3 { Vec3(-a.x, -a.y, -a.z) }

  function Scale(a: Vec3, s: real): Vec3 { Vec3(a.x * s, a.y * s, a.z * s) }

  /** Componentwise division, `v /= s` in the source. */
  function Div(a: Vec3, s: real): Vec3
    requires s != 0.0
  {
    Vec3(a.x / s, a.y / s, a.z / s)
  }

  function Dot(a: Vec3, b: Vec3): real { a.x * b.x + a.y * b.y + a.z * b.z }

  function Sqr(r: real): real { r * r }

  function SqrMagnitude(a: Vec3): real { Sqr(a.x) + Sqr(a.y) + Sqr(a.z) }

  function SqrDistance(a: Vec3, b: Vec3): real { SqrMagnitude(Sub(a, b)) }

  function Max(a: real, b: real): real { if a < b then b else a }

  function Min(a: real, b: real): real { if a < b then a else b }

  /** An axis-aligned box with lower corner `lo` and upper corner `hi`. */
  datatype Box = Box(lo: Vec3, hi: Vec3)

  predicate InInterval(v: real, lo: real, hi: real) { lo <= v <= hi }

  predicate Contains(b: Box, p: Vec3) {
    InInterval(p.x, b.lo.x, b.hi.x) && InInterval(p.y, b.lo.y, b.hi.y) && InInterval(p.z, b.lo.z, b.hi.z)
  }

  /** `outer` contains every point of `inner`. */
  predicate ContainsBox(outer: Box, inner: Box) {
    outer.lo.x <= inner.lo.x && inner.hi.x <= outer.hi.x &&
    outer.lo.y <= inner.lo.y && inner.hi.y <= outer.hi.y &&
    outer.lo.z <= inner.lo.z && inner.hi.z <= outer.hi.z
  }

  predicate NonEmpty(b: Box) { b.lo.x <= b.hi.x && b.lo.y <= b.hi.y && b.lo.z <= b.hi.z }

  /** The two boxes share a point on every axis. */
  predicate Overlap(a: Box, b: Box) {
    a.lo.x <= b.hi.x && b.lo.x <= a.hi.x &&
    a.lo.y <= b.hi.y && b.lo.y <= a.hi.y &&
    a.lo.z <= b.hi.z && b.lo.z <= a.hi.z
  }

  /** Minkowski difference `a - b`: the box of all `p - q` with `p` in `a` and `q` in `b`. */
  function BoxSub(a: Box, b: Box): (d: Box)
    ensures Overlap(a, b) <==> Contains(d, Zero)
  {
    Box(Sub(a.lo, b.hi), Sub(a.hi, b.lo))
  }

  function Clamp1(v: real, lo: real, hi: real): real {
    if v <= lo then lo else if v >= hi then hi else v
  }

  /** The point of `b` nearest to `p` (componentwise clamp). */
  function Clamp(b: Box, p: Vec3): (c: Vec3)
    ensures NonEmpty(b) ==> Contains(b, c)
    ensures Contains(b, p) ==> c == p
  {
    Vec3(Clamp1(p.x, b.lo.x, b.hi.x), Clamp1(p.y, b.lo.y, b.hi.y), Clamp1(p.z, b.lo.z, b.hi.z))
  }

  /** `sizes().max()`: the largest extent of the box. */
  function MaxSize(b: Box): (m: real)
    ensures m >= b.hi.x - b.lo.x && m >= b.hi.y - b.lo.y && m >= b.hi.z - b.lo.z
    ensures m == b.hi.x - b.lo.x || m == b.hi.y - b.lo.y || m == b.hi.z - b.lo.z
  {
    Max(Max(b.hi.x - b.lo.x, b.hi.y - b.lo.y), b.hi.z - b.lo.z)
  }

  /** Point-to-box bound: squared distance from `p` to its clamp into `b`. */
  function LowerBoundPointBox(p: Vec3, b: Box): (r: real)
    ensures r >= 0.0
    ensures Contains(b, p) ==> r == 0.0
  {
    SqrMagnitude(Sub(p, Clamp(b, p)))
  }

  /** Box-to-box bound: squared length of the per-axis gaps, i.e. the origin clamped into `a - b`. */
  function LowerBoundBoxBox(a: Box, b: Box): (r: real)
    ensures r >= 0.0
    ensures Overlap(a, b) ==> r == 0.0
  {
    SqrMagnitude(Clamp(BoxSub(a, b), Zero))
  }

  lemma SquareMonotone(a: real, b: real)
    requires 0.0 <= a <= b
    ensures a * a <= b * b
  {
    assert a * a <= a * b;
    assert a * b <= b * b;
  }

  /** On one axis, the clamp is at least as close to `v` as any point of the interval. */
  lemma ClampAxisNearest(v: real, lo: real, hi: real, q: real)
    requires lo <= q <= hi
    ensures Sqr(v - Clamp1(v, lo, hi)) <= Sqr(v - q)
  {
    var c := Clamp1(v, lo, hi);
    if v <= lo {
      SquareMonotone(c - v, q - v);
      assert Sqr(v - c) == (c - v) * (c - v);
      assert Sqr(v - q) == (q - v) * (q - v);
    } else if v >= hi {
      SquareMonotone(v - c, v - q);
    }
  }

  /** Admissibility of the point-to-box bound: it never exceeds the squared distance to a point of the box. */
  lemma PointBoxAdmissible(p: Vec3, b: Box, q: Vec3)
    requires Contains(b, q)
    ensures LowerBoundPointBox(p, b) <= SqrDistance(p, q)
  {
    ClampAxisNearest(p.x, b.lo.x, b.hi.x, q.x);
    ClampAxisNearest(p.y, b.lo.y, b.hi.y, q.y);
    ClampAxisNearest(p.z, b.lo.z, b.hi.z, q.z);
  }

  /** The point-to-box bound is attained: the clamp lies in any non-empty box. */
  lemma PointBoxExact(p: Vec3, b: Box)
    requires NonEmpty(b)
    ensures Contains(b, Clamp(b, p))
    ensures LowerBoundPointBox(p, b) == SqrDistance(p, Clamp(b, p))
  {
  }

  /** `p - q` lies in the Minkowski difference of any boxes holding `p` and `q`. */
  lemma SubInBoxSub(a: Box, b: Box, p: Vec3, q: Vec3)
    requires Contains(a, p) && Contains(b, q)
    ensures Contains(BoxSub(a, b), Sub(p, q))
  {
  }

  /** Admissibility of the box-to-box bound: it never exceeds the squared distance between a point of
      one box and a point of the other. */
  lemma BoxBoxAdmissible(a: Box, b: Box, p: Vec3, q: Vec3)
    requires Contains(a, p) && Contains(b, q)
    ensures LowerBoundBoxBox(a, b) <= SqrDistance(p, q)
  {
    var d, c := BoxSub(a, b), Clamp(BoxSub(a, b), Zero);
    SubInBoxSub(a, b, p, q);
    PointBoxAdmissible(Zero, d, Sub(p, q));
    assert Sub(Zero, c) == Neg(c);
    SqrMagnitudeNeg(c);
    assert Sub(Zero, Sub(p, q)) == Neg(Sub(p, q));
    SqrMagnitudeNeg(Sub(p, q));
  }

  lemma SqrMagnitudeNeg(v: Vec3)
    ensures SqrMagnitude(Neg(v)) == SqrMagnitude(v)
  {
    assert Sqr(-v.x) == Sqr(v.x) && Sqr(-v.y) == Sqr(v.y) && Sqr(-v.z) == Sqr(v.z);
  }

  /** The two overloads agree: a point is the degenerate box around itself. */
  lemma BoxBoxOfPoint(p: Vec3, b: Box)
    requires NonEmpty(b)
    ensures LowerBoundBoxBox(Box(p, p), b) == LowerBoundPointBox(p, b)
  {
  }

  lemma ContainsBoxTransitive(a: Box, b: Box, p: Vec3)
    requires ContainsBox(a, b) && Contains(b, p)
    ensures Contains(a, p)
  {
  }
}
