// `surface_levelset`: reset the records, run the dual-tree search from the two roots, then turn the
// squared distances into (optionally signed) distances and unit normals. `slow_surface_levelset`
// is the brute-force version the search must agree with.

module Levelset {
  import opened Geometry
  import opened BoxTrees
  import opened Candidates
  import opened DualTree

  /** What `SimplexTree::inside_given_closest_point` reports; `ArithmeticError` stands for the
      exception the source catches. */
  datatype InsideAnswer = Inside | Outside | ArithmeticError

  /** The inside test is not part of this model: it is a parameter taking the particle, the closest
      triangle and the barycentric weights of the closest point. */
  type InsideFn = (Vec3, nat, Vec3) -> InsideAnswer

  /** `FLT_MAX`, the start value of the brute-force distances. */
  const FloatMax: real := 340282346638528859811704183484516925440.0

  function Abs(r: real): real { if r < 0.0 then -r else r }

  lemma DivByNeg(a: Vec3, d: real)
    requires d != 0.0
    ensures Div(a, -d) == Neg(Div(a, d))
  {
    assert a.x / (-d) == -(a.x / d);
    assert a.y / (-d) == -(a.y / d);
    assert a.z / (-d) == -(a.z / d);
  }

  lemma ScaleDiv(a: Vec3, d: real)
    requires d != 0.0
    ensures Scale(Div(a, d), d) == a
  {
  }

  /** Unsigned finaliser for one record: the distance is the square root of the squared distance; the
      normal is the unit direction from the closest point to the particle, falls back to the face
      normal turned towards the particle when the particle is within `epsilon` of the surface, and is
      zero when no triangle was found. */
  function UnsignedRecord(I: Info, tris: seq<Triangle>, sqrt: real -> real, epsilon: real): (r: Info)
    requires epsilon >= 0.0 && I.triangle < |tris|
    ensures r.phi == sqrt(I.phi) && r.triangle == I.triangle && r.weights == I.weights
    ensures I.triangle < 0 ==> r.normal == Zero
    ensures I.triangle >= 0 && r.phi > epsilon ==> Scale(r.normal, r.phi) == I.normal
    ensures I.triangle >= 0 && r.phi <= epsilon ==>
      (r.normal == tris[I.triangle].n || r.normal == Neg(tris[I.triangle].n)) && Dot(I.normal, r.normal) >= 0.0
  {
    var phi := sqrt(I.phi);
    if I.triangle < 0 then I.(phi := phi, normal := Zero)
    else if phi > epsilon then
      ScaleDiv(I.normal, phi);
      I.(phi := phi, normal := Div(I.normal, phi))
    else
      var n := tris[I.triangle].n;
      I.(phi := phi, normal := if Dot(I.normal, n) > 0.0 then n else Neg(n))
  }

  /** Signed finaliser for one record of a particle at `x`: the distance is negated inside the surface,
      and the normal is the displacement divided by the signed distance, or the face normal within
      `epsilon`. A failed inside test makes the distance zero with the face normal. */
  function SignedRecord(I: Info, x: Vec3, tris: seq<Triangle>, inside: InsideFn, sqrt: real -> real,
                        epsilon: real): (r: Info)
    requires epsilon >= 0.0 && I.triangle < |tris|
    ensures r.triangle == I.triangle && r.weights == I.weights
    ensures I.triangle < 0 ==> r.phi == sqrt(I.phi) && r.normal == Zero
    ensures I.triangle >= 0 ==>
      var answer, n := inside(x, I.triangle, I.weights), tris[I.triangle].n;
      (answer == ArithmeticError ==> r.phi == 0.0 && r.normal == n) &&
      (answer == Inside ==> r.phi == -sqrt(I.phi)) &&
      (answer == Outside ==> r.phi == sqrt(I.phi)) &&
      (answer != ArithmeticError && Abs(r.phi) > epsilon ==> Scale(r.normal, r.phi) == I.normal) &&
      (answer != ArithmeticError && Abs(r.phi) <= epsilon ==> r.normal == n)
  {
    var d := sqrt(I.phi);
    if I.triangle < 0 then I.(phi := d, normal := Zero)
    else
      var n := tris[I.triangle].n;
      match inside(x, I.triangle, I.weights)
      case ArithmeticError => I.(phi := 0.0, normal := n)
      case answer =>
        var phi := if answer == Inside then -d else d;
        if Abs(phi) > epsilon then
          ScaleDiv(I.normal, phi);
          I.(phi := phi, normal := Div(I.normal, phi))
        else I.(phi := phi, normal := n)
  }

  /** When the inside test succeeds, the two finalisers agree up to sign: the signed distance has the
      unsigned distance as its magnitude, and away from the surface the normals are equal outside and
      opposite inside. */
  lemma SignedAgreesWithUnsigned(I: Info, x: Vec3, tris: seq<Triangle>, inside: InsideFn, sqrt: real -> real,
                                 epsilon: real)
    requires epsilon >= 0.0 && 0 <= I.triangle < |tris| && sqrt(I.phi) >= 0.0
    requires inside(x, I.triangle, I.weights) != ArithmeticError
    ensures var s, u := SignedRecord(I, x, tris, inside, sqrt, epsilon), UnsignedRecord(I, tris, sqrt, epsilon);
      Abs(s.phi) == u.phi &&
      (u.phi > epsilon ==>
        s.normal == if inside(x, I.triangle, I.weights) == Inside then Neg(u.normal) else u.normal)
  {
    var d := sqrt(I.phi);
    if d > epsilon {
      DivByNeg(I.normal, d);
    }
  }

  /** The brute-force record of a particle at `x` after its first `k` triangles: start at `FLT_MAX`
      with no triangle, and take a triangle's record only when it is strictly closer. */
  function Brute(closest: ClosestFn, tris: seq<Triangle>, x: Vec3, k: nat): (b: Info)
    requires k <= |tris|
    ensures -1 <= b.triangle < k && b.phi <= FloatMax
    ensures b.triangle == -1 ==> b == Info(FloatMax, Zero, -1, Zero)
    ensures b.triangle >= 0 ==> b == Candidate(closest, tris, b.triangle, x) && b.phi < FloatMax
  {
    if k == 0 then Info(FloatMax, Zero, -1, Zero)
    else
      var b, c := Brute(closest, tris, x, k - 1), Candidate(closest, tris, k - 1, x);
      if b.phi > c.phi then c else b
  }

  /** One more triangle: its record replaces the brute-force record exactly when it is strictly
      closer. */
  lemma BruteStep(closest: ClosestFn, tris: seq<Triangle>, x: Vec3, t: nat)
    requires t < |tris|
    ensures var b, close := Brute(closest, tris, x, t), closest(tris[t], x);
      var c := Info(SqrMagnitude(Sub(x, close.x)), Sub(x, close.x), t, close.weights);
      Brute(closest, tris, x, t + 1) == if b.phi > c.phi then c else b
  {
  }

  /** The brute-force record is the scan of the distances from `FLT_MAX`: the same squared distance
      and the same triangle, and a found triangle's record is that triangle's closest-point record. */
  lemma {:induction false} BruteIsScan(closest: ClosestFn, tris: seq<Triangle>, x: Vec3, k: nat)
    requires k <= |tris|
    ensures var b, s := Brute(closest, tris, x, k), Scan(FloatMax, Distances(closest, tris, x)[..k]);
      b.phi == s.sqrDistance && b.triangle == s.index &&
      (b.triangle == -1 ==> b.normal == Zero && b.weights == Zero) &&
      (b.triangle != -1 ==> 0 <= b.triangle < k && b == Candidate(closest, tris, b.triangle, x))
  {
    if k > 0 {
      BruteIsScan(closest, tris, x, k - 1);
      var ds, c := Distances(closest, tris, x), Candidate(closest, tris, k - 1, x);
      ScanStep(FloatMax, ds, k);
      assert ds[k - 1] == c.phi;
      var prev := Scan(FloatMax, ds[..k - 1]);
      if prev.sqrDistance > c.phi {
        assert Brute(closest, tris, x, k) == c;
      } else {
        assert Brute(closest, tris, x, k) == Brute(closest, tris, x, k - 1);
      }
    }
  }

  /** How the brute force turns a squared distance and raw displacement into a distance and a
      direction: divide by the distance unless it is zero, else (1, 0, 0). */
  function BruteDirection(delta: Vec3, distance: real): (v: Vec3)
    ensures distance != 0.0 ==> Scale(v, distance) == delta
    ensures distance == 0.0 ==> v == Vec3(1.0, 0.0, 0.0)
  {
    if distance != 0.0 then
      ScaleDiv(delta, distance);
      Div(delta, distance)
    else Vec3(1.0, 0.0, 0.0)
  }

  /** The search computes the same squared distance as the brute force capped at the cutoff, and finds
      a triangle exactly when the brute force's distance is below the cutoff. */
  lemma SearchMatchesBruteForce(closest: ClosestFn, tris: seq<Triangle>, x: Vec3, sqrMax: real)
    requires sqrMax <= FloatMax
    ensures var s, b := Scan(sqrMax, Distances(closest, tris, x)), Brute(closest, tris, x, |tris|);
      s.sqrDistance == Min(sqrMax, b.phi) && (s.index == -1 <==> b.phi >= sqrMax)
  {
    var ds := Distances(closest, tris, x);
    BruteIsScan(closest, tris, x, |tris|);
    assert ds[..|tris|] == ds;
    ScanCutoff(sqrMax, FloatMax, ds);
    ScanIsMinimum(sqrMax, ds);
  }

  /** `t` is the one triangle at the smallest distance from `x`, and it beats the cutoff. */
  ghost predicate UniqueMinimum(closest: ClosestFn, tris: seq<Triangle>, x: Vec3, sqrMax: real, t: nat) {
    var ds := Distances(closest, tris, x);
    t < |ds| && ds[t] < sqrMax && forall u :: 0 <= u < |ds| && u != t ==> ds[t] < ds[u]
  }

  /** When a single triangle attains the minimum below the cutoff, the searched record is the brute
      force's record: the same squared distance, triangle, displacement and weights. (With a tie the
      search may keep another attaining triangle.) */
  lemma UniqueMinimumAgrees(closest: ClosestFn, tris: seq<Triangle>, x: Vec3, sqrMax: real, I0: Info, I: Info, t: nat)
    requires sqrMax <= FloatMax && UniqueMinimum(closest, tris, x, sqrMax, t)
    requires Searched(closest, tris, x, sqrMax, I0, I)
    ensures I == Brute(closest, tris, x, |tris|) && I.triangle == t
  {
    var ds := Distances(closest, tris, x);
    ScanIsMinimum(sqrMax, ds);
    var s := Scan(sqrMax, ds);
    assert s.sqrDistance <= ds[t] < sqrMax;
    assert I.triangle != -1;
    var k := I.triangle;
    assert I.phi == ds[k] == s.sqrDistance <= ds[t];
    assert k == t;
    BruteIsScan(closest, tris, x, |tris|);
    assert ds[..|tris|] == ds;
    ScanIsMinimum(FloatMax, ds);
    var b := Scan(FloatMax, ds);
    assert b.sqrDistance <= ds[t] < FloatMax;
    assert b.index == t by {
      assert ds[b.index] == b.sqrDistance <= ds[t];
    }
  }

  /** What the search leaves in a record for a particle at `x` that started as `I0`: the scan's
      squared distance, and the record of a triangle that attains it, or `I0` reset when none does. */
  ghost predicate Searched(closest: ClosestFn, tris: seq<Triangle>, x: Vec3, sqrMax: real, I0: Info, I: Info) {
    var s := Scan(sqrMax, Distances(closest, tris, x));
    -1 <= I.triangle < |tris| && I.phi == s.sqrDistance && (I.triangle == -1 <==> s.index == -1) &&
    (I.triangle == -1 ==> I == I0.(phi := sqrMax, triangle := -1)) &&
    (I.triangle != -1 ==> 0 <= I.triangle < |tris| && I == Candidate(closest, tris, I.triangle, x))
  }

  lemma SqrNonNegative(r: real)
    ensures r * r >= 0.0
  {
    if r < 0.0 {
      assert r * r == (-r) * (-r);
    }
  }

  /** The reset state satisfies everything the search requires of its start: no triangle found yet,
      and every node bound at the cutoff bounds every record. */
  lemma InitialState(h: Helper, reset: seq<Info>)
    requires h.Valid() && |reset| == |h.particles.X|
    requires forall p :: 0 <= p < |reset| ==> reset[p].phi == h.sqrMax && reset[p].triangle == -1
    requires forall n :: 0 <= n < h.sqrPhiNode.Length ==> h.sqrPhiNode[n] == h.sqrMax
    ensures h.AllRealised(reset) && NonNegative(h.sqrPhiNode[..])
    ensures |h.particles.nodes| > 0 ==> h.BoundedBelow(reset, h.sqrPhiNode[..], 0)
  {
  }

  /** After the search (or without it, when there are no particles or no triangles), every record is
      what `Searched` describes. */
  lemma AllSearched(h: Helper, I0: seq<Info>, reset: seq<Info>, recs: seq<Info>)
    requires h.Valid() && |I0| == |reset| == |h.particles.X|
    requires forall p :: 0 <= p < |reset| ==> reset[p] == I0[p].(phi := h.sqrMax, triangle := -1)
    requires h.AllRealised(recs) && Improved(reset, recs)
    requires |h.particles.X| > 0 && |h.surface.simplices| > 0 ==>
      |h.particles.nodes| > 0 && |h.surface.nodes| > 0 && h.Covered(recs, 0, 0)
    ensures forall p :: 0 <= p < |recs| ==>
      Searched(h.closest, h.surface.simplices, h.particles.X[p], h.sqrMax, I0[p], recs[p])
  {
    var tris := h.surface.simplices;
    forall p | 0 <= p < |recs|
      ensures Searched(h.closest, tris, h.particles.X[p], h.sqrMax, I0[p], recs[p])
    {
      var ds := Distances(h.closest, tris, h.particles.X[p]);
      assert h.Realised(p, recs[p]);
      if |tris| == 0 {
        assert recs[p] == reset[p];
      } else {
        assert p in h.PSub(0);
        forall t | 0 <= t < |ds| ensures recs[p].phi <= ds[t] {
          assert t in h.SSub(0);
        }
        MinimumIsScan(h.sqrMax, ds, recs[p].phi, recs[p].triangle);
      }
    }
  }

  /** The unsigned finalising loop: every record replaced by its `UnsignedRecord`. */
  method FinishUnsigned(info: array<Info>, tris: seq<Triangle>, sqrt: real -> real, epsilon: real)
    requires epsilon >= 0.0 && forall p :: 0 <= p < info.Length ==> info[p].triangle < |tris|
    modifies info
    ensures forall p :: 0 <= p < info.Length ==> info[p] == UnsignedRecord(old(info[p]), tris, sqrt, epsilon)
  {
    for i := 0 to info.Length
      invariant forall p :: 0 <= p < i ==> info[p] == UnsignedRecord(old(info[p]), tris, sqrt, epsilon)
      invariant forall p :: i <= p < info.Length ==> info[p] == old(info[p])
    {
      info[i] := UnsignedRecord(info[i], tris, sqrt, epsilon);
    }
  }

  /** The signed finalising loop: the record of particle `i` replaced by its `SignedRecord`. */
  method FinishSigned(info: array<Info>, X: seq<Vec3>, tris: seq<Triangle>, inside: InsideFn, sqrt: real -> real,
                      epsilon: real)
    requires epsilon >= 0.0 && info.Length == |X| && forall p :: 0 <= p < info.Length ==> info[p].triangle < |tris|
    modifies info
    ensures forall p :: 0 <= p < info.Length ==>
      info[p] == SignedRecord(old(info[p]), X[p], tris, inside, sqrt, epsilon)
  {
    for i := 0 to info.Length
      invariant forall p :: 0 <= p < i ==> info[p] == SignedRecord(old(info[p]), X[p], tris, inside, sqrt, epsilon)
      invariant forall p :: i <= p < info.Length ==> info[p] == old(info[p])
    {
      info[i] := SignedRecord(info[i], X[i], tris, inside, sqrt, epsilon);
    }
  }

  /** `surface_levelset` on `info`. The size check fails when `info` does not have one record per
      particle (the source throws; here `ok` is false and nothing is written). Otherwise every record is
      reset to the squared cutoff with no triangle, the search runs from the two roots when there are
      both particles and triangles (`searched` is the state it leaves), and each record is finalised. */
  method SurfaceLevelset(particles: ParticleTree, surface: SimplexTree, closest: ClosestFn, inside: InsideFn,
                         sqrt: real -> real, epsilon: real, info: array<Info>, maxDistance: real,
                         computeSigns: bool) returns (ok: bool, ghost searched: seq<Info>)
    requires ValidParticleTree(particles) && ValidSimplexTree(surface) && ClosestInBoxes(closest)
    requires epsilon >= 0.0
    modifies info
    ensures ok <==> info.Length == |particles.X|
    ensures !ok ==> info[..] == old(info[..])
    ensures ok ==> |searched| == info.Length
    ensures ok ==> forall p :: 0 <= p < info.Length ==>
      Searched(closest, surface.simplices, particles.X[p], Sqr(maxDistance), old(info[p]), searched[p]) &&
      info[p] == if computeSigns then SignedRecord(searched[p], particles.X[p], surface.simplices, inside, sqrt, epsilon)
                 else UnsignedRecord(searched[p], surface.simplices, sqrt, epsilon)
  {
    searched := [];
    if info.Length != |particles.X| {
      return false, searched;
    }
    ok := true;
    searched := SearchAll(particles, surface, closest, info, maxDistance);
    if !computeSigns {
      FinishUnsigned(info, surface.simplices, sqrt, epsilon);
    } else {
      FinishSigned(info, particles.X, surface.simplices, inside, sqrt, epsilon);
    }
  }

  /** The search of `surface_levelset`: reset the records and the node bounds, then run the dual
      traversal from the two roots; afterwards every record is the searched record of its particle. */
  method SearchAll(particles: ParticleTree, surface: SimplexTree, closest: ClosestFn, info: array<Info>,
                   maxDistance: real) returns (ghost searched: seq<Info>)
    requires ValidParticleTree(particles) && ValidSimplexTree(surface) && ClosestInBoxes(closest)
    requires info.Length == |particles.X|
    modifies info
    ensures info[..] == searched
    ensures forall p :: 0 <= p < info.Length ==>
      Searched(closest, surface.simplices, particles.X[p], Sqr(maxDistance), old(info[p]), searched[p])
  {
    var sqrMax := maxDistance * maxDistance;
    ghost var I0 := info[..];
    ResetRecords(info, sqrMax);
    var sqrPhiNode := new real[|particles.nodes|];
    Fill(sqrPhiNode, sqrMax);
    var helper := new Helper(particles, surface, closest, sqrMax, sqrPhiNode, info);
    ghost var reset := info[..];
    SqrNonNegative(maxDistance);
    InitialState(helper, reset);
    if |particles.X| > 0 && |surface.simplices| > 0 {
      helper.Eval(0, 0);
    }
    searched := info[..];
    AllSearched(helper, I0, reset, searched);
  }

  /** The reset loop of `surface_levelset`: every record gets the squared cutoff and no triangle;
      its direction and weights are kept. */
  method ResetRecords(info: array<Info>, sqrMax: real)
    modifies info
    ensures forall p :: 0 <= p < info.Length ==> info[p] == old(info[p]).(phi := sqrMax, triangle := -1)
  {
    for i := 0 to info.Length
      invariant forall p :: 0 <= p < i ==> info[p] == old(info[p]).(phi := sqrMax, triangle := -1)
      invariant forall p :: i <= p < info.Length ==> info[p] == old(info[p])
    {
      info[i] := info[i].(phi := sqrMax, triangle := -1);
    }
  }

  /** The inner loop of `slow_surface_levelset` for particle `p`: every triangle in order, keeping a
      triangle only when it is strictly closer. Only entry `p` of the four arrays changes. */
  method SlowParticle(X: seq<Vec3>, tris: seq<Triangle>, closest: ClosestFn, p: nat, distances: array<real>,
                      directions: array<Vec3>, triangles: array<int>, weights: array<Vec3>)
    requires p < |X| == distances.Length == directions.Length == triangles.Length == weights.Length
    requires directions != weights
    requires distances[p] == FloatMax && directions[p] == Zero && triangles[p] == -1 && weights[p] == Zero
    modifies distances, directions, triangles, weights
    ensures var b := Brute(closest, tris, X[p], |tris|);
      distances[p] == b.phi && directions[p] == b.normal && triangles[p] == b.triangle && weights[p] == b.weights
    ensures distances[..] == old(distances[..])[p := distances[p]]
    ensures directions[..] == old(directions[..])[p := directions[p]]
    ensures triangles[..] == old(triangles[..])[p := triangles[p]]
    ensures weights[..] == old(weights[..])[p := weights[p]]
  {
    for t := 0 to |tris|
      invariant Holds(Brute(closest, tris, X[p], t), distances[p], directions[p], triangles[p], weights[p])
      invariant distances[..] == old(distances[..])[p := distances[p]]
      invariant directions[..] == old(directions[..])[p := directions[p]]
      invariant triangles[..] == old(triangles[..])[p := triangles[p]]
      invariant weights[..] == old(weights[..])[p := weights[p]]
    {
      SlowTriangle(X[p], tris, closest, p, t, distances, directions, triangles, weights);
    }
  }

  /** One turn of the inner loop of `slow_surface_levelset`: particle `p`'s record moves from the
      brute force over `t` triangles to the brute force over `t + 1`. */
  method SlowTriangle(x: Vec3, tris: seq<Triangle>, closest: ClosestFn, p: nat, t: nat, distances: array<real>,
                      directions: array<Vec3>, triangles: array<int>, weights: array<Vec3>)
    requires t < |tris| && p < distances.Length == directions.Length == triangles.Length == weights.Length
    requires directions != weights
    requires Holds(Brute(closest, tris, x, t), distances[p], directions[p], triangles[p], weights[p])
    modifies distances, directions, triangles, weights
    ensures Holds(Brute(closest, tris, x, t + 1), distances[p], directions[p], triangles[p], weights[p])
    ensures distances[..] == old(distances[..])[p := distances[p]]
    ensures directions[..] == old(directions[..])[p := directions[p]]
    ensures triangles[..] == old(triangles[..])[p := triangles[p]]
    ensures weights[..] == old(weights[..])[p := weights[p]]
  {
    var close := closest(tris[t], x);
    var delta := Sub(x, close.x);
    var sqrDistance := SqrMagnitude(delta);
    BruteStep(closest, tris, x, t);
    if distances[p] > sqrDistance {
      distances[p] := sqrDistance;
      directions[p] := delta;
      triangles[p] := t;
      weights[p] := close.weights;
    }
  }

  /** The brute-force record of a particle against the whole surface. */
  ghost function BruteOf(closest: ClosestFn, tris: seq<Triangle>, x: Vec3): Info {
    Brute(closest, tris, x, |tris|)
  }

  /** The four outputs of a particle hold the record `b`. */
  ghost predicate Holds(b: Info, distance: real, direction: Vec3, triangle: int, weight: Vec3) {
    distance == b.phi && direction == b.normal && triangle == b.triangle && weight == b.weights
  }

  /** `slow_surface_levelset`: every particle against every triangle in order, then distances and
      directions from the squared distances and displacements. Entries the source leaves
      uninitialised start here as no triangle and zero vectors. */
  method SlowSurfaceLevelset(particles: ParticleTree, surface: SimplexTree, closest: ClosestFn, sqrt: real -> real)
    returns (distances: array<real>, directions: array<Vec3>, triangles: array<int>, weights: array<Vec3>)
    ensures fresh(distances) && fresh(directions) && fresh(triangles) && fresh(weights)
    ensures distances.Length == directions.Length == triangles.Length == weights.Length == |particles.X|
    ensures forall p :: 0 <= p < |particles.X| ==>
      var b := Brute(closest, surface.simplices, particles.X[p], |surface.simplices|);
      distances[p] == sqrt(b.phi) && directions[p] == BruteDirection(b.normal, sqrt(b.phi)) &&
      triangles[p] == b.triangle && weights[p] == b.weights
  {
    var X, tris := particles.X, surface.simplices;
    var n := |X|;
    distances := new real[n];
    directions := new Vec3[n];
    triangles := new int[n];
    weights := new Vec3[n];
    Fill(distances, FloatMax);
    Fill(directions, Zero);
    Fill(triangles, -1);
    Fill(weights, Zero);
    BruteScan(X, tris, closest, distances, directions, triangles, weights);
    ghost var recs := seq(n, q requires 0 <= q < n => BruteOf(closest, tris, X[q]));
    BruteFinish(recs, sqrt, distances, directions, triangles, weights);
  }

  /** `a.fill(v)`. */
  method Fill<T>(a: array<T>, v: T)
    modifies a
    ensures forall i :: 0 <= i < a.Length ==> a[i] == v
  {
    for i := 0 to a.Length
      invariant forall k :: 0 <= k < i ==> a[k] == v
    {
      a[i] := v;
    }
  }

  /** The particle loop of `slow_surface_levelset`: every particle gets its brute-force record. */
  method BruteScan(X: seq<Vec3>, tris: seq<Triangle>, closest: ClosestFn, distances: array<real>,
                   directions: array<Vec3>, triangles: array<int>, weights: array<Vec3>)
    requires |X| == distances.Length == directions.Length == triangles.Length == weights.Length
    requires directions != weights
    requires forall q :: 0 <= q < |X| ==> Holds(Info(FloatMax, Zero, -1, Zero), distances[q], directions[q], triangles[q], weights[q])
    modifies distances, directions, triangles, weights
    ensures forall q :: 0 <= q < |X| ==>
      Holds(BruteOf(closest, tris, X[q]), distances[q], directions[q], triangles[q], weights[q])
  {
    for p := 0 to |X|
      invariant forall q :: 0 <= q < p ==>
        Holds(BruteOf(closest, tris, X[q]), distances[q], directions[q], triangles[q], weights[q])
      invariant forall q :: p <= q < |X| ==>
        Holds(Info(FloatMax, Zero, -1, Zero), distances[q], directions[q], triangles[q], weights[q])
    {
      SlowParticle(X, tris, closest, p, distances, directions, triangles, weights);
    }
  }

  /** The outputs of a particle once the final loop has turned the record `b` into a distance and a
      direction. */
  ghost predicate Finished(b: Info, sqrt: real -> real, distance: real, direction: Vec3, triangle: int, weight: Vec3) {
    distance == sqrt(b.phi) && direction == BruteDirection(b.normal, sqrt(b.phi)) &&
    triangle == b.triangle && weight == b.weights
  }

  /** The final loop of `slow_surface_levelset`: square roots and normalised directions, for the
      records `recs` the four outputs hold. */
  method BruteFinish(ghost recs: seq<Info>, sqrt: real -> real,
                     distances: array<real>, directions: array<Vec3>, triangles: array<int>, weights: array<Vec3>)
    requires |recs| == distances.Length == directions.Length == triangles.Length == weights.Length
    requires directions != weights
    requires forall q :: 0 <= q < |recs| ==> Holds(recs[q], distances[q], directions[q], triangles[q], weights[q])
    modifies distances, directions
    ensures forall q :: 0 <= q < |recs| ==> Finished(recs[q], sqrt, distances[q], directions[q], triangles[q], weights[q])
  {
    for i := 0 to distances.Length
      invariant forall q :: 0 <= q < i ==> Finished(recs[q], sqrt, distances[q], directions[q], triangles[q], weights[q])
      invariant forall q :: i <= q < |recs| ==> Holds(recs[q], distances[q], directions[q], triangles[q], weights[q])
    {
      distances[i] := sqrt(distances[i]);
      directions[i] := BruteDirection(directions[i], distances[i]);
    }
  }
}
