// The dual-tree closest-triangle search (`Helper::eval`): a particle hierarchy and a triangle
// hierarchy are walked together, pruning with the two box bounds, while each particle's record
// and each particle node's bound `sqrPhiNode` are updated in place.

module DualTree {
  import opened Geometry
  import opened BoxTrees
  import opened Candidates

  /** ParticleTree: particle positions `X` and a hierarchy whose leaves own particle ids. */
  datatype ParticleTree = ParticleTree(X: seq<Vec3>, nodes: Tree)

  /** SimplexTree: the triangles and a hierarchy whose leaves own triangle ids. */
  datatype SimplexTree = SimplexTree(simplices: seq<Triangle>, nodes: Tree)

  predicate Distinct(s: seq<nat>) {
    forall i, j :: 0 <= i < j < |s| ==> s[i] != s[j]
  }

  /** Leaves own distinct particles, each inside the leaf's box. */
  ghost predicate ValidParticleTree(pt: ParticleTree) {
    WellFormed(pt.nodes, |pt.X|) &&
    forall i :: 0 <= i < |pt.nodes| && pt.nodes[i].Leaf? ==>
      NodeShaped(pt.nodes, |pt.X|, i) && Distinct(pt.nodes[i].prims) &&
      forall j :: 0 <= j < |pt.nodes[i].prims| ==> Contains(pt.nodes[i].box, pt.X[pt.nodes[i].prims[j]])
  }

  /** Leaves own triangles whose corners lie inside the leaf's box. */
  ghost predicate ValidSimplexTree(st: SimplexTree) {
    WellFormed(st.nodes, |st.simplices|) &&
    forall i :: 0 <= i < |st.nodes| && st.nodes[i].Leaf? ==>
      NodeShaped(st.nodes, |st.simplices|, i) &&
      forall j :: 0 <= j < |st.nodes[i].prims| ==> VerticesIn(st.nodes[i].box, st.simplices[st.nodes[i].prims[j]])
  }

  /** The three cases of one evaluation step. */
  datatype Step = LeafPair | SplitSurface | SplitParticles

  /** Which side to subdivide: two leaves are compared exhaustively; otherwise the surface node is
      split when the particle node is a leaf, or when both are internal and the particle box is not
      larger (by largest extent) than the surface box; otherwise the particle node is split. */
  function Choose(pnode: Node, snode: Node): (s: Step)
    ensures s == LeafPair <==> pnode.Leaf? && snode.Leaf?
    ensures s == SplitSurface ==> snode.Internal?
    ensures s == SplitParticles ==> pnode.Internal?
    ensures pnode.Leaf? && snode.Internal? ==> s == SplitSurface
    ensures pnode.Internal? && snode.Leaf? ==> s == SplitParticles
  {
    if pnode.Leaf? && snode.Leaf? then LeafPair
    else if pnode.Leaf? || (snode.Internal? && MaxSize(pnode.box) <= MaxSize(snode.box)) then SplitSurface
    else SplitParticles
  }

  /** Running maximum over the records of `ps`, starting from 0, as the leaf-pair loop computes it. */
  function MaxPhi(ps: seq<nat>, recs: seq<Info>): (m: real)
    requires forall j :: 0 <= j < |ps| ==> ps[j] < |recs|
    ensures m >= 0.0
    decreases |ps|
  {
    if ps == [] then 0.0 else Max(MaxPhi(ps[..|ps| - 1], recs), recs[ps[|ps| - 1]].phi)
  }

  /** The running maximum bounds every record it ranges over and is 0 or one of them. */
  lemma {:induction false} MaxPhiIsMaximum(ps: seq<nat>, recs: seq<Info>)
    requires forall j :: 0 <= j < |ps| ==> ps[j] < |recs|
    ensures forall j :: 0 <= j < |ps| ==> recs[ps[j]].phi <= MaxPhi(ps, recs)
    ensures MaxPhi(ps, recs) == 0.0 || exists j :: 0 <= j < |ps| && MaxPhi(ps, recs) == recs[ps[j]].phi
    decreases |ps|
  {
    if ps != [] {
      var front := ps[..|ps| - 1];
      MaxPhiIsMaximum(front, recs);
      assert forall j :: 0 <= j < |front| ==> front[j] == ps[j];
    }
  }

  /** The running maximum reads only the records it ranges over. */
  lemma {:induction false} MaxPhiFrame(ps: seq<nat>, r0: seq<Info>, r1: seq<Info>)
    requires forall j :: 0 <= j < |ps| ==> ps[j] < |r0| && ps[j] < |r1| && r0[ps[j]] == r1[ps[j]]
    ensures MaxPhi(ps, r0) == MaxPhi(ps, r1)
    decreases |ps|
  {
    if ps != [] {
      MaxPhiFrame(ps[..|ps| - 1], r0, r1);
    }
  }

  /** Evaluating one more particle `ps[i]`, whose record becomes `x`, raises the running maximum to
      the new record when it is larger. */
  lemma MaxPhiStep(ps: seq<nat>, i: nat, recs: seq<Info>, x: Info)
    requires i < |ps| && forall j :: 0 <= j < |ps| ==> ps[j] < |recs|
    requires forall j :: 0 <= j < i ==> ps[j] != ps[i]
    ensures MaxPhi(ps[..i + 1], recs[ps[i] := x]) == Max(MaxPhi(ps[..i], recs), x.phi)
  {
    MaxPhiFrame(ps[..i], recs, recs[ps[i] := x]);
    assert ps[..i + 1][..i] == ps[..i];
  }

  /** Records outside the evaluated prefix `ps[..i + 1]` are still the initial ones. */
  lemma LeafStepUntouched(ps: seq<nat>, i: nat, r0: seq<Info>, recs: seq<Info>, x: Info)
    requires i < |ps| && ps[i] < |recs| == |r0|
    requires forall p :: 0 <= p < |recs| && p !in ps[..i] ==> recs[p] == r0[p]
    ensures forall p :: 0 <= p < |recs| && p !in ps[..i + 1] ==> recs[ps[i] := x][p] == r0[p]
  {
    assert ps[..i + 1] == ps[..i] + [ps[i]];
  }

  /** Each record is unchanged or strictly closer: the leaf-pair step replaces a record only by a
      strictly smaller squared distance. */
  ghost predicate Improved(before: seq<Info>, after: seq<Info>) {
    |before| == |after| &&
    forall p :: 0 <= p < |before| ==> after[p] == before[p] || after[p].phi < before[p].phi
  }

  lemma ImprovedTransitive(r0: seq<Info>, r1: seq<Info>, r2: seq<Info>)
    requires Improved(r0, r1) && Improved(r1, r2)
    ensures Improved(r0, r2)
  {
  }

  predicate NonNegative(bounds: seq<real>) {
    forall n :: 0 <= n < |bounds| ==> bounds[n] >= 0.0
  }

  lemma ImprovedStep(r0: seq<Info>, recs: seq<Info>, p: nat, x: Info)
    requires Improved(r0, recs) && p < |recs| && (x == recs[p] || x.phi < recs[p].phi)
    ensures Improved(r0, recs[p := x])
  {
  }

  lemma NonNegativeStep(bounds: seq<real>, n: nat, v: real)
    requires NonNegative(bounds) && n < |bounds| && v >= 0.0
    ensures NonNegative(bounds[n := v])
  {
  }

  /** The state `Helper` shares across the recursion: both hierarchies, the closest-point routine,
      and the two arrays the search updates in place. */
  class Helper {
    const particles: ParticleTree
    const surface: SimplexTree
    const closest: ClosestFn
    /** The squared cutoff every record and node bound starts from. */
    ghost const sqrMax: real
    const sqrPhiNode: array<real>
    const info: array<Info>

    constructor (particles: ParticleTree, surface: SimplexTree, closest: ClosestFn, ghost sqrMax: real,
                 sqrPhiNode: array<real>, info: array<Info>)
      ensures this.particles == particles && this.surface == surface && this.closest == closest
      ensures this.sqrMax == sqrMax && this.sqrPhiNode == sqrPhiNode && this.info == info
    {
      this.particles, this.surface, this.closest := particles, surface, closest;
      this.sqrMax, this.sqrPhiNode, this.info := sqrMax, sqrPhiNode, info;
    }

    ghost predicate Valid() {
      ValidParticleTree(particles) && ValidSimplexTree(surface) && ClosestInBoxes(closest) &&
      sqrPhiNode.Length == |particles.nodes| && info.Length == |particles.X| && sqrMax >= 0.0
    }

    /** Particle ids under particle node `n`. */
    ghost function PSub(n: nat): set<nat>
      requires Valid() && n < |particles.nodes|
    {
      SubPrims(particles.nodes, |particles.X|, n)
    }

    /** Particle node ids under particle node `n`. */
    ghost function PNodes(n: nat): set<nat>
      requires Valid() && n < |particles.nodes|
    {
      SubNodes(particles.nodes, |particles.X|, n)
    }

    /** Triangle ids under surface node `n`. */
    ghost function SSub(n: nat): set<nat>
      requires Valid() && n < |surface.nodes|
    {
      SubPrims(surface.nodes, |surface.simplices|, n)
    }

    /** Squared distance from particle `p` to the closest point of triangle `t`. */
    ghost function D(p: nat, t: nat): real
      requires Valid() && p < |particles.X| && t < |surface.simplices|
    {
      SqrDistanceTo(closest, surface.simplices[t], particles.X[p])
    }

    /** A record is untouched (no triangle, `phi` at the cutoff) or is the closest-point record of its
        triangle, strictly below the cutoff. */
    ghost predicate Realised(p: nat, r: Info)
      requires Valid() && p < |particles.X|
    {
      (r.triangle == -1 && r.phi == sqrMax) ||
      (0 <= r.triangle < |surface.simplices| && r.phi < sqrMax &&
       r == Candidate(closest, surface.simplices, r.triangle, particles.X[p]))
    }

    ghost predicate AllRealised(recs: seq<Info>)
      requires Valid()
    {
      |recs| == |particles.X| && forall p :: 0 <= p < |recs| ==> Realised(p, recs[p])
    }

    /** The bound of node `n` is at least the record of every particle under `n`. */
    ghost predicate Bounded(recs: seq<Info>, bounds: seq<real>, n: nat)
      requires Valid() && |recs| == |particles.X| && |bounds| == |particles.nodes| && n < |bounds|
    {
      forall p :: p in PSub(n) ==> recs[p].phi <= bounds[n]
    }

    ghost predicate BoundedBelow(recs: seq<Info>, bounds: seq<real>, pn: nat)
      requires Valid() && |recs| == |particles.X| && |bounds| == |particles.nodes| && pn < |bounds|
    {
      forall n :: n in PNodes(pn) ==> Bounded(recs, bounds, n)
    }

    /** Every record under particle node `pn` is at least as close as every triangle under surface
        node `sn`: no triangle of `sn` can still improve a particle of `pn`. */
    ghost predicate Covered(recs: seq<Info>, pn: nat, sn: nat)
      requires Valid() && |recs| == |particles.X| && pn < |particles.nodes| && sn < |surface.nodes|
    {
      forall p, t :: p in PSub(pn) && t in SSub(sn) ==> recs[p].phi <= D(p, t)
    }

    lemma ParticleInBox(n: nat, p: nat)
      requires Valid() && n < |particles.nodes| && p in PSub(n)
      ensures Contains(particles.nodes[n].box, particles.X[p])
    {
      var m, j := FindLeaf(particles.nodes, |particles.X|, n, p);
      ContainsBoxTransitive(particles.nodes[n].box, particles.nodes[m].box, particles.X[p]);
    }

    lemma ClosestInBox(n: nat, t: nat, x: Vec3)
      requires Valid() && n < |surface.nodes| && t in SSub(n)
      ensures Contains(surface.nodes[n].box, closest(surface.simplices[t], x).x)
    {
      var m, j := FindLeaf(surface.nodes, |surface.simplices|, n, t);
      var tri := surface.simplices[t];
      assert VerticesIn(surface.nodes[m].box, tri);
      ContainsBoxTransitive(surface.nodes[n].box, surface.nodes[m].box, tri.a);
      ContainsBoxTransitive(surface.nodes[n].box, surface.nodes[m].box, tri.b);
      ContainsBoxTransitive(surface.nodes[n].box, surface.nodes[m].box, tri.c);
    }

    /** The node-level prune is sound: the box bound of `pn` and `sn` is at most the distance from
        any particle under `pn` to any triangle under `sn`. */
    lemma NodeBoundAdmissible(pn: nat, sn: nat, p: nat, t: nat)
      requires Valid() && pn < |particles.nodes| && sn < |surface.nodes| && p in PSub(pn) && t in SSub(sn)
      ensures LowerBoundBoxBox(particles.nodes[pn].box, surface.nodes[sn].box) <= D(p, t)
    {
      ParticleInBox(pn, p);
      ClosestInBox(sn, t, particles.X[p]);
      BoxBoxAdmissible(particles.nodes[pn].box, surface.nodes[sn].box,
                       particles.X[p], closest(surface.simplices[t], particles.X[p]).x);
    }

    /** The particle-level prune is sound: the point bound of particle `p` against `sn`'s box is at
        most its distance to any triangle under `sn`. */
    lemma PointBoundAdmissible(p: nat, sn: nat, t: nat)
      requires Valid() && p < |particles.X| && sn < |surface.nodes| && t in SSub(sn)
      ensures LowerBoundPointBox(particles.X[p], surface.nodes[sn].box) <= D(p, t)
    {
      ClosestInBox(sn, t, particles.X[p]);
      PointBoxAdmissible(particles.X[p], surface.nodes[sn].box, closest(surface.simplices[t], particles.X[p]).x);
    }

    /** If the bound of `pn` is already no larger than the bound for `sn`, every particle of `pn` is
        already covered by `sn`: skipping `sn` loses nothing. */
    lemma PruneCovers(recs: seq<Info>, bounds: seq<real>, pn: nat, sn: nat, bnode: nat)
      requires Valid() && |recs| == |particles.X| && |bounds| == |particles.nodes|
      requires pn < |particles.nodes| && sn < |surface.nodes| && bnode < |particles.nodes|
      requires PSub(pn) <= PSub(bnode) && Bounded(recs, bounds, bnode)
      requires bounds[bnode] <= LowerBoundBoxBox(particles.nodes[pn].box, surface.nodes[sn].box)
      ensures Covered(recs, pn, sn)
    {
      forall p, t | p in PSub(pn) && t in SSub(sn) ensures recs[p].phi <= D(p, t) {
        NodeBoundAdmissible(pn, sn, p, t);
      }
    }

    /** Leaf x leaf for one particle `p`: unless its point bound against the surface leaf `sn` already
        prunes it, try every triangle of `sn`, keeping a triangle only when it is strictly closer than
        the record. Only `p`'s record changes. */
    method EvalParticle(p: nat, sn: nat)
      requires Valid() && p < info.Length && sn < |surface.nodes| && surface.nodes[sn].Leaf?
      requires Realised(p, info[p])
      modifies info
      ensures Realised(p, info[p])
      ensures info[p] == old(info[p]) || info[p].phi < old(info[p].phi)
      ensures info[..] == old(info[..])[p := info[p]]
      ensures forall t :: t in SSub(sn) ==> info[p].phi <= D(p, t)
    {
      if info[p].phi > LowerBoundPointBox(particles.X[p], surface.nodes[sn].box) {
        var prims := surface.nodes[sn].prims;
        assert NodeShaped(surface.nodes, |surface.simplices|, sn);
        for k := 0 to |prims|
          invariant Realised(p, info[p])
          invariant info[p] == old(info[p]) || info[p].phi < old(info[p].phi)
          invariant info[..] == old(info[..])[p := info[p]]
          invariant forall j :: 0 <= j < k ==> info[p].phi <= D(p, prims[j])
        {
          var t := prims[k];
          var close := closest(surface.simplices[t], particles.X[p]);
          var delta := Sub(particles.X[p], close.x);
          var sd := SqrMagnitude(delta);
          if info[p].phi > sd {
            info[p] := Info(sd, delta, t, close.weights);
          }
        }
        forall t | t in SSub(sn) ensures info[p].phi <= D(p, t) {
          var j :| 0 <= j < |prims| && prims[j] == t;
        }
      } else {
        forall t | t in SSub(sn) ensures info[p].phi <= D(p, t) {
          PointBoundAdmissible(p, sn, t);
        }
      }
    }

    /** What the leaf-pair loop has established after its first `i` particles: only their records
        changed, each improved and is covered by leaf `sn`, no other bound changed, and the bound of
        `pn` is the running maximum of their records. */
    ghost predicate LeafProgress(pn: nat, sn: nat, i: nat, r0: seq<Info>, b0: seq<real>, recs: seq<Info>, bounds: seq<real>)
      requires Valid() && pn < |particles.nodes| && sn < |surface.nodes| && particles.nodes[pn].Leaf?
      requires NodeShaped(particles.nodes, |particles.X|, pn) && i <= |particles.nodes[pn].prims|
    {
      var prims := particles.nodes[pn].prims;
      |recs| == |particles.X| && |bounds| == |particles.nodes| && |b0| == |bounds| &&
      AllRealised(recs) && NonNegative(bounds) && Improved(r0, recs) &&
      (forall p :: 0 <= p < |recs| && p !in prims[..i] ==> recs[p] == r0[p]) &&
      (forall n :: 0 <= n < |bounds| && n != pn ==> bounds[n] == b0[n]) &&
      bounds[pn] == MaxPhi(prims[..i], recs) &&
      forall j, t :: 0 <= j < i && t in SSub(sn) ==> recs[prims[j]].phi <= D(prims[j], t)
    }

    /** One more particle `prims[i]` evaluated, its record becoming `x`, keeps the loop's progress. */
    lemma LeafStep(pn: nat, sn: nat, i: nat, r0: seq<Info>, b0: seq<real>, recs: seq<Info>, bounds: seq<real>, x: Info)
      requires Valid() && pn < |particles.nodes| && sn < |surface.nodes| && particles.nodes[pn].Leaf?
      requires NodeShaped(particles.nodes, |particles.X|, pn) && i < |particles.nodes[pn].prims|
      requires Distinct(particles.nodes[pn].prims)
      requires LeafProgress(pn, sn, i, r0, b0, recs, bounds)
      requires var p := particles.nodes[pn].prims[i];
        Realised(p, x) && (x == recs[p] || x.phi < recs[p].phi) &&
        forall t :: t in SSub(sn) ==> x.phi <= D(p, t)
      ensures var p := particles.nodes[pn].prims[i];
        LeafProgress(pn, sn, i + 1, r0, b0, recs[p := x], bounds[pn := Max(bounds[pn], x.phi)])
    {
      var prims := particles.nodes[pn].prims;
      var p := prims[i];
      assert forall j :: 0 <= j < i ==> prims[j] != p;
      MaxPhiStep(prims, i, recs, x);
      assert x.phi >= 0.0;
      LeafStepRealised(recs, p, x);
      ImprovedStep(r0, recs, p, x);
      NonNegativeStep(bounds, pn, Max(bounds[pn], x.phi));
      LeafStepUntouched(prims, i, r0, recs, x);
      LeafStepCovered(pn, sn, i, recs, x);
    }

    lemma LeafStepRealised(recs: seq<Info>, p: nat, x: Info)
      requires Valid() && AllRealised(recs) && p < |recs| && Realised(p, x)
      ensures AllRealised(recs[p := x])
    {
    }

    /** The particles of the leaf evaluated so far, now including `prims[i]`, are still covered. */
    lemma LeafStepCovered(pn: nat, sn: nat, i: nat, recs: seq<Info>, x: Info)
      requires Valid() && pn < |particles.nodes| && sn < |surface.nodes| && particles.nodes[pn].Leaf?
      requires NodeShaped(particles.nodes, |particles.X|, pn) && i < |particles.nodes[pn].prims|
      requires Distinct(particles.nodes[pn].prims) && |recs| == |particles.X|
      requires var prims := particles.nodes[pn].prims;
        forall j, t :: 0 <= j < i && t in SSub(sn) ==> recs[prims[j]].phi <= D(prims[j], t)
      requires forall t :: t in SSub(sn) ==> x.phi <= D(particles.nodes[pn].prims[i], t)
      ensures var prims := particles.nodes[pn].prims;
        forall j, t :: 0 <= j < i + 1 && t in SSub(sn) ==> recs[prims[i] := x][prims[j]].phi <= D(prims[j], t)
    {
      var prims := particles.nodes[pn].prims;
      forall j, t | 0 <= j < i + 1 && t in SSub(sn) ensures recs[prims[i] := x][prims[j]].phi <= D(prims[j], t) {
        if j < i {
          assert prims[j] != prims[i];
        }
      }
    }

    /** Leaf x leaf: every particle of leaf `pn` is evaluated against leaf `sn`, and the node bound
        becomes the running maximum of the leaf's records (from 0). */
    method EvalLeaves(pn: nat, sn: nat)
      requires Valid() && pn < |particles.nodes| && sn < |surface.nodes|
      requires particles.nodes[pn].Leaf? && surface.nodes[sn].Leaf?
      requires AllRealised(info[..]) && NonNegative(sqrPhiNode[..])
      modifies sqrPhiNode, info
      ensures AllRealised(info[..]) && NonNegative(sqrPhiNode[..])
      ensures Improved(old(info[..]), info[..])
      ensures forall p :: 0 <= p < info.Length && p !in PSub(pn) ==> info[p] == old(info[p])
      ensures forall n :: 0 <= n < sqrPhiNode.Length && n != pn ==> sqrPhiNode[n] == old(sqrPhiNode[n])
      ensures sqrPhiNode[pn] == MaxPhi(particles.nodes[pn].prims, info[..])
      ensures Covered(info[..], pn, sn)
    {
      var prims := particles.nodes[pn].prims;
      assert NodeShaped(particles.nodes, |particles.X|, pn);
      ghost var r0, b0 := info[..], sqrPhiNode[..];
      sqrPhiNode[pn] := 0.0;
      for i := 0 to |prims|
        invariant LeafProgress(pn, sn, i, r0, b0, info[..], sqrPhiNode[..])
      {
        var p := prims[i];
        ghost var recs, bounds := info[..], sqrPhiNode[..];
        EvalParticle(p, sn);
        sqrPhiNode[pn] := Max(sqrPhiNode[pn], info[p].phi);
        LeafStep(pn, sn, i, r0, b0, recs, bounds, info[p]);
        assert sqrPhiNode[..] == bounds[pn := Max(bounds[pn], info[p].phi)];
      }
      LeafDone(pn, sn, r0, b0, info[..], sqrPhiNode[..]);
    }

    lemma LeafDone(pn: nat, sn: nat, r0: seq<Info>, b0: seq<real>, recs: seq<Info>, bounds: seq<real>)
      requires Valid() && pn < |particles.nodes| && sn < |surface.nodes| && particles.nodes[pn].Leaf?
      requires NodeShaped(particles.nodes, |particles.X|, pn)
      requires LeafProgress(pn, sn, |particles.nodes[pn].prims|, r0, b0, recs, bounds)
      ensures bounds[pn] == MaxPhi(particles.nodes[pn].prims, recs)
      ensures forall p :: 0 <= p < |recs| && p !in PSub(pn) ==> recs[p] == r0[p]
      ensures Covered(recs, pn, sn)
    {
      var prims := particles.nodes[pn].prims;
      assert prims[..|prims|] == prims;
      assert PSub(pn) == set j | 0 <= j < |prims| :: prims[j];
      forall p, t | p in PSub(pn) && t in SSub(sn) ensures recs[p].phi <= D(p, t) {
        var j :| 0 <= j < |prims| && prims[j] == p;
      }
    }

    /** One evaluation of the pair (particle node `pn`, surface node `sn`). On return every particle of
        `pn` is at least as close as every triangle of `sn`, every node bound under `pn` bounds its
        particles' records, and nothing outside `pn`'s subtree has been written. */
    method Eval(pn: nat, sn: nat)
      requires Valid() && pn < |particles.nodes| && sn < |surface.nodes|
      requires AllRealised(info[..]) && NonNegative(sqrPhiNode[..])
      requires BoundedBelow(info[..], sqrPhiNode[..], pn)
      modifies sqrPhiNode, info
      decreases |particles.nodes| - pn + |surface.nodes| - sn, 2
      ensures AllRealised(info[..]) && NonNegative(sqrPhiNode[..])
      ensures BoundedBelow(info[..], sqrPhiNode[..], pn)
      ensures Covered(info[..], pn, sn)
      ensures Improved(old(info[..]), info[..])
      ensures forall p :: 0 <= p < info.Length && p !in PSub(pn) ==> info[p] == old(info[p])
      ensures forall n :: 0 <= n < sqrPhiNode.Length && n !in PNodes(pn) ==> sqrPhiNode[n] == old(sqrPhiNode[n])
      ensures Choose(particles.nodes[pn], surface.nodes[sn]) == LeafPair ==>
        sqrPhiNode[pn] == MaxPhi(particles.nodes[pn].prims, info[..])
      ensures Choose(particles.nodes[pn], surface.nodes[sn]) == SplitParticles ==>
        sqrPhiNode[pn] == Max(sqrPhiNode[particles.nodes[pn].left], sqrPhiNode[particles.nodes[pn].right])
    {
      var pnode, snode := particles.nodes[pn], surface.nodes[sn];
      assert NodeShaped(particles.nodes, |particles.X|, pn);
      assert NodeShaped(surface.nodes, |surface.simplices|, sn);
      match Choose(pnode, snode)
      case LeafPair =>
        EvalLeaves(pn, sn);
        MaxPhiIsMaximum(pnode.prims, info[..]);
      case SplitSurface =>
        ghost var first, second, visited, mid := EvalSurfaceSplit(pn, sn);
      case SplitParticles =>
        EvalParticleSplit(pn, sn);
    }

    /** Recurse into the surface node: the child with the smaller box bound first, and each child only
        while the (possibly lowered) bound of `pn` still exceeds that child's box bound. */
    /** Ghost outputs: the children in visiting order, the children actually visited, and the
        bound of `pn` after the first child. */
    method EvalSurfaceSplit(pn: nat, sn: nat) returns (ghost first: nat, ghost second: nat, ghost visited: seq<nat>,
                                                       ghost mid: real)
      requires Valid() && pn < |particles.nodes| && sn < |surface.nodes| && surface.nodes[sn].Internal?
      requires AllRealised(info[..]) && NonNegative(sqrPhiNode[..])
      requires BoundedBelow(info[..], sqrPhiNode[..], pn)
      modifies sqrPhiNode, info
      decreases |particles.nodes| - pn + |surface.nodes| - sn, 1
      ensures AllRealised(info[..]) && NonNegative(sqrPhiNode[..])
      ensures BoundedBelow(info[..], sqrPhiNode[..], pn)
      ensures Covered(info[..], pn, sn)
      ensures Improved(old(info[..]), info[..])
      ensures forall p :: 0 <= p < info.Length && p !in PSub(pn) ==> info[p] == old(info[p])
      ensures forall n :: 0 <= n < sqrPhiNode.Length && n !in PNodes(pn) ==> sqrPhiNode[n] == old(sqrPhiNode[n])
      ensures SmallerFirst(pn, sn, first, second)
      ensures visited == (if old(sqrPhiNode[pn]) > ChildBound(pn, first) then [first] else []) +
                         (if mid > ChildBound(pn, second) then [second] else [])
      ensures old(sqrPhiNode[pn]) <= ChildBound(pn, first) ==> mid == old(sqrPhiNode[pn])
    {
      var pbox := particles.nodes[pn].box;
      var l, r := surface.nodes[sn].left, surface.nodes[sn].right;
      assert NodeShaped(surface.nodes, |surface.simplices|, sn);
      var bl, br := LowerBoundBoxBox(pbox, surface.nodes[l].box), LowerBoundBoxBox(pbox, surface.nodes[r].box);
      // `bounds.argmin()`: the first child on a tie.
      var c0, c1, bFirst, bSecond := if bl <= br then l else r, if bl <= br then r else l,
                                     if bl <= br then bl else br, if bl <= br then br else bl;
      first, second := c0, c1;
      assert SmallerFirst(pn, sn, first, second);
      ghost var r0, b0 := info[..], sqrPhiNode[..];
      visited := [];
      if sqrPhiNode[pn] > bFirst {
        Eval(pn, c0);
        visited := [c0];
      } else {
        PruneCovers(r0, b0, pn, c0, pn);
      }
      ghost var r1, b1 := info[..], sqrPhiNode[..];
      mid := sqrPhiNode[pn];
      assert Covered(r1, pn, c0);
      if sqrPhiNode[pn] > bSecond {
        Eval(pn, c1);
        visited := visited + [c1];
      } else {
        PruneCovers(r1, b1, pn, c1, pn);
      }
      ghost var r2 := info[..];
      ImprovedTransitive(r0, r1, r2);
      CoveredBoth(pn, sn, c0, c1, r1, r2);
    }

    /** The box-to-box bound between particle node `pn` and surface node `c`. */
    function ChildBound(pn: nat, c: nat): real
      requires pn < |particles.nodes|
    {
      if c < |surface.nodes| then LowerBoundBoxBox(particles.nodes[pn].box, surface.nodes[c].box) else 0.0
    }

    /** `bounds.argmin()`: `first` and `second` are the two children of `sn`, the first with the
        smaller bound, and the left child when the bounds tie. */
    ghost predicate SmallerFirst(pn: nat, sn: nat, first: nat, second: nat)
      requires pn < |particles.nodes| && sn < |surface.nodes| && surface.nodes[sn].Internal?
    {
      var l, r := surface.nodes[sn].left, surface.nodes[sn].right;
      ((first == l && second == r) || (first == r && second == l)) &&
      ChildBound(pn, first) <= ChildBound(pn, second) &&
      (ChildBound(pn, first) == ChildBound(pn, second) ==> first == l)
    }

    /** Once the records cover both children of the surface node, they cover the node. */
    lemma CoveredBoth(pn: nat, sn: nat, first: nat, second: nat, r1: seq<Info>, r2: seq<Info>)
      requires Valid() && pn < |particles.nodes| && sn < |surface.nodes| && surface.nodes[sn].Internal?
      requires NodeShaped(surface.nodes, |surface.simplices|, sn)
      requires var l, r := surface.nodes[sn].left, surface.nodes[sn].right;
        (first == l && second == r) || (first == r && second == l)
      requires |r1| == |r2| == |particles.X| && Improved(r1, r2)
      requires Covered(r1, pn, first) && Covered(r2, pn, second)
      ensures Covered(r2, pn, sn)
    {
      assert Covered(r2, pn, first) by {
        forall p, t | p in PSub(pn) && t in SSub(first) ensures r2[p].phi <= D(p, t) {
          assert r1[p].phi <= D(p, t);
        }
      }
      assert SSub(sn) == SSub(surface.nodes[sn].left) + SSub(surface.nodes[sn].right);
    }

    /** Everything an evaluation of (`c`, `sn`) guarantees, as a relation between the records and
        bounds before (`rb`, `bb`) and after (`ra`, `ba`); a pruned child satisfies it unchanged. */
    ghost predicate Visited(c: nat, sn: nat, rb: seq<Info>, bb: seq<real>, ra: seq<Info>, ba: seq<real>)
      requires Valid() && c < |particles.nodes| && sn < |surface.nodes|
      requires |rb| == |ra| == |particles.X| && |bb| == |ba| == |particles.nodes|
    {
      AllRealised(ra) && NonNegative(ba) && BoundedBelow(ra, ba, c) && Covered(ra, c, sn) && Improved(rb, ra) &&
      (forall p :: 0 <= p < |ra| && p !in PSub(c) ==> ra[p] == rb[p]) &&
      (forall n :: 0 <= n < |ba| && n !in PNodes(c) ==> ba[n] == bb[n])
    }

    /** Zeroing the bound of `pn` leaves the bounds of both children's subtrees intact. */
    lemma SplitStart(pn: nat, recs: seq<Info>, b0: seq<real>, b1: seq<real>)
      requires Valid() && pn < |particles.nodes| && particles.nodes[pn].Internal?
      requires |recs| == |particles.X| && |b0| == |particles.nodes| && b1 == b0[pn := 0.0]
      requires NonNegative(b0) && BoundedBelow(recs, b0, pn)
      ensures NonNegative(b1)
      ensures BoundedBelow(recs, b1, particles.nodes[pn].left) && BoundedBelow(recs, b1, particles.nodes[pn].right)
    {
      assert NodeShaped(particles.nodes, |particles.X|, pn);
      var l, r := particles.nodes[pn].left, particles.nodes[pn].right;
      forall n | n in PNodes(l) ensures Bounded(recs, b1, n) {
        assert Bounded(recs, b0, n);
      }
      forall n | n in PNodes(r) ensures Bounded(recs, b1, n) {
        assert Bounded(recs, b0, n);
      }
    }

    /** After the left child, the right child's subtree still has its bounds. */
    lemma SplitMiddle(pn: nat, sn: nat, r0: seq<Info>, b0: seq<real>, r1: seq<Info>, b1: seq<real>, b2: seq<real>)
      requires Valid() && pn < |particles.nodes| && sn < |surface.nodes| && particles.nodes[pn].Internal?
      requires NodeShaped(particles.nodes, |particles.X|, pn)
      requires |r0| == |r1| == |particles.X| && |b0| == |b1| == |particles.nodes|
      requires BoundedBelow(r0, b0, particles.nodes[pn].right)
      requires Visited(particles.nodes[pn].left, sn, r0, b0, r1, b1)
      requires b2 == b1[pn := Max(b1[pn], b1[particles.nodes[pn].left])]
      ensures NonNegative(b2) && BoundedBelow(r1, b2, particles.nodes[pn].right)
    {
      var l, r := particles.nodes[pn].left, particles.nodes[pn].right;
      assert PNodes(l) !! PNodes(r);
      forall n | n in PNodes(r) ensures Bounded(r1, b2, n) {
        assert Bounded(r0, b0, n);
        assert n !in PNodes(l);
      }
    }

    /** Both children visited or pruned: `pn`'s subtree is bounded and covered by `sn`. */
    lemma SplitDone(pn: nat, sn: nat, r0: seq<Info>, b0: seq<real>, b0z: seq<real>, r1: seq<Info>, b1: seq<real>,
                    b1m: seq<real>, r2: seq<Info>, b2: seq<real>, b3: seq<real>)
      requires Valid() && pn < |particles.nodes| && sn < |surface.nodes| && particles.nodes[pn].Internal?
      requires NodeShaped(particles.nodes, |particles.X|, pn)
      requires |r0| == |r1| == |r2| == |particles.X|
      requires |b0| == |b0z| == |b1| == |b1m| == |b2| == |particles.nodes|
      requires b0z == b0[pn := 0.0]
      requires Visited(particles.nodes[pn].left, sn, r0, b0z, r1, b1)
      requires b1m == b1[pn := Max(b1[pn], b1[particles.nodes[pn].left])]
      requires Visited(particles.nodes[pn].right, sn, r1, b1m, r2, b2)
      requires b3 == b2[pn := Max(b2[pn], b2[particles.nodes[pn].right])]
      ensures AllRealised(r2) && NonNegative(b3) && Improved(r0, r2)
      ensures BoundedBelow(r2, b3, pn) && Covered(r2, pn, sn)
      ensures forall p :: 0 <= p < |r2| && p !in PSub(pn) ==> r2[p] == r0[p]
      ensures forall n :: 0 <= n < |b3| && n !in PNodes(pn) ==> b3[n] == b0[n]
      ensures b3[pn] == Max(b3[particles.nodes[pn].left], b3[particles.nodes[pn].right])
    {
      var l, r := particles.nodes[pn].left, particles.nodes[pn].right;
      assert PNodes(l) !! PNodes(r);
      assert pn !in PNodes(l) && pn !in PNodes(r);
      assert PSub(pn) == PSub(l) + PSub(r);
      ImprovedTransitive(r0, r1, r2);
      assert b3[l] == b1[l];
      forall p, t | p in PSub(pn) && t in SSub(sn) ensures r2[p].phi <= D(p, t) {
        if p in PSub(l) {
          assert r1[p].phi <= D(p, t);
        }
      }
      forall n | n in PNodes(pn) ensures Bounded(r2, b3, n) {
        if n == pn {
          forall p | p in PSub(pn) ensures r2[p].phi <= b3[pn] {
            if p in PSub(l) {
              assert Bounded(r1, b1, l);
            } else {
              assert Bounded(r2, b2, r);
            }
          }
        } else if n in PNodes(l) {
          assert Bounded(r1, b1, n);
          assert n !in PNodes(r);
        } else {
          assert Bounded(r2, b2, n);
        }
      }
    }

    /** One child `c` of a particle split: evaluated against `sn` unless its own bound is already no
        larger than its box bound against `sn`. */
    method EvalParticleChild(c: nat, sn: nat)
      requires Valid() && c < |particles.nodes| && sn < |surface.nodes|
      requires AllRealised(info[..]) && NonNegative(sqrPhiNode[..])
      requires BoundedBelow(info[..], sqrPhiNode[..], c)
      modifies sqrPhiNode, info
      decreases |particles.nodes| - c + |surface.nodes| - sn, 3
      ensures Visited(c, sn, old(info[..]), old(sqrPhiNode[..]), info[..], sqrPhiNode[..])
    {
      if sqrPhiNode[c] > LowerBoundBoxBox(particles.nodes[c].box, surface.nodes[sn].box) {
        Eval(c, sn);
      } else {
        PruneCovers(info[..], sqrPhiNode[..], c, sn, c);
      }
    }

    /** Recurse into the particle node: each child unless its own bound is already no larger than its
        box bound against `sn`; then the bound of `pn` becomes the maximum of its children's. */
    method EvalParticleSplit(pn: nat, sn: nat)
      requires Valid() && pn < |particles.nodes| && sn < |surface.nodes| && particles.nodes[pn].Internal?
      requires AllRealised(info[..]) && NonNegative(sqrPhiNode[..])
      requires BoundedBelow(info[..], sqrPhiNode[..], pn)
      modifies sqrPhiNode, info
      decreases |particles.nodes| - pn + |surface.nodes| - sn, 1
      ensures AllRealised(info[..]) && NonNegative(sqrPhiNode[..])
      ensures BoundedBelow(info[..], sqrPhiNode[..], pn)
      ensures Covered(info[..], pn, sn)
      ensures Improved(old(info[..]), info[..])
      ensures forall p :: 0 <= p < info.Length && p !in PSub(pn) ==> info[p] == old(info[p])
      ensures forall n :: 0 <= n < sqrPhiNode.Length && n !in PNodes(pn) ==> sqrPhiNode[n] == old(sqrPhiNode[n])
      ensures sqrPhiNode[pn] == Max(sqrPhiNode[particles.nodes[pn].left], sqrPhiNode[particles.nodes[pn].right])
    {
      var l, r := particles.nodes[pn].left, particles.nodes[pn].right;
      assert NodeShaped(particles.nodes, |particles.X|, pn);
      ghost var r0, b0 := info[..], sqrPhiNode[..];
      sqrPhiNode[pn] := 0.0;
      ghost var b0z := sqrPhiNode[..];
      SplitStart(pn, r0, b0, b0z);
      EvalParticleChild(l, sn);
      ghost var r1, b1 := info[..], sqrPhiNode[..];
      sqrPhiNode[pn] := Max(sqrPhiNode[pn], sqrPhiNode[l]);
      ghost var b1m := sqrPhiNode[..];
      SplitMiddle(pn, sn, r0, b0z, r1, b1, b1m);
      EvalParticleChild(r, sn);
      ghost var r2, b2 := info[..], sqrPhiNode[..];
      sqrPhiNode[pn] := Max(sqrPhiNode[pn], sqrPhiNode[r]);
      SplitDone(pn, sn, r0, b0, b0z, r1, b1, b1m, r2, b2, sqrPhiNode[..]);
    }
  }
}
