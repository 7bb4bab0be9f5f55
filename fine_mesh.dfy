// `make_fine_mesh`: the 1-to-4 split of a triangle mesh, with one new node per segment of the coarse
// mesh at id `offset + segment index`. The segment mesh and its node-to-segment incidence lists are
// inputs (their construction is not modelled).

module FineMesh {

  /** `Vector<int,3>`: the corner ids of a triangle. */
  type Tri = s: seq<int> | |s| == 3 witness [0, 0, 0]

  /** `Vector<int,2>`: the end node ids of a segment. */
  datatype Segment = Segment(i: int, j: int)

  predicate SegmentContains(seg: Segment, v: int) { seg.i == v || seg.j == v }

  /** Every incidence list names segments of the mesh, one list per coarse node. */
  ghost predicate IncidenceShaped(nodes: nat, segments: seq<Segment>, incident: seq<seq<int>>) {
    |incident| == nodes &&
    forall v, k :: 0 <= v < |incident| && 0 <= k < |incident[v]| ==> 0 <= incident[v][k] < |segments|
  }

  /** Index into `inc` of the first listed segment that contains `end`, or `|inc|` when none does
      (the search loop that breaks at the first hit). */
  function FirstMatch(segments: seq<Segment>, inc: seq<int>, end: int): (k: nat)
    requires forall m :: 0 <= m < |inc| ==> 0 <= inc[m] < |segments|
    ensures k <= |inc|
    ensures k < |inc| ==> SegmentContains(segments[inc[k]], end)
    ensures forall m :: 0 <= m < k ==> !SegmentContains(segments[inc[m]], end)
    decreases |inc|
  {
    if inc == [] then 0
    else if SegmentContains(segments[inc[0]], end) then 0
    else 1 + FirstMatch(segments, inc[1..], end)
  }

  /** The side from `start` to `end` is found among the segments incident to `start`. */
  ghost predicate SideFound(nodes: nat, segments: seq<Segment>, incident: seq<seq<int>>, start: int, end: int)
    requires IncidenceShaped(nodes, segments, incident)
  {
    0 <= start < nodes && FirstMatch(segments, incident[start], end) < |incident[start]|
  }

  /** The three sides (n0, n1), (n1, n2), (n2, n0) of a triangle are found. */
  ghost predicate SidesFound(nodes: nat, segments: seq<Segment>, incident: seq<seq<int>>, n: Tri)
    requires IncidenceShaped(nodes, segments, incident)
  {
    SideFound(nodes, segments, incident, n[0], n[1]) && SideFound(nodes, segments, incident, n[1], n[2]) &&
    SideFound(nodes, segments, incident, n[2], n[0])
  }

  /** Every side of every coarse triangle is found (every side is a segment of the mesh). */
  ghost predicate AllSidesFound(nodes: nat, elements: seq<Tri>, segments: seq<Segment>, incident: seq<seq<int>>)
    requires IncidenceShaped(nodes, segments, incident)
  {
    forall t :: 0 <= t < |elements| ==> SidesFound(nodes, segments, incident, elements[t])
  }

  /** The fine node standing for the side from `start` to `end`: `offset` plus the first incident
      segment of `start` that contains `end`, so a new node whose segment has `end` as an end. */
  function EdgeNode(nodes: nat, segments: seq<Segment>, incident: seq<seq<int>>, start: int, end: int): (e: int)
    requires IncidenceShaped(nodes, segments, incident) && SideFound(nodes, segments, incident, start, end)
    ensures nodes <= e < nodes + |segments| && SegmentContains(segments[e - nodes], end)
  {
    nodes + incident[start][FirstMatch(segments, incident[start], end)]
  }

  /** The edge nodes (e0, e1, e2) of corners (n0, n1, n2): `e_a` stands for the side from `n_a` to
      `n_(a+1) mod 3`. */
  function EdgeNodes(nodes: nat, segments: seq<Segment>, incident: seq<seq<int>>, n: Tri): (e: Tri)
    requires IncidenceShaped(nodes, segments, incident)
    requires SidesFound(nodes, segments, incident, n)
    ensures forall a {:trigger e[a]} :: 0 <= a < 3 ==>
      nodes <= e[a] < nodes + |segments| && SegmentContains(segments[e[a] - nodes], n[(a + 1) % 3])
  {
    [EdgeNode(nodes, segments, incident, n[0], n[1]), EdgeNode(nodes, segments, incident, n[1], n[2]),
     EdgeNode(nodes, segments, incident, n[2], n[0])]
  }

  /** Edge node `a` stands for the side from corner `a` to the next corner. */
  lemma EdgeNodesAt(nodes: nat, segments: seq<Segment>, incident: seq<seq<int>>, n: Tri, a: nat)
    requires IncidenceShaped(nodes, segments, incident) && SidesFound(nodes, segments, incident, n) && a < 3
    ensures SideFound(nodes, segments, incident, n[a], n[(a + 1) % 3])
    ensures EdgeNodes(nodes, segments, incident, n)[a] == EdgeNode(nodes, segments, incident, n[a], n[(a + 1) % 3])
  {
    if a == 0 {
    } else if a == 1 {
    } else {
    }
  }

  /** The four fine triangles of a coarse triangle. Corner triangle `a` keeps corner `a` in its place,
      followed (in the coarse orientation) by the edge node of the side leaving `a` and then that of
      the side arriving at `a`; the middle triangle is `e`. */
  function Split(n: Tri, e: Tri): (r: seq<Tri>)
    ensures |r| == 4 && r[3] == e
    ensures forall a {:trigger r[a]} :: 0 <= a < 3 ==>
      r[a][a] == n[a] && r[a][(a + 1) % 3] == e[a] && r[a][(a + 2) % 3] == e[(a + 2) % 3]
  {
    [[n[0], e[0], e[2]], [e[0], n[1], e[1]], [e[2], e[1], n[2]], [e[0], e[1], e[2]]]
  }

  /** The search of `make_fine_mesh` for one side: scan the segments incident to `start` and stop at
      the first one that contains `end`. */
  method FindEdgeNode(nodes: nat, segments: seq<Segment>, incident: seq<seq<int>>, start: int, end: int)
    returns (e: int)
    requires IncidenceShaped(nodes, segments, incident) && SideFound(nodes, segments, incident, start, end)
    ensures e == EdgeNode(nodes, segments, incident, start, end)
  {
    var inc := incident[start];
    var i := 0;
    while i < |inc| && !SegmentContains(segments[inc[i]], end)
      invariant i <= FirstMatch(segments, inc, end)
    {
      i := i + 1;
    }
    e := nodes + inc[i];
  }

  /** The body of the `make_fine_mesh` loop for one coarse triangle: find its three edge nodes, then
      form its four fine triangles. */
  method SplitTriangle(nodes: nat, segments: seq<Segment>, incident: seq<seq<int>>, n: Tri) returns (fine: seq<Tri>)
    requires IncidenceShaped(nodes, segments, incident) && SidesFound(nodes, segments, incident, n)
    ensures fine == Split(n, EdgeNodes(nodes, segments, incident, n))
  {
    ghost var want := EdgeNodes(nodes, segments, incident, n);
    var edges: Tri := [0, 0, 0];
    for a := 0 to 3
      invariant edges[..a] == want[..a]
    {
      EdgeNodesAt(nodes, segments, incident, n, a);
      var e := FindEdgeNode(nodes, segments, incident, n[a], n[(a + 1) % 3]);
      edges := edges[a := e];
    }
    assert edges == edges[..3];
    fine := Split(n, edges);
  }

  /** Fine triangle `k` of the split of coarse triangle `t`. */
  ghost function FineTriangle(nodes: nat, elements: seq<Tri>, segments: seq<Segment>, incident: seq<seq<int>>,
                              t: nat, k: nat): (f: Tri)
    requires IncidenceShaped(nodes, segments, incident) && AllSidesFound(nodes, elements, segments, incident)
    requires t < |elements| && k < 4
    ensures k < 3 ==> f[k] == elements[t][k]
    ensures k == 3 ==>
      SidesFound(nodes, segments, incident, elements[t]) && f == EdgeNodes(nodes, segments, incident, elements[t])
  {
    assert SidesFound(nodes, segments, incident, elements[t]);
    Split(elements[t], EdgeNodes(nodes, segments, incident, elements[t]))[k]
  }

  /** The fine triangles of the first `T` coarse triangles, four per triangle and in order: slot `i`
      holds fine triangle `i % 4` of coarse triangle `i / 4`. */
  ghost function FineTriangles(nodes: nat, elements: seq<Tri>, segments: seq<Segment>, incident: seq<seq<int>>,
                               T: nat): (f: seq<Tri>)
    requires IncidenceShaped(nodes, segments, incident) && AllSidesFound(nodes, elements, segments, incident)
    requires T <= |elements|
    ensures |f| == 4 * T
  {
    seq(4 * T, i requires 0 <= i < 4 * T => FineTriangle(nodes, elements, segments, incident, i / 4, i % 4))
  }

  /** Slot `4*t+k` of the fine mesh holds fine triangle `k` of coarse triangle `t`. */
  lemma FineTrianglesAt(nodes: nat, elements: seq<Tri>, segments: seq<Segment>, incident: seq<seq<int>>,
                        T: nat, t: nat, k: nat)
    requires IncidenceShaped(nodes, segments, incident) && AllSidesFound(nodes, elements, segments, incident)
    requires t < T <= |elements| && k < 4
    ensures FineTriangles(nodes, elements, segments, incident, T)[4 * t + k] ==
      FineTriangle(nodes, elements, segments, incident, t, k)
  {
    assert (4 * t + k) / 4 == t && (4 * t + k) % 4 == k;
  }

  /** One more coarse triangle adds its four fine triangles at the end: how the `make_fine_mesh` loop
      advances. */
  lemma FineTrianglesStep(nodes: nat, elements: seq<Tri>, segments: seq<Segment>, incident: seq<seq<int>>, t: nat)
    requires IncidenceShaped(nodes, segments, incident) && AllSidesFound(nodes, elements, segments, incident)
    requires t < |elements|
    ensures SidesFound(nodes, segments, incident, elements[t])
    ensures FineTriangles(nodes, elements, segments, incident, t + 1) ==
      FineTriangles(nodes, elements, segments, incident, t) +
      Split(elements[t], EdgeNodes(nodes, segments, incident, elements[t]))
  {
    assert SidesFound(nodes, segments, incident, elements[t]);
    var A, B := FineTriangles(nodes, elements, segments, incident, t + 1), FineTriangles(nodes, elements, segments, incident, t);
    var S := Split(elements[t], EdgeNodes(nodes, segments, incident, elements[t]));
    forall i | 0 <= i < 4 * t + 4 ensures A[i] == (B + S)[i] {
      if i < 4 * t {
        assert A[i] == B[i];
      } else {
        assert i / 4 == t && i % 4 == i - 4 * t;
        assert A[i] == S[i - 4 * t];
      }
    }
  }

  /** `make_fine_mesh`: four fine triangles per coarse triangle, in order. */
  method MakeFineMesh(nodes: nat, elements: seq<Tri>, segments: seq<Segment>, incident: seq<seq<int>>)
    returns (triangles: array<Tri>)
    requires IncidenceShaped(nodes, segments, incident)
    requires AllSidesFound(nodes, elements, segments, incident)
    ensures fresh(triangles)
    ensures triangles[..] == FineTriangles(nodes, elements, segments, incident, |elements|)
  {
    triangles := new Tri[4 * |elements|];
    for t := 0 to |elements|
      invariant triangles[..4 * t] == FineTriangles(nodes, elements, segments, incident, t)
    {
      SplitInto(nodes, elements, segments, incident, triangles, t);
    }
    assert triangles[..] == triangles[..4 * |elements|];
  }

  /** One turn of the `make_fine_mesh` loop: the four fine triangles of coarse triangle `t` go to
      slots `4*t ... 4*t+3`. */
  method SplitInto(nodes: nat, elements: seq<Tri>, segments: seq<Segment>, incident: seq<seq<int>>,
                   triangles: array<Tri>, t: nat)
    requires IncidenceShaped(nodes, segments, incident) && AllSidesFound(nodes, elements, segments, incident)
    requires t < |elements| && 4 * t + 4 <= triangles.Length
    requires triangles[..4 * t] == FineTriangles(nodes, elements, segments, incident, t)
    modifies triangles
    ensures triangles[..4 * (t + 1)] == FineTriangles(nodes, elements, segments, incident, t + 1)
  {
    FineTrianglesStep(nodes, elements, segments, incident, t);
    var fine := SplitTriangle(nodes, segments, incident, elements[t]);
    StoreSplit(triangles, t, fine);
  }

  /** `triangles[4*t+0] ... triangles[4*t+3]` are set to the four fine triangles. */
  method StoreSplit(triangles: array<Tri>, t: nat, fine: seq<Tri>)
    requires |fine| == 4 && 4 * t + 4 <= triangles.Length
    modifies triangles
    ensures triangles[..4 * t + 4] == old(triangles[..4 * t]) + fine
  {
    triangles[4 * t + 0] := fine[0];
    triangles[4 * t + 1] := fine[1];
    triangles[4 * t + 2] := fine[2];
    triangles[4 * t + 3] := fine[3];
    assert triangles[..4 * t + 4] == old(triangles[..4 * t]) + fine by {
      forall i | 0 <= i < 4 * t + 4
        ensures triangles[..4 * t + 4][i] == (old(triangles[..4 * t]) + fine)[i]
      {
        if i >= 4 * t {
          assert triangles[i] == fine[i - 4 * t];
        }
      }
    }
  }

  /** Every segment listed for node `v` has `v` as an end. */
  ghost predicate IncidenceSound(nodes: nat, segments: seq<Segment>, incident: seq<seq<int>>)
    requires IncidenceShaped(nodes, segments, incident)
  {
    forall v, k :: 0 <= v < nodes && 0 <= k < |incident[v]| ==> SegmentContains(segments[incident[v][k]], v)
  }

  /** Incidence lists are exact: `incident[v]` lists the segments that have `v` as an end, and every
      segment joins two distinct coarse nodes. */
  ghost predicate IncidenceExact(nodes: nat, segments: seq<Segment>, incident: seq<seq<int>>)
    requires IncidenceShaped(nodes, segments, incident)
  {
    IncidenceSound(nodes, segments, incident) &&
    (forall s :: 0 <= s < |segments| ==>
      0 <= segments[s].i < nodes && 0 <= segments[s].j < nodes && segments[s].i != segments[s].j &&
      s in incident[segments[s].i] && s in incident[segments[s].j])
  }

  /** No two segments join the same pair of nodes. */
  ghost predicate SegmentsUnique(segments: seq<Segment>) {
    forall s, s' ::
      (0 <= s < |segments| && 0 <= s' < |segments| &&
       SegmentContains(segments[s], segments[s'].i) && SegmentContains(segments[s], segments[s'].j)) ==> s == s'
  }

  /** The edge node of a side is a new node (at least `offset`, below `offset` plus the segment count)
      and stands for a segment joining the side's two corners. */
  lemma EdgeNodeIsSide(nodes: nat, segments: seq<Segment>, incident: seq<seq<int>>, start: int, end: int)
    requires IncidenceShaped(nodes, segments, incident) && IncidenceSound(nodes, segments, incident)
    requires SideFound(nodes, segments, incident, start, end)
    ensures var e := EdgeNode(nodes, segments, incident, start, end);
      nodes <= e < nodes + |segments| &&
      SegmentContains(segments[e - nodes], start) && SegmentContains(segments[e - nodes], end)
  {
    var k := FirstMatch(segments, incident[start], end);
    assert SegmentContains(segments[incident[start][k]], start);
  }

  /** A segment joining `u` and `v` with `u != v` is the only one, so the search from either end
      finds it: two triangles sharing a side get the same edge node, and the fine mesh is conforming. */
  lemma EdgeNodeSymmetric(nodes: nat, segments: seq<Segment>, incident: seq<seq<int>>, u: int, v: int)
    requires IncidenceShaped(nodes, segments, incident) && IncidenceExact(nodes, segments, incident)
    requires SegmentsUnique(segments) && u != v
    requires SideFound(nodes, segments, incident, u, v)
    ensures SideFound(nodes, segments, incident, v, u)
    ensures EdgeNode(nodes, segments, incident, u, v) == EdgeNode(nodes, segments, incident, v, u)
  {
    var s := EdgeNode(nodes, segments, incident, u, v) - nodes;
    EdgeNodeIsSide(nodes, segments, incident, u, v);
    var inc := incident[v];
    assert s in inc;
    var m := FirstMatchReaches(segments, inc, u, s);
    SameEnds(segments, s, inc[m], u, v);
  }

  /** When segment `s` of `inc` contains `end`, the search stops at or before it, at index `m`. */
  lemma FirstMatchReaches(segments: seq<Segment>, inc: seq<int>, end: int, s: int) returns (m: nat)
    requires forall q :: 0 <= q < |inc| ==> 0 <= inc[q] < |segments|
    requires s in inc && SegmentContains(segments[s], end)
    ensures m == FirstMatch(segments, inc, end) && m < |inc| && SegmentContains(segments[inc[m]], end)
  {
    m := FirstMatch(segments, inc, end);
    var k :| 0 <= k < |inc| && inc[k] == s;
    assert m <= k;
  }

  /** Two segments that both join `u != v` are the same segment. */
  lemma SameEnds(segments: seq<Segment>, s: nat, s': nat, u: int, v: int)
    requires SegmentsUnique(segments) && u != v && s < |segments| && s' < |segments|
    requires segments[s'].i != segments[s'].j
    requires SegmentContains(segments[s], u) && SegmentContains(segments[s], v)
    requires SegmentContains(segments[s'], u) && SegmentContains(segments[s'], v)
    ensures s == s'
  {
    assert SegmentContains(segments[s], segments[s'].i) && SegmentContains(segments[s], segments[s'].j);
  }

  predicate NonDegenerate(f: Tri) { f[0] != f[1] && f[1] != f[2] && f[2] != f[0] }

  /** The three edge nodes of a triangle with distinct corners are distinct new nodes: each stands for
      a segment joining two of the corners, and no segment joins all three. */
  lemma EdgeNodesDistinct(nodes: nat, segments: seq<Segment>, incident: seq<seq<int>>, n: Tri)
    requires IncidenceShaped(nodes, segments, incident) && IncidenceSound(nodes, segments, incident)
    requires SidesFound(nodes, segments, incident, n)
    requires NonDegenerate(n)
    ensures var e := EdgeNodes(nodes, segments, incident, n);
      NonDegenerate(e) && n[0] < nodes && n[1] < nodes && n[2] < nodes &&
      nodes <= e[0] && nodes <= e[1] && nodes <= e[2]
  {
    EdgeNodeIsSide(nodes, segments, incident, n[0], n[1]);
    EdgeNodeIsSide(nodes, segments, incident, n[1], n[2]);
    EdgeNodeIsSide(nodes, segments, incident, n[2], n[0]);
    var e := EdgeNodes(nodes, segments, incident, n);
    DistinctSides(segments[e[0] - nodes], segments[e[1] - nodes], segments[e[2] - nodes], n);
  }

  /** Segments that join the three pairs of distinct corners `n0 n1`, `n1 n2`, `n2 n0` are distinct. */
  lemma DistinctSides(s0: Segment, s1: Segment, s2: Segment, n: Tri)
    requires NonDegenerate(n)
    requires SegmentContains(s0, n[0]) && SegmentContains(s0, n[1])
    requires SegmentContains(s1, n[1]) && SegmentContains(s1, n[2])
    requires SegmentContains(s2, n[2]) && SegmentContains(s2, n[0])
    ensures s0 != s1 && s1 != s2 && s2 != s0
  {
  }

  /** A coarse triangle with three distinct corners splits into four fine triangles with three distinct
      ids each. */
  lemma SplitNonDegenerate(nodes: nat, segments: seq<Segment>, incident: seq<seq<int>>, n: Tri)
    requires IncidenceShaped(nodes, segments, incident) && IncidenceSound(nodes, segments, incident)
    requires SidesFound(nodes, segments, incident, n)
    requires NonDegenerate(n)
    ensures forall k :: 0 <= k < 4 ==> NonDegenerate(Split(n, EdgeNodes(nodes, segments, incident, n))[k])
  {
    EdgeNodesDistinct(nodes, segments, incident, n);
  }
}
