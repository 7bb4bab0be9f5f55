// The Loop subdivision weight table of `TriangleSubdivision::loop_matrix`: one row per coarse node,
// then one row per segment (fine node `offset + s`), filled into a hashtable that becomes a sparse
// matrix of shape `(offset + segments) x offset`. The adjacency lists (segments, sorted neighbours,
// boundary neighbours) are inputs, and the three cosine-derived weight formulas are parameters.

module LoopMatrix {
  import opened FineMesh
  import opened Hashtable

  /** The inputs of `loop_matrix` other than the corner set: the coarse node count (`offset`), the
      segments, `sorted_neighbors` and the boundary mesh's `neighbors`, as nested lists indexed by node
      (a node beyond a list's end is not `valid` in it). */
  datatype Adjacency = Adjacency(nodes: nat, segments: seq<Segment>, neighbors: seq<seq<int>>,
                                 boundaryNeighbors: seq<seq<int>>)

  /** `new_loop_alpha`, `new_loop_beta` and `new_loop_weight`. */
  datatype LoopWeights = LoopWeights(alpha: int -> real, beta: int -> real, weight: (int, int) -> real)

  /** `lists[v]` when `v` is valid in the nested list, and empty otherwise. */
  function ListAt(lists: seq<seq<int>>, v: int): seq<int> {
    if 0 <= v < |lists| then lists[v] else []
  }

  /** `Array::find`: the first index holding `v`, or -1. */
  function Find(s: seq<int>, v: int): (j: int)
    ensures -1 <= j < |s|
    ensures j >= 0 ==> s[j] == v && forall k :: 0 <= k < j ==> s[k] != v
    ensures j == -1 <==> v !in s
    decreases |s|
  {
    if s == [] then -1
    else if s[0] == v then 0
    else var j := Find(s[1..], v); if j == -1 then -1 else j + 1
  }

  method FindIndex(s: seq<int>, v: int) returns (j: int)
    ensures j == Find(s, v)
  {
    j := 0;
    while j < |s| && s[j] != v
      invariant 0 <= j <= |s| && forall k :: 0 <= k < j ==> s[k] != v
    {
      j := j + 1;
    }
    if j == |s| {
      j := -1;
    }
  }

  /** A node keeps its position: it has no neighbours, is a corner, or is a boundary node whose
      boundary degree is neither 0 nor 2. */
  predicate KeepsPosition(adj: Adjacency, corners: set<int>, i: int) {
    var bn := adj.boundaryNeighbors;
    |ListAt(adj.neighbors, i)| == 0 || i in corners || (0 <= i < |bn| && |bn[i]| != 0 && |bn[i]| != 2)
  }

  /** A regular boundary node: exactly two boundary neighbours. */
  predicate RegularBoundary(adj: Adjacency, i: int) {
    0 <= i < |adj.boundaryNeighbors| && |adj.boundaryNeighbors[i]| == 2
  }

  /** The regular boundary rule: `set`s on the node and its two boundary neighbours, whose weights
      sum to 1. */
  function BoundaryNodeWrites(i: int, b: seq<int>): (ws: seq<Write>)
    requires |b| == 2
    ensures |ws| == 3 && OnRow(ws, i) && WeightSum(ws) == 1.0
    ensures forall k :: 0 <= k < |ws| ==> ws[k].Set? && (ws[k].key.1 == i || ws[k].key.1 in b)
  {
    WeightSumThree(Set((i, i), 0.75), Set((i, b[0]), 0.125), Set((i, b[1]), 0.125));
    [Set((i, i), 0.75), Set((i, b[0]), 0.125), Set((i, b[1]), 0.125)]
  }

  /** The interior rule: one `set` on the node, then one per neighbour, whose weights sum to 1
      whatever `alpha` is. */
  function InteriorWrites(i: int, ni: seq<int>, alpha: real): (ws: seq<Write>)
    requires |ni| > 0
    ensures |ws| == |ni| + 1 && OnRow(ws, i) && WeightSum(ws) == 1.0
    ensures forall k :: 0 <= k < |ws| ==> ws[k].Set? && (ws[k].key.1 == i || ws[k].key.1 in ni)
  {
    var other := (1.0 - alpha) / (|ni| as real);
    var ring := seq(|ni|, k requires 0 <= k < |ni| => Set((i, ni[k]), other));
    UniformSum(ring, other);
    assert (|ni| as real) * other == 1.0 - alpha;
    assert ([Set((i, i), alpha)] + ring)[1..] == ring;
    [Set((i, i), alpha)] + ring
  }

  /** The entries of the interior rule, in order. */
  lemma InteriorWritesAt(i: int, ni: seq<int>, alpha: real)
    requires |ni| > 0
    ensures var ws := InteriorWrites(i, ni, alpha);
      ws[0] == Set((i, i), alpha) &&
      forall k :: 0 <= k < |ni| ==> ws[k + 1] == Set((i, ni[k]), (1.0 - alpha) / (|ni| as real))
  {
  }

  /** The writes for coarse node `i`, in the order the source performs them. */
  function NodeWrites(adj: Adjacency, corners: set<int>, lw: LoopWeights, i: int): (ws: seq<Write>)
    ensures OnRow(ws, i) && WeightSum(ws) == 1.0
  {
    if KeepsPosition(adj, corners, i) then [Set((i, i), 1.0)]
    else if RegularBoundary(adj, i) then BoundaryNodeWrites(i, adj.boundaryNeighbors[i])
    else InteriorWrites(i, adj.neighbors[i], lw.alpha(|adj.neighbors[i]|))
  }

  /** A boundary edge: both ends have boundary neighbours and the second is one of the first's. */
  predicate BoundaryEdge(adj: Adjacency, e: Segment) {
    var bn := adj.boundaryNeighbors;
    0 <= e.i < |bn| && 0 <= e.j < |bn| && |bn[e.i]| > 0 && |bn[e.j]| > 0 && e.j in bn[e.i]
  }

  /** Both ends of the edge have six neighbours. */
  predicate RegularEdge(adj: Adjacency, e: Segment) {
    |ListAt(adj.neighbors, e.i)| == 6 && |ListAt(adj.neighbors, e.j)| == 6
  }

  /** The two common neighbours of a regular edge: the neighbours of `e.i` just before and just after
      `e.j` in its sorted ring. */
  function Opposite(adj: Adjacency, e: Segment): (c: Key)
    requires RegularEdge(adj, e)
    ensures var n0 := ListAt(adj.neighbors, e.i);
      c.0 in n0 && c.1 in n0 && (e.j in n0 && Distinct(n0) ==> c.0 != e.j && c.1 != e.j && c.0 != c.1)
  {
    Around(ListAt(adj.neighbors, e.i), e.j)
  }

  /** No entry repeats. */
  predicate Distinct(s: seq<int>) {
    forall a, b :: 0 <= a < b < |s| ==> s[a] != s[b]
  }

  /** The entries of the six-ring `n0` on either side of `v`: two ring entries other than `v` and
      each other when `v` is in a ring without repeats. When `v` is missing, `find` gives -1 and the
      pair is `(n0[4], n0[0])`. */
  function Around(n0: seq<int>, v: int): (c: Key)
    requires |n0| == 6
    ensures c.0 in n0 && c.1 in n0
    ensures v in n0 && Distinct(n0) ==> c.0 != v && c.1 != v && c.0 != c.1
    ensures v !in n0 ==> c == (n0[4], n0[0])
  {
    var j := Find(n0, v);
    var before, after := (j - 1 + 6) % 6, (j + 1) % 6;
    assert j >= 0 ==> before != j && after != j && before != after;
    (n0[before], n0[after])
  }

  /** The regular edge rule: `set`s on both ends and both opposite nodes, whose weights sum to 1. */
  function RegularEdgeWrites(r: int, e: Segment, c: Key): (ws: seq<Write>)
    ensures |ws| == 4 && OnRow(ws, r) && WeightSum(ws) == 1.0
    ensures forall k :: 0 <= k < |ws| ==> ws[k].Set? && ws[k].key.1 in {e.i, e.j, c.0, c.1}
  {
    WeightSumFour(Set((r, e.i), 0.375), Set((r, c.0), 0.125), Set((r, e.j), 0.375), Set((r, c.1), 0.125));
    [Set((r, e.i), 0.375), Set((r, c.0), 0.125), Set((r, e.j), 0.375), Set((r, c.1), 0.125)]
  }

  /** Entry `j` of the ring term of the irregular rule: the `j`-th neighbour of `v` counted from the
      other end of the edge, with weight `new_loop_weight(|nv|, j)`. */
  function RingWrite(lw: LoopWeights, r: int, nv: seq<int>, start: int, factor: real, j: int): Write
    requires -1 <= start < |nv| && 0 <= j < |nv|
  {
    AddTo((r, nv[RingIndex(start, j, |nv|)]), factor * lw.weight(|nv|, j))
  }

  /** `(start + j) % n` for `-1 <= start < n` and `0 <= j < n`, written without a symbolic modulus. */
  function RingIndex(start: int, j: int, n: int): (k: int)
    requires -1 <= start < n && 0 <= j < n
    ensures 0 <= k < n
  {
    if start + j < 0 then start + j + n else if start + j < n then start + j else start + j - n
  }

  lemma RingIndexIsMod(start: int, j: int, n: int)
    requires -1 <= start < n && 0 <= j < n
    ensures RingIndex(start, j, n) == (start + j) % n
  {
  }

  /** The contribution of the irregular end `v` (ring `nv`, other end `other`) to fine row `r`. */
  function IrregularWrites(lw: LoopWeights, r: int, v: int, nv: seq<int>, other: int, factor: real): (ws: seq<Write>)
    ensures OnRow(ws, r) && |ws| == if |nv| == 6 then 0 else |nv| + 1
    ensures forall k :: 0 <= k < |ws| ==> ws[k].AddTo? && (ws[k].key.1 == v || ws[k].key.1 in nv)
  {
    if |nv| == 6 then [] else IrregularEnd(lw, r, v, nv, Find(nv, other), factor)
  }

  /** The irregular end's writes when its ring walk starts at index `start`: the `1 - beta` term on
      `v` itself, then the ring. */
  function IrregularEnd(lw: LoopWeights, r: int, v: int, nv: seq<int>, start: int, factor: real): (ws: seq<Write>)
    requires -1 <= start < |nv|
    ensures |ws| == |nv| + 1 && ws[0] == AddTo((r, v), factor * (1.0 - lw.beta(|nv|)))
    ensures forall j :: 0 <= j < |nv| ==> ws[j + 1] == RingWrite(lw, r, nv, start, factor, j)
    ensures OnRow(ws, r)
  {
    seq(|nv| + 1, k requires 0 <= k <= |nv| =>
      if k == 0 then AddTo((r, v), factor * (1.0 - lw.beta(|nv|))) else RingWrite(lw, r, nv, start, factor, k - 1))
  }

  /** The writes for segment `s`, whose fine node is `offset + s`. */
  function EdgeWrites(adj: Adjacency, lw: LoopWeights, s: nat): (ws: seq<Write>)
    requires s < |adj.segments|
    ensures OnRow(ws, adj.nodes + s)
    ensures BoundaryEdge(adj, adj.segments[s]) || RegularEdge(adj, adj.segments[s]) ==> WeightSum(ws) == 1.0
  {
    var r, e := adj.nodes + s, adj.segments[s];
    var n0, n1 := ListAt(adj.neighbors, e.i), ListAt(adj.neighbors, e.j);
    WeightSumTwo(Set((r, e.i), 0.5), Set((r, e.j), 0.5));
    if BoundaryEdge(adj, e) then [Set((r, e.i), 0.5), Set((r, e.j), 0.5)]
    else if RegularEdge(adj, e) then RegularEdgeWrites(r, e, Opposite(adj, e))
    else IrregularEdgeWrites(lw, r, e, n0, n1)
  }

  /** An edge with at least one irregular end: each irregular end contributes, at half strength
      when both are irregular. */
  function IrregularEdgeWrites(lw: LoopWeights, r: int, e: Segment, n0: seq<int>, n1: seq<int>): (ws: seq<Write>)
    ensures OnRow(ws, r)
  {
    var factor := if |n0| != 6 && |n1| != 6 then 0.5 else 1.0;
    var w0, w1 := IrregularWrites(lw, r, e.i, n0, e.j, factor), IrregularWrites(lw, r, e.j, n1, e.i, factor);
    assert forall k :: |w0| <= k < |w0| + |w1| ==> (w0 + w1)[k] == w1[k - |w0|];
    w0 + w1
  }

  /** The node loop's items. */
  function NodeRows(adj: Adjacency, corners: set<int>, lw: LoopWeights): int -> seq<Write> {
    i => NodeWrites(adj, corners, lw, i)
  }

  /** The edge loop's items. */
  function EdgeRows(adj: Adjacency, lw: LoopWeights): int -> seq<Write> {
    s => if 0 <= s < |adj.segments| then EdgeWrites(adj, lw, s) else []
  }

  /** Every write of the builder, in order: all node rows, then all edge rows. */
  function AllWrites(adj: Adjacency, corners: set<int>, lw: LoopWeights): seq<Write> {
    Concat(NodeRows(adj, corners, lw), adj.nodes) + Concat(EdgeRows(adj, lw), |adj.segments|)
  }

  /** The finished hashtable. */
  function LoopTable(adj: Adjacency, corners: set<int>, lw: LoopWeights): map<Key, real> {
    Apply(map[], AllWrites(adj, corners, lw))
  }

  /** Row `i < offset` of the table is exactly what node `i`'s rule writes into an empty row, and row
      `offset + s` is exactly what segment `s`'s rule writes; no other row has an entry. */
  lemma TableRows(adj: Adjacency, corners: set<int>, lw: LoopWeights, r: int)
    ensures Row(LoopTable(adj, corners, lw), r) ==
      if 0 <= r < adj.nodes then Apply(map[], NodeRows(adj, corners, lw)(r))
      else if adj.nodes <= r < adj.nodes + |adj.segments| then Apply(map[], EdgeRows(adj, lw)(r - adj.nodes))
      else map[]
  {
    NodeRowsAt(adj, corners, lw);
    EdgeRowsAt(adj, lw);
    TwoLoopRows(NodeRows(adj, corners, lw), adj.nodes, EdgeRows(adj, lw), |adj.segments|, r);
  }

  lemma NodeRowIs(adj: Adjacency, corners: set<int>, lw: LoopWeights, i: int)
    requires 0 <= i < adj.nodes
    ensures Row(LoopTable(adj, corners, lw), i) == Apply(map[], NodeWrites(adj, corners, lw, i))
  {
    TableRows(adj, corners, lw, i);
    assert NodeRows(adj, corners, lw)(i) == NodeWrites(adj, corners, lw, i);
  }

  lemma EdgeRowIs(adj: Adjacency, corners: set<int>, lw: LoopWeights, s: nat)
    requires s < |adj.segments|
    ensures Row(LoopTable(adj, corners, lw), adj.nodes + s) == Apply(map[], EdgeWrites(adj, lw, s))
  {
    NodeRowsAt(adj, corners, lw);
    EdgeRowsAt(adj, lw);
    EdgeRowsApply(adj, lw, s);
    SecondLoopRow(NodeRows(adj, corners, lw), adj.nodes, EdgeRows(adj, lw), |adj.segments|, s);
  }

  lemma EdgeRowsApply(adj: Adjacency, lw: LoopWeights, s: nat)
    requires s < |adj.segments|
    ensures EdgeRows(adj, lw)(s) == EdgeWrites(adj, lw, s)
  {
  }

  lemma NodeRowsAt(adj: Adjacency, corners: set<int>, lw: LoopWeights)
    ensures RowsAt(NodeRows(adj, corners, lw), 0, adj.nodes)
  {
  }

  lemma EdgeRowsAt(adj: Adjacency, lw: LoopWeights)
    ensures RowsAt(EdgeRows(adj, lw), adj.nodes, |adj.segments|)
  {
  }

  /** Rule for corners, isolated nodes and irregular boundary nodes: the identity row. */
  lemma KeptNodeRow(adj: Adjacency, corners: set<int>, lw: LoopWeights, i: int)
    requires 0 <= i < adj.nodes && KeepsPosition(adj, corners, i)
    ensures Row(LoopTable(adj, corners, lw), i) == map[(i, i) := 1.0]
  {
    NodeRowIs(adj, corners, lw, i);
    assert NodeWrites(adj, corners, lw, i) == [Set((i, i), 1.0)];
    ApplyOne(map[], Set((i, i), 1.0));
  }

  /** Rule for a regular boundary node: 3/4 on itself and 1/8 on each boundary neighbour. */
  lemma BoundaryNodeRow(adj: Adjacency, corners: set<int>, lw: LoopWeights, i: int)
    requires 0 <= i < adj.nodes && !KeepsPosition(adj, corners, i) && RegularBoundary(adj, i)
    ensures var b := adj.boundaryNeighbors[i];
      Row(LoopTable(adj, corners, lw), i) == map[(i, i) := 0.75][(i, b[0]) := 0.125][(i, b[1]) := 0.125]
  {
    NodeRowIs(adj, corners, lw, i);
    var b := adj.boundaryNeighbors[i];
    assert NodeWrites(adj, corners, lw, i) == BoundaryNodeWrites(i, b);
    ApplyThree(map[], Set((i, i), 0.75), Set((i, b[0]), 0.125), Set((i, b[1]), 0.125));
  }

  /** Rule for an interior node of degree `m`: `alpha(m)` on itself and `(1 - alpha(m)) / m` on each
      neighbour (a later `set` on the same key wins). */
  lemma InteriorNodeRow(adj: Adjacency, corners: set<int>, lw: LoopWeights, i: int)
    requires 0 <= i < adj.nodes && !KeepsPosition(adj, corners, i) && !RegularBoundary(adj, i)
    ensures var ni, M := adj.neighbors[i], Row(LoopTable(adj, corners, lw), i);
      var alpha := lw.alpha(|ni|);
      M.Keys == {(i, i)} + (set j | j in ni :: (i, j)) &&
      (forall j :: j in ni ==> M[(i, j)] == (1.0 - alpha) / (|ni| as real)) &&
      (i !in ni ==> M[(i, i)] == alpha)
  {
    NodeRowIs(adj, corners, lw, i);
    InteriorNodeApply(adj, corners, lw, i);
  }

  lemma InteriorNodeApply(adj: Adjacency, corners: set<int>, lw: LoopWeights, i: int)
    requires 0 <= i < adj.nodes && !KeepsPosition(adj, corners, i) && !RegularBoundary(adj, i)
    ensures var ni, M := adj.neighbors[i], Apply(map[], NodeWrites(adj, corners, lw, i));
      var alpha := lw.alpha(|ni|);
      M.Keys == {(i, i)} + (set j | j in ni :: (i, j)) &&
      (forall j :: j in ni ==> M[(i, j)] == (1.0 - alpha) / (|ni| as real)) &&
      (i !in ni ==> M[(i, i)] == alpha)
  {
    var ni := adj.neighbors[i];
    assert NodeWrites(adj, corners, lw, i) == InteriorWrites(i, ni, lw.alpha(|ni|));
    InteriorApply(i, ni, lw.alpha(|ni|));
  }

  lemma InteriorApply(i: int, ni: seq<int>, alpha: real)
    requires |ni| > 0
    ensures var M := Apply(map[], InteriorWrites(i, ni, alpha));
      M.Keys == {(i, i)} + (set j | j in ni :: (i, j)) &&
      (forall j :: j in ni ==> M[(i, j)] == (1.0 - alpha) / (|ni| as real)) &&
      (i !in ni ==> M[(i, i)] == alpha)
  {
    var ws := InteriorWrites(i, ni, alpha);
    InteriorWritesAt(i, ni, alpha);
    InteriorPrefix(i, ni, alpha, (1.0 - alpha) / (|ni| as real), ws, |ni|);
    assert ni[..|ni|] == ni;
    ApplyAll(map[], ws);
  }

  /** The row of node `i` once the diagonal and the neighbours `nis` have been set. */
  ghost predicate InteriorState(M: map<Key, real>, i: int, nis: seq<int>, alpha: real, other: real) {
    M.Keys == {(i, i)} + (set j | j in nis :: (i, j)) &&
    (forall j :: j in nis ==> M[(i, j)] == other) &&
    (i !in nis ==> M[(i, i)] == alpha)
  }

  /** Setting one more neighbour entry. */
  lemma InteriorStateStep(M: map<Key, real>, i: int, nis: seq<int>, j: int, alpha: real, other: real)
    requires InteriorState(M, i, nis, alpha, other)
    ensures InteriorState(M[(i, j) := other], i, nis + [j], alpha, other)
  {
    assert (set x | x in nis + [j] :: (i, x)) == (set x | x in nis :: (i, x)) + {(i, j)};
  }

  /** After the first `m` neighbour writes of the interior rule. */
  lemma {:induction false} InteriorPrefix(i: int, ni: seq<int>, alpha: real, other: real, ws: seq<Write>, m: nat)
    requires m <= |ni| && |ws| == |ni| + 1 && ws[0] == Set((i, i), alpha)
    requires forall k :: 0 <= k < |ni| ==> ws[k + 1] == Set((i, ni[k]), other)
    ensures InteriorState(Apply(map[], ws[..m + 1]), i, ni[..m], alpha, other)
    decreases m
  {
    ApplyStep(map[], ws, m);
    if m == 0 {
      ApplyNone(map[], ws);
      assert (set x | x in ni[..0] :: (i, x)) == {};
    } else {
      InteriorPrefix(i, ni, alpha, other, ws, m - 1);
      var j := ni[m - 1];
      assert ws[m] == Set((i, j), other);
      assert ni[..m] == ni[..m - 1] + [j];
      InteriorStateStep(Apply(map[], ws[..m]), i, ni[..m - 1], j, alpha, other);
    }
  }

  /** Rule for a boundary edge: 1/2 on each end (the linear midpoint). */
  lemma BoundaryEdgeRow(adj: Adjacency, corners: set<int>, lw: LoopWeights, s: nat)
    requires s < |adj.segments| && BoundaryEdge(adj, adj.segments[s])
    ensures var r, e := adj.nodes + s, adj.segments[s];
      Row(LoopTable(adj, corners, lw), r) == map[(r, e.i) := 0.5][(r, e.j) := 0.5]
  {
    EdgeRowIs(adj, corners, lw, s);
    BoundaryEdgeApply(adj, lw, s);
  }

  lemma BoundaryEdgeApply(adj: Adjacency, lw: LoopWeights, s: nat)
    requires s < |adj.segments| && BoundaryEdge(adj, adj.segments[s])
    ensures var r, e := adj.nodes + s, adj.segments[s];
      Apply(map[], EdgeWrites(adj, lw, s)) == map[(r, e.i) := 0.5][(r, e.j) := 0.5]
  {
    var r, e := adj.nodes + s, adj.segments[s];
    assert EdgeWrites(adj, lw, s) == [Set((r, e.i), 0.5), Set((r, e.j), 0.5)];
    ApplyTwo(map[], Set((r, e.i), 0.5), Set((r, e.j), 0.5));
  }

  /** Rule for an edge between two regular nodes: 3/8 on each end and 1/8 on each of the two
      opposite neighbours. */
  lemma RegularEdgeRow(adj: Adjacency, corners: set<int>, lw: LoopWeights, s: nat)
    requires s < |adj.segments|
    requires !BoundaryEdge(adj, adj.segments[s]) && RegularEdge(adj, adj.segments[s])
    ensures var r, e := adj.nodes + s, adj.segments[s];
      var c := Opposite(adj, e);
      Row(LoopTable(adj, corners, lw), r) == map[(r, e.i) := 0.375][(r, c.0) := 0.125][(r, e.j) := 0.375][(r, c.1) := 0.125]
  {
    EdgeRowIs(adj, corners, lw, s);
    RegularEdgeApply(adj, lw, s);
  }

  lemma RegularEdgeApply(adj: Adjacency, lw: LoopWeights, s: nat)
    requires s < |adj.segments|
    requires !BoundaryEdge(adj, adj.segments[s]) && RegularEdge(adj, adj.segments[s])
    ensures var r, e := adj.nodes + s, adj.segments[s];
      var c := Opposite(adj, e);
      Apply(map[], EdgeWrites(adj, lw, s)) == map[(r, e.i) := 0.375][(r, c.0) := 0.125][(r, e.j) := 0.375][(r, c.1) := 0.125]
  {
    var r, e := adj.nodes + s, adj.segments[s];
    var c := Opposite(adj, e);
    assert EdgeWrites(adj, lw, s) == RegularEdgeWrites(r, e, c);
    ApplyFour(map[], Set((r, e.i), 0.375), Set((r, c.0), 0.125), Set((r, e.j), 0.375), Set((r, c.1), 0.125));
  }

  /** Every adjacency list names coarse nodes. */
  ghost predicate AdjacencyInRange(adj: Adjacency) {
    (forall s :: 0 <= s < |adj.segments| ==> 0 <= adj.segments[s].i < adj.nodes && 0 <= adj.segments[s].j < adj.nodes) &&
    (forall v, k :: 0 <= v < |adj.neighbors| && 0 <= k < |adj.neighbors[v]| ==> 0 <= adj.neighbors[v][k] < adj.nodes) &&
    (forall v, k :: 0 <= v < |adj.boundaryNeighbors| && 0 <= k < |adj.boundaryNeighbors[v]| ==>
      0 <= adj.boundaryNeighbors[v][k] < adj.nodes)
  }

  lemma NodeWritesInShape(adj: Adjacency, corners: set<int>, lw: LoopWeights, i: int)
    requires AdjacencyInRange(adj) && 0 <= i < adj.nodes
    ensures WritesInShape(NodeWrites(adj, corners, lw, i), adj.nodes + |adj.segments|, adj.nodes)
  {
  }

  lemma EdgeWritesInShape(adj: Adjacency, lw: LoopWeights, s: nat)
    requires AdjacencyInRange(adj) && s < |adj.segments|
    ensures WritesInShape(EdgeWrites(adj, lw, s), adj.nodes + |adj.segments|, adj.nodes)
  {
    var e := adj.segments[s];
    var n0, n1 := ListAt(adj.neighbors, e.i), ListAt(adj.neighbors, e.j);
    assert forall j :: 0 <= j < |n0| ==> 0 <= n0[j] < adj.nodes;
    assert forall j :: 0 <= j < |n1| ==> 0 <= n1[j] < adj.nodes;
  }

  /** The table has shape `(offset + segments) x offset`: every entry is in a fine-node row and a
      coarse-node column, whenever every adjacency list names coarse nodes. */
  lemma TableShape(adj: Adjacency, corners: set<int>, lw: LoopWeights)
    requires AdjacencyInRange(adj)
    ensures forall k :: k in LoopTable(adj, corners, lw) ==> InShape(k, adj.nodes + |adj.segments|, adj.nodes)
  {
    var R, C := adj.nodes + |adj.segments|, adj.nodes;
    var nr, er := NodeRows(adj, corners, lw), EdgeRows(adj, lw);
    forall i | 0 <= i < adj.nodes ensures WritesInShape(nr(i), R, C) {
      NodeWritesInShape(adj, corners, lw, i);
    }
    forall s | 0 <= s < |adj.segments| ensures WritesInShape(er(s), R, C) {
      EdgeWritesInShape(adj, lw, s);
    }
    ConcatInShape(nr, adj.nodes, R, C);
    ConcatInShape(er, |adj.segments|, R, C);
    var nw, ew := Concat(nr, adj.nodes), Concat(er, |adj.segments|);
    ApplyInShape(map[], nw, R, C);
    ApplyConcat(map[], nw, ew);
    ApplyInShape(Apply(map[], nw), ew, R, C);
  }

  // The builder: the loops of `loop_matrix`, each proved to perform its rule's writes.

  method NodeRow(adj: Adjacency, corners: set<int>, lw: LoopWeights, A: map<Key, real>, i: int) returns (B: map<Key, real>)
    ensures B == Apply(A, NodeWrites(adj, corners, lw, i))
  {
    var nb, bn := adj.neighbors, adj.boundaryNeighbors;
    if !(0 <= i < |nb|) || |nb[i]| == 0 || i in corners || (0 <= i < |bn| && |bn[i]| != 0 && |bn[i]| != 2) {
      B := A[(i, i) := 1.0];
      ApplyOne(A, Set((i, i), 1.0));
    } else if 0 <= i < |bn| && |bn[i]| == 2 {
      B := BoundaryRow(A, i, bn[i]);
    } else {
      B := InteriorRow(A, i, nb[i], lw.alpha(|nb[i]|));
    }
  }

  method BoundaryRow(A: map<Key, real>, i: int, b: seq<int>) returns (B: map<Key, real>)
    requires |b| == 2
    ensures B == Apply(A, BoundaryNodeWrites(i, b))
  {
    ghost var ws := BoundaryNodeWrites(i, b);
    B := A[(i, i) := 0.75];
    ApplyNone(A, ws);
    ApplyStep(A, ws, 0);
    for a := 0 to 2
      invariant B == Apply(A, ws[..a + 1])
    {
      B := B[(i, b[a]) := 0.125];
      ApplyStep(A, ws, a + 1);
    }
    ApplyAll(A, ws);
  }

  method InteriorRow(A: map<Key, real>, i: int, ni: seq<int>, alpha: real) returns (B: map<Key, real>)
    requires |ni| > 0
    ensures B == Apply(A, InteriorWrites(i, ni, alpha))
  {
    ghost var ws := InteriorWrites(i, ni, alpha);
    InteriorWritesAt(i, ni, alpha);
    B := A[(i, i) := alpha];
    ApplyNone(A, ws);
    ApplyStep(A, ws, 0);
    var other := (1.0 - alpha) / (|ni| as real);
    for j := 0 to |ni|
      invariant B == Apply(A, ws[..j + 1])
    {
      B := B[(i, ni[j]) := other];
      ApplyStep(A, ws, j + 1);
    }
    ApplyAll(A, ws);
  }

  /** The ring term of one irregular end. */
  method IrregularRow(lw: LoopWeights, A: map<Key, real>, r: int, v: int, nv: seq<int>, other: int, factor: real)
    returns (B: map<Key, real>)
    requires |nv| != 6
    ensures B == Apply(A, IrregularWrites(lw, r, v, nv, other, factor))
  {
    var start := FindIndex(nv, other);
    B := IrregularEndRow(lw, A, r, v, nv, start, factor);
  }

  method IrregularEndRow(lw: LoopWeights, A: map<Key, real>, r: int, v: int, nv: seq<int>, start: int, factor: real)
    returns (B: map<Key, real>)
    requires -1 <= start < |nv|
    ensures B == Apply(A, IrregularEnd(lw, r, v, nv, start, factor))
  {
    ghost var ws := IrregularEnd(lw, r, v, nv, start, factor);
    ApplyNone(A, ws);
    AddStep(A, ws, 0, A, (r, v), factor * (1.0 - lw.beta(|nv|)));
    B := A[(r, v) := Get(A, (r, v)) + factor * (1.0 - lw.beta(|nv|))];
    B := RingRow(lw, A, ws, B, r, nv, start, factor);
  }

  /** The ring loop of the irregular rule, continuing the writes `ws` after their first. */
  method RingRow(lw: LoopWeights, ghost A: map<Key, real>, ghost ws: seq<Write>, B0: map<Key, real>,
                 r: int, nv: seq<int>, start: int, factor: real) returns (B: map<Key, real>)
    requires -1 <= start < |nv| && |ws| == |nv| + 1 && B0 == Apply(A, ws[..1])
    requires forall j :: 0 <= j < |nv| ==> ws[j + 1] == RingWrite(lw, r, nv, start, factor, j)
    ensures B == Apply(A, ws)
  {
    B := B0;
    for j := 0 to |nv|
      invariant B == Apply(A, ws[..j + 1])
    {
      var key := (r, nv[(start + j) % |nv|]);
      RingIndexIsMod(start, j, |nv|);
      assert ws[j + 1] == RingWrite(lw, r, nv, start, factor, j) == AddTo(key, factor * lw.weight(|nv|, j));
      AddStep(A, ws, j + 1, B, key, factor * lw.weight(|nv|, j));
      B := B[key := Get(B, key) + factor * lw.weight(|nv|, j)];
    }
    ApplyAll(A, ws);
  }

  method EdgeRow(adj: Adjacency, lw: LoopWeights, A: map<Key, real>, s: nat) returns (B: map<Key, real>)
    requires s < |adj.segments|
    ensures B == Apply(A, EdgeWrites(adj, lw, s))
  {
    var r, e := adj.nodes + s, adj.segments[s];
    var bn := adj.boundaryNeighbors;
    var n0, n1 := ListAt(adj.neighbors, e.i), ListAt(adj.neighbors, e.j);
    if 0 <= e.i < |bn| && 0 <= e.j < |bn| && |bn[e.i]| > 0 && |bn[e.j]| > 0 && e.j in bn[e.i] {
      B := MidpointRow(A, r, e);
    } else if |n0| == 6 && |n1| == 6 {
      B := RegularRow(A, r, e, n0);
    } else {
      B := IrregularEdgeRow(lw, A, r, e, n0, n1);
    }
  }

  method MidpointRow(A: map<Key, real>, r: int, e: Segment) returns (B: map<Key, real>)
    ensures B == Apply(A, [Set((r, e.i), 0.5), Set((r, e.j), 0.5)])
  {
    var ends := [e.i, e.j];
    ghost var ws := [Set((r, e.i), 0.5), Set((r, e.j), 0.5)];
    B := A;
    ApplyNone(A, ws);
    for a := 0 to 2
      invariant B == Apply(A, ws[..a])
    {
      B := B[(r, ends[a]) := 0.5];
      ApplyStep(A, ws, a);
    }
    ApplyAll(A, ws);
  }

  method RegularRow(A: map<Key, real>, r: int, e: Segment, n0: seq<int>) returns (B: map<Key, real>)
    requires |n0| == 6
    ensures B == Apply(A, RegularEdgeWrites(r, e, Around(n0, e.j)))
  {
    var ends := [e.i, e.j];
    var j := FindIndex(n0, e.j);
    var c := [n0[(j - 1 + |n0|) % |n0|], n0[(j + 1) % |n0|]];
    ghost var ws := RegularEdgeWrites(r, e, Around(n0, e.j));
    B := A;
    ApplyNone(A, ws);
    for a := 0 to 2
      invariant B == Apply(A, ws[..2 * a])
    {
      B := B[(r, ends[a]) := 0.375];
      ApplyStep(A, ws, 2 * a);
      B := B[(r, c[a]) := 0.125];
      ApplyStep(A, ws, 2 * a + 1);
    }
    ApplyAll(A, ws);
  }

  method IrregularEdgeRow(lw: LoopWeights, A: map<Key, real>, r: int, e: Segment, n0: seq<int>, n1: seq<int>)
    returns (B: map<Key, real>)
    ensures B == Apply(A, IrregularEdgeWrites(lw, r, e, n0, n1))
  {
    var factor := if |n0| != 6 && |n1| != 6 then 0.5 else 1.0;
    ghost var w0 := IrregularWrites(lw, r, e.i, n0, e.j, factor);
    ghost var w1 := IrregularWrites(lw, r, e.j, n1, e.i, factor);
    B := A;
    if |n0| != 6 {
      B := IrregularRow(lw, B, r, e.i, n0, e.j, factor);
    }
    assert B == Apply(A, w0);
    if |n1| != 6 {
      B := IrregularRow(lw, B, r, e.j, n1, e.i, factor);
    }
    ApplyConcat(A, w0, w1);
  }

  /** Builds the hashtable: the node loop, then the edge loop. */
  method BuildTable(adj: Adjacency, corners: set<int>, lw: LoopWeights) returns (A: map<Key, real>)
    ensures A == LoopTable(adj, corners, lw)
  {
    A := NodeLoop(adj, corners, lw);
    A := EdgeLoop(adj, lw, A);
    ApplyConcat(map[], Concat(NodeRows(adj, corners, lw), adj.nodes), Concat(EdgeRows(adj, lw), |adj.segments|));
  }

  method NodeLoop(adj: Adjacency, corners: set<int>, lw: LoopWeights) returns (A: map<Key, real>)
    ensures A == Apply(map[], Concat(NodeRows(adj, corners, lw), adj.nodes))
  {
    ghost var nr := NodeRows(adj, corners, lw);
    A := map[];
    for i := 0 to adj.nodes
      invariant A == Apply(map[], Concat(nr, i))
    {
      assert nr(i) == NodeWrites(adj, corners, lw, i);
      ApplyConcat(map[], Concat(nr, i), nr(i));
      A := NodeRow(adj, corners, lw, A, i);
    }
  }

  method EdgeLoop(adj: Adjacency, lw: LoopWeights, A0: map<Key, real>) returns (A: map<Key, real>)
    ensures A == Apply(A0, Concat(EdgeRows(adj, lw), |adj.segments|))
  {
    ghost var er := EdgeRows(adj, lw);
    A := A0;
    for s := 0 to |adj.segments|
      invariant A == Apply(A0, Concat(er, s))
    {
      ghost var ws := er(s);
      ApplyConcat(A0, Concat(er, s), ws);
      A := EdgeRow(adj, lw, A, s);
      assert A == Apply(Apply(A0, Concat(er, s)), ws);
    }
  }
}
