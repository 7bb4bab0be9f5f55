// `TriangleSubdivision`: the fine mesh of a coarse triangle mesh, linear subdivision of per-node values
// (one midpoint per segment), and Loop subdivision through a weight matrix that is built on first use
// and cached. The sparse-matrix product is the mathematical one.

module Subdivision {
  import opened FineMesh
  import opened Hashtable
  import opened LoopMatrix

  datatype Option<T> = None | Some(value: T)

  /** Every segment joins two of the first `n` nodes. */
  ghost predicate SegmentsIn(segments: seq<Segment>, n: int) {
    forall s :: 0 <= s < |segments| ==> 0 <= segments[s].i < n && 0 <= segments[s].j < n
  }

  /** The average of a segment's two end values. */
  function Midpoint(X: seq<real>, e: Segment): real
    requires 0 <= e.i < |X| && 0 <= e.j < |X|
  {
    0.5 * (X[e.i] + X[e.j])
  }

  /** Linear subdivision of per-node values: the coarse values, followed at `offset + s` by the
      midpoint of segment `s`. */
  function LinearSubdivided(X: seq<real>, segments: seq<Segment>): (f: seq<real>)
    requires SegmentsIn(segments, |X|)
    ensures |f| == |X| + |segments|
    ensures f[..|X|] == X
    ensures forall s :: 0 <= s < |segments| ==> f[|X| + s] == Midpoint(X, segments[s])
  {
    X + Midpoints(X, segments)
  }

  /** The fine values of the edge nodes: the midpoint of every segment, in segment order. */
  function Midpoints(X: seq<real>, segments: seq<Segment>): seq<real>
    requires SegmentsIn(segments, |X|)
  {
    seq(|segments|, s requires 0 <= s < |segments| => Midpoint(X, segments[s]))
  }

  /** `v` lies between `x` and `y`, in either order. */
  predicate Between(v: real, x: real, y: real) {
    (x <= v <= y) || (y <= v <= x)
  }

  /** Linear subdivision creates no new extremes: the value at every edge node lies between the values
      at its segment's two ends. */
  lemma LinearSubdividedBetween(X: seq<real>, segments: seq<Segment>)
    requires SegmentsIn(segments, |X|)
    ensures var f := LinearSubdivided(X, segments);
      forall s :: 0 <= s < |segments| ==> Between(f[|X| + s], X[segments[s].i], X[segments[s].j])
  {
  }

  /** `g` applied to every value. */
  function MapValues(X: seq<real>, g: real -> real): (Y: seq<real>)
    ensures |Y| == |X| && forall i :: 0 <= i < |X| ==> Y[i] == g(X[i])
  {
    seq(|X|, i requires 0 <= i < |X| => g(X[i]))
  }

  /** `g` maps the average of two values to the average of their images. */
  ghost predicate PreservesMidpoints(g: real -> real) {
    forall x, y :: g(0.5 * (x + y)) == 0.5 * (g(x) + g(y))
  }

  /** Linear subdivision commutes with every map of the values that preserves midpoints. */
  lemma LinearSubdividedMap(X: seq<real>, segments: seq<Segment>, g: real -> real)
    requires SegmentsIn(segments, |X|) && PreservesMidpoints(g)
    ensures LinearSubdivided(MapValues(X, g), segments) == MapValues(LinearSubdivided(X, segments), g)
  {
    var Y, F := MapValues(X, g), LinearSubdivided(X, segments);
    var L, R := LinearSubdivided(Y, segments), MapValues(F, g);
    forall k | 0 <= k < |L| ensures L[k] == R[k] {
      if k < |X| {
        assert L[k] == L[..|X|][k] == Y[k];
        assert F[k] == F[..|X|][k] == X[k];
      } else {
        var e := segments[k - |X|];
        assert L[|X| + (k - |X|)] == Midpoint(Y, e);
        assert F[|X| + (k - |X|)] == Midpoint(X, e);
      }
    }
  }

  /** `a * x + b`. */
  function AffineMap(a: real, b: real): real -> real {
    x => a * x + b
  }

  lemma AffinePreservesMidpoints(a: real, b: real)
    ensures PreservesMidpoints(AffineMap(a, b))
  {
    var g := AffineMap(a, b);
    forall x, y ensures g(0.5 * (x + y)) == 0.5 * (g(x) + g(y)) {
      assert g(0.5 * (x + y)) == a * (0.5 * (x + y)) + b && g(x) == a * x + b && g(y) == a * y + b;
      MidpointAffine(x, y, a, b);
    }
  }

  /** Linear subdivision commutes with affine maps of the values: subdividing `a * X + b` gives
      `a * (subdivided X) + b`. In particular constant values stay constant. */
  lemma LinearSubdividedAffine(X: seq<real>, segments: seq<Segment>, a: real, b: real)
    requires SegmentsIn(segments, |X|)
    ensures LinearSubdivided(MapValues(X, AffineMap(a, b)), segments) ==
      MapValues(LinearSubdivided(X, segments), AffineMap(a, b))
  {
    AffinePreservesMidpoints(a, b);
    LinearSubdividedMap(X, segments, AffineMap(a, b));
  }

  lemma MidpointAffine(x: real, y: real, a: real, b: real)
    ensures a * (0.5 * (x + y)) + b == 0.5 * ((a * x + b) + (a * y + b))
  {
  }

  /** Column `a` of a two-dimensional array. */
  function Column(X: array2<real>, a: int): (c: seq<real>)
    requires 0 <= a < X.Length1
    reads X
  {
    seq(X.Length0, i requires 0 <= i < X.Length0 reads X => X[i, a])
  }

  /** `SparseMatrix(A, shape)`: the entries of a hashtable and the matrix shape. */
  datatype SparseMatrix = SparseMatrix(entries: map<Key, real>, rows: nat, cols: nat)

  /** The Loop subdivision matrix: the weight table with shape `(offset + segments) x offset`. */
  function LoopSparse(adj: Adjacency, corners: set<int>, lw: LoopWeights): SparseMatrix {
    SparseMatrix(LoopTable(adj, corners, lw), adj.nodes + |adj.segments|, adj.nodes)
  }

  /** Every entry of the Loop matrix lies inside its shape. */
  lemma LoopSparseShape(adj: Adjacency, corners: set<int>, lw: LoopWeights)
    requires AdjacencyInRange(adj)
    ensures var M := LoopSparse(adj, corners, lw);
      M.rows == adj.nodes + |adj.segments| && M.cols == adj.nodes &&
      forall k :: k in M.entries ==> 0 <= k.0 < M.rows && 0 <= k.1 < M.cols
  {
    TableShape(adj, corners, lw);
  }

  /** `sum_{c < n} A[(r, c)] * X[c]`, with missing entries read as 0. */
  function RowDot(A: map<Key, real>, r: int, X: seq<real>, n: nat): real
    requires n <= |X|
    decreases n
  {
    if n == 0 then 0.0 else RowDot(A, r, X, n - 1) + Get(A, (r, n - 1)) * X[n - 1]
  }

  /** Entry `r` of the product of the table `A` (over `n` columns) with `X`: row `r` of `A` dotted
      with `X`. */
  function Entry(A: map<Key, real>, r: int, X: seq<real>, n: nat): real
    requires n <= |X|
  {
    RowDot(Row(A, r), r, X, n)
  }

  /** The product `M X` that `SparseMatrix::multiply` computes. */
  function MatVec(M: SparseMatrix, X: seq<real>): (y: seq<real>)
    requires |X| == M.cols
    ensures |y| == M.rows
  {
    seq(M.rows, r => Entry(M.entries, r, X, M.cols))
  }

  /** Entry `r` of a product is the dot product of the whole table with `X` along row `r`. */
  lemma {:induction false} RowDotRow(A: map<Key, real>, r: int, X: seq<real>, n: nat)
    requires n <= |X|
    ensures Entry(A, r, X, n) == RowDot(A, r, X, n)
    decreases n
  {
    if n > 0 {
      RowDotRow(A, r, X, n - 1);
      assert Get(Row(A, r), (r, n - 1)) == Get(A, (r, n - 1));
    }
  }

  lemma {:induction false} RowDotEmpty(r: int, X: seq<real>, n: nat)
    requires n <= |X|
    ensures RowDot(map[], r, X, n) == 0.0
    decreases n
  {
    if n > 0 {
      RowDotEmpty(r, X, n - 1);
    }
  }

  /** A new entry `u` in column `c` of row `r` adds `u * X[c]` to the dot product (when `c < n`). */
  lemma {:induction false} RowDotUpdate(A: map<Key, real>, r: int, c: int, u: real, X: seq<real>, n: nat)
    requires 0 <= c && (r, c) !in A && n <= |X|
    ensures RowDot(A[(r, c) := u], r, X, n) == RowDot(A, r, X, n) + (if c < n then u * X[c] else 0.0)
    decreases n
  {
    if n > 0 {
      RowDotUpdate(A, r, c, u, X, n - 1);
    }
  }

  /** A row whose only entry is `u` in column `c` picks `u * X[c]`. */
  lemma EntryOne(A: map<Key, real>, r: int, c: int, X: seq<real>, n: nat)
    requires 0 <= c < n <= |X| && Row(A, r) == map[(r, c) := 1.0]
    ensures Entry(A, r, X, n) == X[c]
  {
    RowDotEmpty(r, X, n);
    RowDotUpdate(map[], r, c, 1.0, X, n);
  }

  /** A row with `1/2` in two distinct columns averages the two values. */
  lemma EntryHalves(A: map<Key, real>, r: int, c: int, d: int, X: seq<real>, n: nat)
    requires 0 <= c < n && 0 <= d < n && c != d && n <= |X|
    requires Row(A, r) == map[(r, c) := 0.5][(r, d) := 0.5]
    ensures Entry(A, r, X, n) == 0.5 * (X[c] + X[d])
  {
    RowDotEmpty(r, X, n);
    RowDotUpdate(map[], r, c, 0.5, X, n);
    RowDotUpdate(map[(r, c) := 0.5], r, d, 0.5, X, n);
  }

  /** A row with `3/8` in columns `c0` and `c2` and `1/8` in columns `c1` and `c3`, all distinct. */
  lemma EntryStencil(A: map<Key, real>, r: int, c0: int, c1: int, c2: int, c3: int, X: seq<real>, n: nat)
    requires 0 <= c0 < n && 0 <= c1 < n && 0 <= c2 < n && 0 <= c3 < n && n <= |X|
    requires c0 != c1 && c0 != c2 && c0 != c3 && c1 != c2 && c1 != c3 && c2 != c3
    requires Row(A, r) == map[(r, c0) := 0.375][(r, c1) := 0.125][(r, c2) := 0.375][(r, c3) := 0.125]
    ensures Entry(A, r, X, n) == 0.375 * (X[c0] + X[c2]) + 0.125 * (X[c1] + X[c3])
  {
    var R1 := map[(r, c0) := 0.375];
    var R2 := R1[(r, c1) := 0.125];
    var R3 := R2[(r, c2) := 0.375];
    RowDotEmpty(r, X, n);
    RowDotUpdate(map[], r, c0, 0.375, X, n);
    RowDotUpdate(R1, r, c1, 0.125, X, n);
    RowDotUpdate(R2, r, c2, 0.375, X, n);
    RowDotUpdate(R3, r, c3, 0.125, X, n);
  }

  /** Loop subdivision interpolates at corners, isolated nodes and irregular boundary nodes: entry `i`
      of the product of the Loop table with the coarse values is the coarse value, as in linear
      subdivision. */
  lemma LoopKeepsNode(adj: Adjacency, corners: set<int>, lw: LoopWeights, X: seq<real>, i: int)
    requires |X| == adj.nodes && SegmentsIn(adj.segments, adj.nodes)
    requires 0 <= i < adj.nodes && KeepsPosition(adj, corners, i)
    ensures Entry(LoopTable(adj, corners, lw), i, X, adj.nodes) == X[i] == LinearSubdivided(X, adj.segments)[i]
  {
    KeptNodeRow(adj, corners, lw, i);
    EntryOne(LoopTable(adj, corners, lw), i, i, X, adj.nodes);
    assert LinearSubdivided(X, adj.segments)[i] == LinearSubdivided(X, adj.segments)[..|X|][i];
  }

  /** On a boundary edge Loop subdivision agrees with linear subdivision: the fine node is the
      midpoint of the segment's two ends. */
  lemma LoopBoundaryEdge(adj: Adjacency, corners: set<int>, lw: LoopWeights, X: seq<real>, s: nat)
    requires |X| == adj.nodes && SegmentsIn(adj.segments, adj.nodes)
    requires s < |adj.segments| && BoundaryEdge(adj, adj.segments[s])
    requires adj.segments[s].i != adj.segments[s].j
    ensures Entry(LoopTable(adj, corners, lw), adj.nodes + s, X, adj.nodes) ==
      Midpoint(X, adj.segments[s]) == LinearSubdivided(X, adj.segments)[adj.nodes + s]
  {
    BoundaryEdgeRow(adj, corners, lw, s);
    MidpointEntry(LoopTable(adj, corners, lw), adj, X, s);
  }

  /** `EntryHalves` for the row of segment `s`, stated independently of how the table was built. */
  lemma MidpointEntry(A: map<Key, real>, adj: Adjacency, X: seq<real>, s: nat)
    requires |X| == adj.nodes && SegmentsIn(adj.segments, adj.nodes)
    requires s < |adj.segments| && adj.segments[s].i != adj.segments[s].j
    requires var r, e := adj.nodes + s, adj.segments[s]; Row(A, r) == map[(r, e.i) := 0.5][(r, e.j) := 0.5]
    ensures Entry(A, adj.nodes + s, X, adj.nodes) ==
      Midpoint(X, adj.segments[s]) == LinearSubdivided(X, adj.segments)[adj.nodes + s]
  {
    var e := adj.segments[s];
    EntryHalves(A, adj.nodes + s, e.i, e.j, X, adj.nodes);
  }

  /** On an edge between two regular nodes whose two ends and two opposite neighbours are four
      different coarse nodes, the fine value is `3/8` of each end plus `1/8` of each opposite node. */
  lemma LoopRegularEdge(adj: Adjacency, corners: set<int>, lw: LoopWeights, X: seq<real>, s: nat)
    requires |X| == adj.nodes && AdjacencyInRange(adj)
    requires s < |adj.segments|
    requires !BoundaryEdge(adj, adj.segments[s]) && RegularEdge(adj, adj.segments[s])
    requires var e, c := adj.segments[s], Opposite(adj, adj.segments[s]);
      e.i != e.j && e.i != c.0 && e.i != c.1 && e.j != c.0 && e.j != c.1 && c.0 != c.1
    ensures var e, c := adj.segments[s], Opposite(adj, adj.segments[s]);
      0 <= c.0 < adj.nodes && 0 <= c.1 < adj.nodes &&
      Entry(LoopTable(adj, corners, lw), adj.nodes + s, X, adj.nodes) ==
        0.375 * (X[e.i] + X[e.j]) + 0.125 * (X[c.0] + X[c.1])
  {
    RegularEdgeRow(adj, corners, lw, s);
    RegularStencilEntry(LoopTable(adj, corners, lw), adj, X, s);
  }

  /** `EntryStencil` for the row of edge `s`, stated independently of how the table was built. */
  lemma RegularStencilEntry(A: map<Key, real>, adj: Adjacency, X: seq<real>, s: nat)
    requires |X| == adj.nodes && AdjacencyInRange(adj)
    requires s < |adj.segments| && RegularEdge(adj, adj.segments[s])
    requires var e, c := adj.segments[s], Opposite(adj, adj.segments[s]);
      e.i != e.j && e.i != c.0 && e.i != c.1 && e.j != c.0 && e.j != c.1 && c.0 != c.1
    requires var r, e := adj.nodes + s, adj.segments[s];
      var c := Opposite(adj, e);
      Row(A, r) == map[(r, e.i) := 0.375][(r, c.0) := 0.125][(r, e.j) := 0.375][(r, c.1) := 0.125]
    ensures var e, c := adj.segments[s], Opposite(adj, adj.segments[s]);
      0 <= c.0 < adj.nodes && 0 <= c.1 < adj.nodes &&
      Entry(A, adj.nodes + s, X, adj.nodes) == 0.375 * (X[e.i] + X[e.j]) + 0.125 * (X[c.0] + X[c.1])
  {
    var e, c := adj.segments[s], Opposite(adj, adj.segments[s]);
    OppositeInRange(adj, e);
    assert 0 <= e.i < adj.nodes && 0 <= e.j < adj.nodes;
    EntryStencil(A, adj.nodes + s, e.i, c.0, e.j, c.1, X, adj.nodes);
  }

  /** The opposite neighbours of an edge are coarse nodes. */
  lemma OppositeInRange(adj: Adjacency, e: Segment)
    requires AdjacencyInRange(adj) && RegularEdge(adj, e)
    ensures 0 <= Opposite(adj, e).0 < adj.nodes && 0 <= Opposite(adj, e).1 < adj.nodes
  {
    var n0 := ListAt(adj.neighbors, e.i);
    assert forall k :: 0 <= k < 6 ==> 0 <= n0[k] < adj.nodes;
  }

  /** `TriangleSubdivision`: built from a coarse mesh, it holds the fine mesh and the cached Loop
      matrix (`loop_matrix_`, empty until `loop_matrix` is first called). */
  class TriangleSubdivision {
    /** The coarse mesh's node count, segments, sorted neighbours and boundary neighbours. */
    const adj: Adjacency
    /** The coarse triangles and the node-to-segment incidence lists of the segment mesh. */
    const elements: seq<Tri>
    const incident: seq<seq<int>>
    /** Nodes whose position is kept by Loop subdivision. */
    const corners: set<int>
    const weights: LoopWeights
    /** The triangles of `fine_mesh`. */
    const fineMesh: seq<Tri>
    var loopMatrix: Option<SparseMatrix>

    /** The coarse mesh is consistent, and a cached matrix is the Loop matrix of this mesh. */
    ghost predicate Valid()
      reads this
    {
      AdjacencyInRange(adj) && SegmentsIn(adj.segments, adj.nodes) &&
      (loopMatrix.Some? ==> loopMatrix.value == LoopSparse(adj, corners, weights))
    }

    constructor (adj: Adjacency, elements: seq<Tri>, incident: seq<seq<int>>, corners: set<int>, weights: LoopWeights)
      requires AdjacencyInRange(adj) && SegmentsIn(adj.segments, adj.nodes)
      requires IncidenceShaped(adj.nodes, adj.segments, incident)
      requires AllSidesFound(adj.nodes, elements, adj.segments, incident)
      ensures this.adj == adj && this.elements == elements && this.incident == incident
      ensures this.corners == corners && this.weights == weights
      ensures fineMesh == FineTriangles(adj.nodes, elements, adj.segments, incident, |elements|)
      ensures loopMatrix == None
      ensures Valid()
    {
      var triangles := MakeFineMesh(adj.nodes, elements, adj.segments, incident);
      this.adj := adj;
      this.elements := elements;
      this.incident := incident;
      this.corners := corners;
      this.weights := weights;
      fineMesh := triangles[..];
      loopMatrix := None;
    }

    /** `linear_subdivide` on one value per node: `None` when the input does not have one entry per
        coarse node, otherwise a new array holding the linear subdivision. */
    method LinearSubdivide(X: array<real>) returns (fine: Option<array<real>>)
      requires Valid()
      ensures fine.None? <==> X.Length != adj.nodes
      ensures fine.Some? ==> fresh(fine.value) && fine.value[..] == LinearSubdivided(X[..], adj.segments)
    {
      if X.Length != adj.nodes {
        return None;
      }
      var f := SubdivideValues(X, adj.segments);
      return Some(f);
    }

    /** `linear_subdivide` on a two-dimensional array with one row per node: every column is
        subdivided on its own. */
    method LinearSubdivide2(X: array2<real>) returns (fine: Option<array2<real>>)
      requires Valid()
      ensures fine.None? <==> X.Length0 != adj.nodes
      ensures fine.Some? ==> (fresh(fine.value) &&
        fine.value.Length0 == adj.nodes + |adj.segments| && fine.value.Length1 == X.Length1 &&
        forall a :: 0 <= a < X.Length1 ==> Column(fine.value, a) == LinearSubdivided(Column(X, a), adj.segments))
    {
      if X.Length0 != adj.nodes {
        return None;
      }
      var f := new real[adj.nodes + |adj.segments|, X.Length1];
      CopyRows(X, f);
      MidpointRows(X, f, adj.segments);
      forall a | 0 <= a < X.Length1
        ensures Column(f, a) == LinearSubdivided(Column(X, a), adj.segments)
      {
        ColumnSubdivided(X, f, adj.segments, a);
      }
      return Some(f);
    }

    /** `loop_matrix`: the cached matrix when there is one; otherwise the weight table is built, wrapped
        with shape `(offset + segments) x offset` and cached. Every call returns the same matrix. */
    method LoopMatrix() returns (M: SparseMatrix)
      requires Valid()
      modifies this
      ensures Valid()
      ensures M == LoopSparse(adj, corners, weights) && loopMatrix == Some(M)
      ensures old(loopMatrix).Some? ==> M == old(loopMatrix).value
    {
      if loopMatrix.Some? {
        return loopMatrix.value;
      }
      var A := BuildTable(adj, corners, weights);
      M := SparseMatrix(A, adj.nodes + |adj.segments|, adj.nodes);
      loopMatrix := Some(M);
    }

    /** `loop_subdivide`: `None` when the input does not have one value per coarse node, otherwise the
        product of the Loop matrix with the input. */
    method LoopSubdivide(X: seq<real>) returns (fine: Option<seq<real>>)
      requires Valid()
      modifies this
      ensures Valid()
      ensures fine.None? <==> |X| != adj.nodes
      ensures fine.Some? ==> fine.value == MatVec(LoopSparse(adj, corners, weights), X)
      ensures loopMatrix == if |X| == adj.nodes then Some(LoopSparse(adj, corners, weights)) else old(loopMatrix)
    {
      if |X| != adj.nodes {
        return None;
      }
      var M := LoopMatrix();
      return Some(MatVec(M, X));
    }
  }

  /** The body of `linear_subdivide` on one value per node: the coarse values are copied, then every
      segment's fine node gets the average of its two ends. */
  method SubdivideValues(X: array<real>, segments: seq<Segment>) returns (f: array<real>)
    requires SegmentsIn(segments, X.Length)
    ensures fresh(f) && f[..] == LinearSubdivided(X[..], segments)
  {
    f := new real[X.Length + |segments|];
    CopyValues(X, f);
    StoreMidpoints(X, f, segments);
    assert f[..] == f[..X.Length] + f[X.Length..];
  }

  /** `fine_X.slice(0, offset) = X` on one value per node. */
  method CopyValues(X: array<real>, f: array<real>)
    requires X != f && X.Length <= f.Length
    modifies f
    ensures f[..X.Length] == X[..] && f[X.Length..] == old(f[X.Length..])
  {
    for i := 0 to X.Length
      invariant f[..i] == X[..i] && f[X.Length..] == old(f[X.Length..])
    {
      f[i] := X[i];
    }
  }

  /** The segment loop of `linear_subdivide`: the fine node of segment `s` gets its midpoint. */
  method StoreMidpoints(X: array<real>, f: array<real>, segments: seq<Segment>)
    requires X != f && f.Length == X.Length + |segments| && SegmentsIn(segments, X.Length)
    modifies f
    ensures f[..X.Length] == old(f[..X.Length]) && f[X.Length..] == Midpoints(X[..], segments)
  {
    ghost var M := Midpoints(X[..], segments);
    var offset := X.Length;
    for s := 0 to |segments|
      invariant f[..offset] == old(f[..offset]) && f[offset..offset + s] == M[..s]
    {
      var e := segments[s];
      f[offset + s] := 0.5 * (X[e.i] + X[e.j]);
    }
    assert f[offset..] == f[offset..offset + |segments|];
  }

  /** `fine_X.slice(0, offset) = X`: the first rows of `f` become the rows of `X`. */
  method CopyRows(X: array2<real>, f: array2<real>)
    requires X != f && X.Length0 <= f.Length0 && X.Length1 == f.Length1
    modifies f
    ensures forall r, a :: 0 <= r < X.Length0 && 0 <= a < X.Length1 ==> f[r, a] == X[r, a]
    ensures forall r, a :: X.Length0 <= r < f.Length0 && 0 <= a < f.Length1 ==> f[r, a] == old(f[r, a])
  {
    for i := 0 to X.Length0
      invariant forall r, a :: 0 <= r < i && 0 <= a < X.Length1 ==> f[r, a] == X[r, a]
      invariant forall r, a :: X.Length0 <= r < f.Length0 && 0 <= a < f.Length1 ==> f[r, a] == old(f[r, a])
    {
      for a := 0 to X.Length1
        invariant forall r, b :: 0 <= r < i && 0 <= b < X.Length1 ==> f[r, b] == X[r, b]
        invariant forall b :: 0 <= b < a ==> f[i, b] == X[i, b]
        invariant forall r, b :: X.Length0 <= r < f.Length0 && 0 <= b < f.Length1 ==> f[r, b] == old(f[r, b])
      {
        f[i, a] := X[i, a];
      }
    }
  }

  /** The segment loop of the two-dimensional `linear_subdivide`: row `offset + s` becomes the
      average of the rows of the segment's ends, column by column. */
  method MidpointRows(X: array2<real>, f: array2<real>, segments: seq<Segment>)
    requires X != f && f.Length0 == X.Length0 + |segments| && X.Length1 == f.Length1
    requires SegmentsIn(segments, X.Length0)
    modifies f
    ensures forall r, a :: 0 <= r < X.Length0 && 0 <= a < f.Length1 ==> f[r, a] == old(f[r, a])
    ensures forall s, a :: 0 <= s < |segments| && 0 <= a < X.Length1 ==>
      f[X.Length0 + s, a] == 0.5 * (X[segments[s].i, a] + X[segments[s].j, a])
  {
    var offset := X.Length0;
    for s := 0 to |segments|
      invariant forall r, a :: 0 <= r < offset && 0 <= a < f.Length1 ==> f[r, a] == old(f[r, a])
      invariant forall t, a :: 0 <= t < s && 0 <= a < X.Length1 ==>
        f[offset + t, a] == 0.5 * (X[segments[t].i, a] + X[segments[t].j, a])
    {
      var e := segments[s];
      for a := 0 to X.Length1
        invariant forall r, b :: 0 <= r < offset && 0 <= b < f.Length1 ==> f[r, b] == old(f[r, b])
        invariant forall t, b :: 0 <= t < s && 0 <= b < X.Length1 ==>
          f[offset + t, b] == 0.5 * (X[segments[t].i, b] + X[segments[t].j, b])
        invariant forall b :: 0 <= b < a ==> f[offset + s, b] == 0.5 * (X[e.i, b] + X[e.j, b])
      {
        f[offset + s, a] := 0.5 * (X[e.i, a] + X[e.j, a]);
      }
    }
  }

  /** A column of the copied-and-averaged array is the linear subdivision of the same column of `X`. */
  lemma ColumnSubdivided(X: array2<real>, f: array2<real>, segments: seq<Segment>, a: int)
    requires f.Length0 == X.Length0 + |segments| && X.Length1 == f.Length1 && 0 <= a < X.Length1
    requires SegmentsIn(segments, X.Length0)
    requires forall r :: 0 <= r < X.Length0 ==> f[r, a] == X[r, a]
    requires forall s :: 0 <= s < |segments| ==> f[X.Length0 + s, a] == 0.5 * (X[segments[s].i, a] + X[segments[s].j, a])
    ensures Column(f, a) == LinearSubdivided(Column(X, a), segments)
  {
    var C, L := Column(f, a), LinearSubdivided(Column(X, a), segments);
    forall k | 0 <= k < |C| ensures C[k] == L[k] {
      if k < X.Length0 {
        assert L[k] == L[..X.Length0][k];
      } else {
        assert L[X.Length0 + (k - X.Length0)] == Midpoint(Column(X, a), segments[k - X.Length0]);
      }
    }
  }
}
