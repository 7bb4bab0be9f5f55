# Closest-triangle levelsets and triangle subdivision, in Dafny

This project models two pieces of a geometry library.

**Surface levelset** (`geode/geometry/surface_levelset.cpp`). For every particle of a point cloud,
`surface_levelset` finds the closest triangle of a surface within a cutoff distance. It walks a
particle box hierarchy and a triangle box hierarchy together (`Helper::eval`) and prunes with two
squared-distance lower bounds, point-to-box and box-to-box. It updates each particle's record
(`CloseTriangleInfo`) and an upper bound per particle node (`sqr_phi_node`) in place. A driver resets
the records, runs the search, and turns squared distances into distances and normals, signed or
unsigned. `slow_surface_levelset` is the brute-force version: every particle against every triangle.

The model proves that:
- both bounds are admissible, so pruning never skips a closer triangle;
- records only improve;
- every node bound stays an upper bound on its subtree;
- when the search finishes, every particle's squared distance is the brute-force minimum capped at
  the cutoff, and a triangle is found exactly when that minimum is below the cutoff.

**Triangle subdivision** (`mesh/TriangleSubdivision.cpp`). `TriangleSubdivision` splits every coarse
triangle into four. It places one new node per coarse segment, at id `offset + segment index`.
- `linear_subdivide` copies the per-node values and appends each segment's midpoint value.
- `loop_matrix` builds, once, the sparse matrix of Loop subdivision weights, row by row in a
  hashtable, and caches it.
- `loop_subdivide` multiplies by that matrix.

The model proves:
- the layout of the fine mesh;
- the linear subdivision formula;
- every fixed-weight row rule of the Loop matrix, and the matrix's shape;
- that the cache always holds the same matrix;
- that Loop subdivision agrees with linear subdivision at kept nodes and on boundary edges.

Coordinates and weights are mathematical reals. Trees are arrays of nodes addressed by index. The
closest-point routine, the inside test, `sqrt` and the Loop weight formulas are parameters.

Files:
- `geometry.dfy`: vectors, boxes and the two lower bounds.
- `box_trees.dfy`: box hierarchies.
- `candidates.dfy`: closest-point records and the brute-force scan.
- `dual_tree.dfy`: `Helper::eval`.
- `levelset.dfy`: the drivers and the finalisers.
- `hashtable.dfy`: a write-list model of the weight hashtable.
- `fine_mesh.dfy`: `make_fine_mesh`.
- `loop_matrix.dfy`: the Loop weight table.
- `subdivision.dfy`: the `TriangleSubdivision` class.

## Model

| member | source | states |
|---|---|---|
| Geometry.LowerBoundPointBox | geode/geometry/surface_levelset.cpp:26-28 | The point-to-box bound is non-negative, and 0 when the box contains the point. That it is the squared distance to the nearest point of the box is `PointBoxAdmissible` with `PointBoxExact`. |
| Geometry.Clamp | geode/geometry/surface_levelset.cpp:27 | The clamp of a point into a non-empty box lies in the box, and a point already in the box is its own clamp. |
| Geometry.ClampAxisNearest | geode/geometry/surface_levelset.cpp:26-28 | On one axis, the clamped coordinate is at least as close to the value as any coordinate inside the interval. |
| Geometry.PointBoxAdmissible | geode/geometry/surface_levelset.cpp:26-28 | The point-to-box bound never exceeds the squared distance from the point to any point of the box. |
| Geometry.PointBoxExact | geode/geometry/surface_levelset.cpp:26-28 | The clamp lies in the box, so the bound is attained by a point of the box. |
| Geometry.LowerBoundBoxBox | geode/geometry/surface_levelset.cpp:30-31 | The box-to-box bound (the clamp of the Minkowski difference towards the origin) is non-negative, and 0 when the boxes overlap. |
| Geometry.BoxSub | geode/geometry/surface_levelset.cpp:31 | The difference box contains the origin exactly when the two boxes overlap. |
| Geometry.MaxSize | geode/geometry/surface_levelset.cpp:62 | `sizes().max()` is at least every extent of the box and equal to one of them. |
| Geometry.SubInBoxSub | geode/geometry/surface_levelset.cpp:30-31 | The difference of a point of one box and a point of the other lies in the difference box. |
| Geometry.BoxBoxAdmissible | geode/geometry/surface_levelset.cpp:30-31 | The box-to-box bound never exceeds the squared distance between any point of one box and any point of the other. |
| Geometry.BoxBoxOfPoint | geode/geometry/surface_levelset.cpp:26-31 | For a degenerate box holding a single point, the box-to-box bound equals the point-to-box bound. |
| Geometry.ContainsBoxTransitive | geode/geometry/surface_levelset.cpp:41-42 | A point in a box that is nested in an outer box lies in the outer box. |
| BoxTrees.SubNodes | geode/geometry/surface_levelset.cpp:62-79 | The subtree of a node contains the node, and only nodes with larger ids. |
| BoxTrees.SubPrims | geode/geometry/surface_levelset.cpp:47-48 | The primitives under a node are valid primitive ids. |
| BoxTrees.FindLeaf | geode/geometry/surface_levelset.cpp:47-48 | Every primitive under a node is owned by some leaf under it, and that leaf's box is nested in the node's box. |
| Candidates.Distances | geode/geometry/surface_levelset.cpp:162-164 | One squared distance per triangle, in triangle order. Entry `t` is the squared distance of triangle `t`'s closest-point record, and it is non-negative. |
| Candidates.Candidate | geode/geometry/surface_levelset.cpp:54-58 | The record of triangle `t` names `t`, its displacement added to the closest point gives the particle, and its squared distance is the squared length of that displacement. |
| Candidates.Scan | geode/geometry/surface_levelset.cpp:160-171 | The strict-improvement scan keeps a value no larger than its start value. With no index it is the start value; with an index it is that candidate's distance and strictly below the start value. |
| Candidates.ScanStep | geode/geometry/surface_levelset.cpp:164-170 | Scanning one more candidate replaces the best so far exactly when the candidate is strictly smaller. |
| Candidates.ScanIsMinimum | geode/geometry/surface_levelset.cpp:160-171 | The strict-improvement scan from a start value yields the minimum of the start value and all distances. Its index is a triangle attaining that minimum (the first one), or -1 exactly when none is below the start value. |
| Candidates.MinimumIsScan | geode/geometry/surface_levelset.cpp:57-58 | Any value that is at most the start value, at most every distance, and equal to the start value or to some distance is the scan's result. It is "no triangle" exactly when the scan finds none. |
| Candidates.ScanCutoff | geode/geometry/surface_levelset.cpp:88-92 | Scanning from a lower cutoff gives the minimum of the cutoff and the scan from a higher start. The triangle is kept only when it beats the cutoff. |
| DualTree.Choose | geode/geometry/surface_levelset.cpp:45-79 | Two leaves are compared exhaustively. A particle leaf always splits the surface node, and a surface leaf always splits the particle node. |
| DualTree.MaxPhi | geode/geometry/surface_levelset.cpp:60 | The running maximum over a leaf's records, starting from 0, is non-negative. That it is the maximum is `MaxPhiIsMaximum`. |
| DualTree.MaxPhiIsMaximum | geode/geometry/surface_levelset.cpp:46-60 | The running maximum of a leaf's records bounds every one of them, and is 0 or one of them. |
| DualTree.MaxPhiFrame | geode/geometry/surface_levelset.cpp:60 | The running maximum reads only the records of the leaf's particles. |
| DualTree.MaxPhiStep | geode/geometry/surface_levelset.cpp:60 | Evaluating one more particle takes the maximum of the previous running value and the particle's new record. |
| DualTree.LeafStepUntouched | geode/geometry/surface_levelset.cpp:49-58 | Records of particles not yet evaluated keep their values from before the leaf pair. |
| DualTree.ImprovedTransitive | geode/geometry/surface_levelset.cpp:57-58 | "Each record unchanged or strictly closer" composes over consecutive calls. |
| DualTree.Helper.ParticleInBox | geode/geometry/surface_levelset.cpp:41-47 | A particle under a node lies in that node's box. |
| DualTree.Helper.ClosestInBox | geode/geometry/surface_levelset.cpp:42-54 | The closest point of a triangle under a surface node lies in that node's box. |
| DualTree.Helper.NodeBoundAdmissible | geode/geometry/surface_levelset.cpp:65-75 | The box-to-box bound of a node pair is at most the true squared distance from any particle under one to any triangle under the other. |
| DualTree.Helper.PointBoundAdmissible | geode/geometry/surface_levelset.cpp:50 | The point-to-box bound of a particle and a surface node is at most its squared distance to any triangle under the node. |
| DualTree.Helper.PruneCovers | geode/geometry/surface_levelset.cpp:68-76 | When a node bound is already no larger than the box-to-box bound, every particle under the node is at least as close as every triangle under the surface node. A skipped call loses nothing. |
| DualTree.Helper.EvalParticle | geode/geometry/surface_levelset.cpp:50-59 | One particle against a surface leaf. The record stays a genuine closest-point record or the untouched reset. It is unchanged or strictly closer, only this particle's record is written, and afterwards it is no farther than any triangle of the leaf. |
| DualTree.Helper.LeafStep | geode/geometry/surface_levelset.cpp:49-61 | One more particle of the leaf keeps the loop's progress. The properties kept are: only evaluated records changed, each improved, each covered by the leaf, and the node bound is their running maximum. |
| DualTree.Helper.LeafStepCovered | geode/geometry/surface_levelset.cpp:49-59 | Particles evaluated earlier stay covered by the surface leaf when one more particle's record changes. |
| DualTree.Helper.LeafDone | geode/geometry/surface_levelset.cpp:45-61 | When the leaf loop ends, the node bound is the maximum over the leaf's records, and every particle of the leaf is covered. |
| DualTree.Helper.EvalLeaves | geode/geometry/surface_levelset.cpp:45-61 | Leaf against leaf. Records only improve, only this leaf's records and bound are written, the bound becomes the maximum of the leaf's records, and the leaf's particles are covered by the surface leaf. |
| DualTree.Helper.Eval | geode/geometry/surface_levelset.cpp:40-80 | The recursion step. It keeps every record genuine, keeps every node bound under `pn` an upper bound of its subtree's records, and improves records only. It writes nothing outside `pn`'s subtree. On return every particle under `pn` is at least as close as every triangle under `sn`. |
| DualTree.Helper.EvalSurfaceSplit | geode/geometry/surface_levelset.cpp:62-71 | The surface children are taken in order of their box-to-box bound, the smaller first and the left child on a tie. The first is visited exactly when the bound of `pn` exceeds its bound; the second exactly when the bound of `pn` after the first child exceeds the second's bound; a pruned first child leaves the bound of `pn` unchanged. Either way every record stays genuine, every node bound under `pn` stays an upper bound, records only improve, nothing outside `pn`'s subtree is written, and afterwards the particles under `pn` are covered by the whole surface node. |
| DualTree.Helper.CoveredBoth | geode/geometry/surface_levelset.cpp:62-71 | Being covered by both children of a surface node is being covered by the node. |
| DualTree.Helper.SplitStart | geode/geometry/surface_levelset.cpp:73 | Zeroing the bound of `pn` leaves both children's subtree bounds intact. |
| DualTree.Helper.SplitMiddle | geode/geometry/surface_levelset.cpp:74-77 | After the first particle child, the second child's subtree still has its bounds. |
| DualTree.Helper.SplitDone | geode/geometry/surface_levelset.cpp:72-79 | After both particle children, the bound of `pn` is the maximum of the children's bounds, and `pn`'s whole subtree is bounded and covered. |
| DualTree.Helper.EvalParticleChild | geode/geometry/surface_levelset.cpp:75-76 | A particle child is evaluated or pruned. Either way it ends covered, bounded and improved. |
| DualTree.Helper.EvalParticleSplit | geode/geometry/surface_levelset.cpp:72-79 | Splitting the particle node leaves `pn`'s bound at the maximum of its children's bounds, with `pn`'s subtree bounded and covered. |
| Levelset.UnsignedRecord | geode/geometry/surface_levelset.cpp:106-117 | Unsigned finaliser. The distance is `sqrt` of the squared distance. With no triangle the normal is zero. Beyond epsilon the normal times the distance is the raw displacement. Within epsilon the normal is the face normal or its negation, whichever agrees with the displacement. |
| Levelset.SignedRecord | geode/geometry/surface_levelset.cpp:118-138 | Signed finaliser. With no triangle the normal is zero. An arithmetic error gives distance 0 and the face normal. Inside negates the distance. Beyond epsilon the normal times the signed distance is the displacement; within epsilon it is the face normal. |
| Levelset.SignedAgreesWithUnsigned | geode/geometry/surface_levelset.cpp:106-138 | When the inside test succeeds, the signed distance has the unsigned distance as its magnitude. Away from the surface the normals agree outside and are opposite inside. |
| Levelset.BruteIsScan | geode/geometry/surface_levelset.cpp:159-171 | The brute-force record has the scan's squared distance and triangle. A found triangle's record is that triangle's closest-point record. |
| Levelset.Brute | geode/geometry/surface_levelset.cpp:160-171 | The brute-force record after `k` triangles is either the `FLT_MAX` start with no triangle, or the closest-point record of one of those `k` triangles, strictly below `FLT_MAX`. |
| Levelset.BruteStep | geode/geometry/surface_levelset.cpp:161-170 | One more triangle replaces the brute-force record exactly when its squared distance is strictly smaller. |
| Levelset.BruteDirection | geode/geometry/surface_levelset.cpp:174 | Direction times distance is the displacement, and a zero distance gives (1, 0, 0). |
| Levelset.SearchMatchesBruteForce | geode/geometry/surface_levelset.cpp:153-177 | The search's scan from the squared cutoff has squared distance min(cutoff, brute-force minimum). It finds a triangle exactly when the brute force's distance is below the cutoff. |
| Levelset.UniqueMinimumAgrees | geode/geometry/surface_levelset.cpp:153-177 | When a single triangle attains the smallest distance and it beats the cutoff, the search's record is the whole brute-force record: the same triangle, squared distance, displacement and weights. |
| Levelset.InitialState | geode/geometry/surface_levelset.cpp:88-95 | The reset records and the node bounds at the squared cutoff satisfy everything the search requires at the roots. |
| Levelset.AllSearched | geode/geometry/surface_levelset.cpp:96-97 | After the search, or when it is skipped, every record has the scan's squared distance, and the record of an attaining triangle or the reset record. |
| Levelset.ResetRecords | geode/geometry/surface_levelset.cpp:89-92 | Every record gets the squared cutoff and no triangle. Its other fields are kept. |
| Levelset.FinishUnsigned | geode/geometry/surface_levelset.cpp:106-117 | Every record is replaced by its unsigned finalisation. |
| Levelset.FinishSigned | geode/geometry/surface_levelset.cpp:118-138 | Every record is replaced by its signed finalisation, using its own particle. |
| Levelset.SurfaceLevelset | geode/geometry/surface_levelset.cpp:85-139 | The size check fails exactly when `info` does not have one record per particle, and then nothing is written. Otherwise every record is the finalisation (signed or unsigned) of a searched record. |
| Levelset.SearchAll | geode/geometry/surface_levelset.cpp:88-97 | After the reset and the dual traversal from the roots, every record is the searched record of its particle. |
| Levelset.SlowParticle | geode/geometry/surface_levelset.cpp:160-171 | The inner brute-force loop leaves the brute-force record of particle `p` in the four arrays and writes nothing else. |
| Levelset.SlowTriangle | geode/geometry/surface_levelset.cpp:161-170 | One turn of the inner loop moves particle `p`'s four outputs from the brute force over `t` triangles to the brute force over `t + 1`, and writes no other particle. |
| Levelset.Fill | geode/geometry/surface_levelset.cpp:159 | Every entry becomes the fill value. |
| Levelset.BruteScan | geode/geometry/surface_levelset.cpp:160-171 | Every particle's four outputs hold its brute-force record. |
| Levelset.BruteFinish | geode/geometry/surface_levelset.cpp:172-175 | Every distance becomes `sqrt` of the squared distance, and every direction the displacement turned into a direction by `BruteDirection`. |
| Levelset.SlowSurfaceLevelset | geode/geometry/surface_levelset.cpp:154-177 | Each particle's outputs are `sqrt` of its brute-force squared distance, the corresponding direction, and the brute-force triangle and weights. |
| Hashtable.ApplyConcat | mesh/TriangleSubdivision.cpp:132-182 | Performing two write lists in a row performs their concatenation. |
| Hashtable.FilterConcat | mesh/TriangleSubdivision.cpp:139-182 | The writes to one row of a concatenation are the writes to that row of each part, in order. |
| Hashtable.FilterOnRow | mesh/TriangleSubdivision.cpp:139-182 | The writes of one row's rule, filtered by that row, are all of them; filtered by another row, none. |
| Hashtable.ApplyRow | mesh/TriangleSubdivision.cpp:132-182 | A row of the table depends only on the writes to that row. |
| Hashtable.FilterRows | mesh/TriangleSubdivision.cpp:139-182 | In a loop whose item `i` writes only row `base + i`, the writes to row `r` are exactly that item's writes. |
| Hashtable.TwoLoopRows | mesh/TriangleSubdivision.cpp:138-182 | After the node loop and the edge loop, each row is what its own item writes into an empty row, and every other row is empty. |
| Hashtable.SecondLoopRow | mesh/TriangleSubdivision.cpp:156-182 | Row `n + s` after both loops is what edge item `s` writes. |
| Hashtable.ConcatInShape | mesh/TriangleSubdivision.cpp:184 | If every item's writes land in the shape, so do all the loop's writes. |
| Hashtable.ApplyInShape | mesh/TriangleSubdivision.cpp:184 | A table filled by writes inside the shape has all its entries inside the shape. |
| FineMesh.FirstMatch | mesh/TriangleSubdivision.cpp:32-36 | Returns the first incident segment that contains the other end, or the list length when none does. No earlier segment contains it. |
| FineMesh.FindEdgeNode | mesh/TriangleSubdivision.cpp:30-36 | The search loop with early exit returns `offset` plus the first incident segment containing the side's other end. |
| FineMesh.EdgeNode | mesh/TriangleSubdivision.cpp:29-36 | The edge node of a side is a new node (at least `offset`, below `offset + segments`), and its segment contains the side's other end. |
| FineMesh.EdgeNodes | mesh/TriangleSubdivision.cpp:29-36 | Each of the three edge nodes is a new node whose segment contains the next corner. |
| FineMesh.EdgeNodesAt | mesh/TriangleSubdivision.cpp:29-36 | Edge node `a` is the edge node of the side from corner `a` to the next corner, and that side is found. |
| FineMesh.Split | mesh/TriangleSubdivision.cpp:38-41 | A coarse triangle splits into exactly four fine triangles. Corner triangle `a` keeps corner `a` in slot `a`, followed in the coarse orientation by the edge node of the side leaving `a` and then that of the side arriving at `a`; the fourth is the triangle of edge nodes, as in (n0,e0,e2), (e0,n1,e1), (e2,e1,n2), (e0,e1,e2). |
| FineMesh.SplitTriangle | mesh/TriangleSubdivision.cpp:27-41 | One iteration of the triangle loop yields the split of the triangle by its three edge nodes. |
| FineMesh.FineTriangles | mesh/TriangleSubdivision.cpp:25 | The fine triangles of the first `T` coarse triangles: exactly `4 * T` of them. |
| FineMesh.FineTriangle | mesh/TriangleSubdivision.cpp:38-41 | The first three fine triangles of a coarse triangle keep its corner `k` in slot `k`, and the fourth is its triangle of edge nodes. |
| FineMesh.FineTrianglesAt | mesh/TriangleSubdivision.cpp:38-41 | Slot `4t + k` holds fine triangle `k` of coarse triangle `t`. |
| FineMesh.FineTrianglesStep | mesh/TriangleSubdivision.cpp:26-42 | One more coarse triangle appends its four fine triangles. |
| FineMesh.SplitInto | mesh/TriangleSubdivision.cpp:26-42 | One loop iteration extends the filled prefix of the triangle array by the next coarse triangle's split. |
| FineMesh.StoreSplit | mesh/TriangleSubdivision.cpp:38-41 | The four stores write slots `4t..4t+3` and leave the prefix intact. |
| FineMesh.MakeFineMesh | mesh/TriangleSubdivision.cpp:21-44 | The triangle array is exactly the concatenation of the splits of all coarse triangles, in order. |
| FineMesh.EdgeNodeIsSide | mesh/TriangleSubdivision.cpp:24-36 | An edge node is at least `offset`, and its segment contains both ends of the side. |
| FineMesh.EdgeNodeSymmetric | mesh/TriangleSubdivision.cpp:29-36 | With exact incidence lists and no duplicate segments, the two triangles sharing a side get the same edge node for it, whichever end they search from. |
| FineMesh.FirstMatchReaches | mesh/TriangleSubdivision.cpp:32-36 | When some incident segment contains the other end, the search stops at or before it, on a segment containing that end. |
| FineMesh.SameEnds | mesh/TriangleSubdivision.cpp:33 | Without duplicate segments, two segments with the same two distinct ends are the same segment. |
| FineMesh.EdgeNodesDistinct | mesh/TriangleSubdivision.cpp:24-36 | A non-degenerate triangle gets three distinct edge nodes, all at least `offset`, while its corners are below `offset`. |
| FineMesh.SplitNonDegenerate | mesh/TriangleSubdivision.cpp:38-41 | All four fine triangles of a non-degenerate coarse triangle are non-degenerate. |
| LoopMatrix.Find | mesh/TriangleSubdivision.cpp:165-177 | `find` returns the first index holding the value, or -1 exactly when the value is absent. |
| LoopMatrix.FindIndex | mesh/TriangleSubdivision.cpp:165-177 | The linear search loop returns `Find`. |
| LoopMatrix.InteriorWrites | mesh/TriangleSubdivision.cpp:147-152 | An interior node writes `degree + 1` `set`s on its own row, on itself or its neighbours, and the weights sum to 1 whatever `alpha` is. |
| LoopMatrix.InteriorWritesAt | mesh/TriangleSubdivision.cpp:147-152 | The first write puts `alpha` on the diagonal, and write `k + 1` puts `(1 - alpha) / degree` on neighbour `k`. |
| LoopMatrix.BoundaryNodeWrites | mesh/TriangleSubdivision.cpp:142-145 | A regular boundary node writes three `set`s on its own row, on itself or its two boundary neighbours, and the weights sum to 1. |
| LoopMatrix.Around | mesh/TriangleSubdivision.cpp:165-167 | The two ring entries around the other end are ring entries. In a ring without repeats that holds the other end, they differ from it and from each other; when it is missing they are the fifth and the first entries. |
| LoopMatrix.Opposite | mesh/TriangleSubdivision.cpp:165-167 | The opposite neighbours of a regular edge are neighbours of its first end, and differ from the other end and from each other when the ring has no repeats and holds the other end. |
| LoopMatrix.RegularEdgeWrites | mesh/TriangleSubdivision.cpp:168-171 | A regular edge writes four `set`s on its own row, on its ends and opposite neighbours, and the weights sum to 1. |
| LoopMatrix.IrregularWrites | mesh/TriangleSubdivision.cpp:174-179 | An end of degree 6 contributes nothing; an irregular end adds `degree + 1` entries to the edge's row, on itself or its ring. |
| LoopMatrix.RingIndex | mesh/TriangleSubdivision.cpp:179 | The ring index lies in the ring. |
| LoopMatrix.RingIndexIsMod | mesh/TriangleSubdivision.cpp:179 | The ring index is `(start + j) % n`, including the start value -1. |
| LoopMatrix.IrregularEnd | mesh/TriangleSubdivision.cpp:176-179 | An irregular end adds `factor * (1 - beta)` on itself, then `factor * weight(degree, j)` on the `j`-th ring neighbour counted from the other end. All of these writes stay in the edge's row. |
| LoopMatrix.IrregularEdgeWrites | mesh/TriangleSubdivision.cpp:172-181 | Every write of the irregular-edge accumulation, from both ends, stays in the edge's row. |
| LoopMatrix.NodeWrites | mesh/TriangleSubdivision.cpp:139-154 | Every write of a node's rule is to that node's row, and its weights sum to 1. |
| LoopMatrix.EdgeWrites | mesh/TriangleSubdivision.cpp:156-182 | Every write of segment `s`'s rule is to row `offset + s`. On a boundary edge and on a regular edge the weights sum to 1. |
| LoopMatrix.TableRows | mesh/TriangleSubdivision.cpp:138-182 | Row `i < offset` is what node `i`'s rule writes into an empty row, and row `offset + s` is what segment `s`'s rule writes. No other row has an entry. |
| LoopMatrix.NodeRowIs | mesh/TriangleSubdivision.cpp:139-154 | Row `i` of the table is node `i`'s rule performed on an empty row. |
| LoopMatrix.EdgeRowIs | mesh/TriangleSubdivision.cpp:156-182 | Row `offset + s` of the table is segment `s`'s rule performed on an empty row. |
| LoopMatrix.KeptNodeRow | mesh/TriangleSubdivision.cpp:140-141 | A corner, an isolated node or an irregular boundary node gets the identity row. |
| LoopMatrix.BoundaryNodeRow | mesh/TriangleSubdivision.cpp:142-145 | A regular boundary node gets 0.75 on itself and 0.125 on each of its two boundary neighbours. When a neighbour coincides with a column already set, the later `set` wins. |
| LoopMatrix.InteriorNodeRow | mesh/TriangleSubdivision.cpp:146-153 | An interior node's row has entries exactly on itself and its neighbours. Each neighbour gets `(1 - alpha) / degree`, and the diagonal is `alpha` unless the node lists itself as a neighbour. |
| LoopMatrix.InteriorPrefix | mesh/TriangleSubdivision.cpp:149-152 | After the diagonal and the first `m` neighbour writes, the row is exactly what those writes describe. |
| LoopMatrix.BoundaryEdgeRow | mesh/TriangleSubdivision.cpp:161-163 | A boundary edge's row is 0.5 on each end. |
| LoopMatrix.RegularEdgeRow | mesh/TriangleSubdivision.cpp:164-171 | An edge between two non-boundary degree-6 nodes has a row of 0.375 on each end and 0.125 on each of the two opposite neighbours. The opposite neighbours are the neighbours just before and just after the other end in the first end's ring. |
| LoopMatrix.NodeWritesInShape | mesh/TriangleSubdivision.cpp:184 | Every node-rule write lands in the `(offset + segments) x offset` shape. |
| LoopMatrix.EdgeWritesInShape | mesh/TriangleSubdivision.cpp:184 | Every edge-rule write lands in the `(offset + segments) x offset` shape. |
| LoopMatrix.TableShape | mesh/TriangleSubdivision.cpp:184 | Every entry of the finished table lies in the `(offset + segments) x offset` shape. |
| LoopMatrix.NodeRow | mesh/TriangleSubdivision.cpp:139-154 | The imperative body of the node loop performs node `i`'s rule on the table. |
| LoopMatrix.BoundaryRow | mesh/TriangleSubdivision.cpp:142-145 | It performs the regular boundary node rule. |
| LoopMatrix.InteriorRow | mesh/TriangleSubdivision.cpp:146-153 | It performs the interior node rule, with its loop over the neighbours. |
| LoopMatrix.EdgeRow | mesh/TriangleSubdivision.cpp:157-181 | The imperative body of the edge loop performs segment `s`'s rule on the table. |
| LoopMatrix.MidpointRow | mesh/TriangleSubdivision.cpp:161-163 | It performs the boundary edge rule. |
| LoopMatrix.RegularRow | mesh/TriangleSubdivision.cpp:164-171 | It performs the regular edge rule, with the `find` and the two ring neighbours. |
| LoopMatrix.IrregularEdgeRow | mesh/TriangleSubdivision.cpp:172-181 | It performs the irregular edge accumulation for both ends, scaled by 0.5 when both are irregular. |
| LoopMatrix.IrregularRow | mesh/TriangleSubdivision.cpp:175-180 | It performs one irregular end's contribution. |
| LoopMatrix.IrregularEndRow | mesh/TriangleSubdivision.cpp:176-179 | It performs the `1 - beta` term, then the ring walk. |
| LoopMatrix.RingRow | mesh/TriangleSubdivision.cpp:178-179 | The ring loop performs the ring writes in order. |
| LoopMatrix.NodeLoop | mesh/TriangleSubdivision.cpp:139-154 | The node loop performs every node's rule in order, starting from an empty table. |
| LoopMatrix.EdgeLoop | mesh/TriangleSubdivision.cpp:156-182 | The edge loop performs every segment's rule in order. |
| LoopMatrix.BuildTable | mesh/TriangleSubdivision.cpp:131-182 | Both loops together build exactly the Loop table. |
| LoopMatrix.LoopTable | mesh/TriangleSubdivision.cpp:128-186 | Definition of the finished table: every node rule, then every edge rule, performed on an empty table. Its rows are stated by `TableRows` and its shape by `TableShape`. |
| Subdivision.LinearSubdivided | mesh/TriangleSubdivision.cpp:51-64 | The result has `nodes + segments` values. The first `nodes` equal the input, and value `offset + s` is the midpoint of segment `s`. |
| Subdivision.Midpoints | mesh/TriangleSubdivision.cpp:59-62 | Definition of the edge-node values: one midpoint per segment, in segment order. `LinearSubdivided` states where they land, `LinearSubdividedBetween` that each lies between its ends' values, and `StoreMidpoints` that the loop writes them. |
| Subdivision.LinearSubdividedBetween | mesh/TriangleSubdivision.cpp:59-62 | Linear subdivision creates no new extremes: each edge node's value lies between the values at its segment's two ends. |
| Subdivision.MapValues | mesh/TriangleSubdivision.cpp:51-64 | Mapping the values gives one image per value, in order. |
| Subdivision.LinearSubdividedMap | mesh/TriangleSubdivision.cpp:51-64 | Linear subdivision commutes with every map of the values that sends the average of two values to the average of their images. |
| Subdivision.AffinePreservesMidpoints | mesh/TriangleSubdivision.cpp:59-62 | Every affine map `a * x + b` sends averages to averages. |
| Subdivision.LinearSubdividedAffine | mesh/TriangleSubdivision.cpp:51-64 | Subdividing `a * X + b` gives `a * (subdivided X) + b`, for every affine map, so constant and linear fields are reproduced. |
| Subdivision.Column | mesh/TriangleSubdivision.cpp:66-78 | Definition of column `a` of a two-dimensional array, one value per row. `ColumnSubdivided` states what the two-dimensional subdivision does to each column. |
| Subdivision.LoopSparseShape | mesh/TriangleSubdivision.cpp:184 | The Loop matrix has `offset + segments` rows and `offset` columns, and every entry lies in that shape. |
| Subdivision.LoopSparse | mesh/TriangleSubdivision.cpp:184 | Definition of the Loop matrix: the weight table with shape `(offset + segments) x offset`. Its shape is stated by `LoopSparseShape`. |
| Subdivision.MatVec | mesh/TriangleSubdivision.cpp:190-191 | The product has one value per matrix row. |
| Subdivision.RowDotRow | mesh/TriangleSubdivision.cpp:191 | Entry `r` of the product, computed from row `r` alone, equals the dot product of the whole table along row `r`. |
| Subdivision.RowDotUpdate | mesh/TriangleSubdivision.cpp:191 | A new entry `u` in column `c` of the row adds `u * X[c]` to the dot product, when `c` is among the product's columns. |
| Subdivision.EntryOne | mesh/TriangleSubdivision.cpp:191 | An identity row picks the value of its column. |
| Subdivision.EntryHalves | mesh/TriangleSubdivision.cpp:191 | A row of two halves in distinct columns averages the two values. |
| Subdivision.EntryStencil | mesh/TriangleSubdivision.cpp:191 | A 3/8, 1/8, 3/8, 1/8 row over four distinct columns gives the weighted sum. |
| Subdivision.LoopKeepsNode | mesh/TriangleSubdivision.cpp:140-141 | At a corner, an isolated node or an irregular boundary node, Loop subdivision keeps the coarse value, just as linear subdivision does. |
| Subdivision.LoopBoundaryEdge | mesh/TriangleSubdivision.cpp:161-163 | On a boundary edge with distinct ends, Loop subdivision gives the segment's midpoint, the same value as linear subdivision. |
| Subdivision.MidpointEntry | mesh/TriangleSubdivision.cpp:161-163 | A row of halves on a segment's two ends gives that segment's linear subdivision value. |
| Subdivision.LoopRegularEdge | mesh/TriangleSubdivision.cpp:164-171 | On a regular interior edge whose ends and opposite neighbours are four different nodes, the value is 3/8 of each end plus 1/8 of each opposite node. |
| Subdivision.RegularStencilEntry | mesh/TriangleSubdivision.cpp:164-171 | The regular edge row applied to the coarse values gives the regular edge value. |
| Subdivision.OppositeInRange | mesh/TriangleSubdivision.cpp:166-167 | The two opposite neighbours of a regular edge are coarse nodes. |
| Subdivision.SubdivideValues | mesh/TriangleSubdivision.cpp:56-63 | The fresh output array holds the linear subdivision of the input. |
| Subdivision.CopyValues | mesh/TriangleSubdivision.cpp:58 | The slice copy: the first `nodes` entries become the input, and the rest are kept. |
| Subdivision.StoreMidpoints | mesh/TriangleSubdivision.cpp:59-62 | The segment loop writes each segment's midpoint at `offset + s` and keeps the copied prefix. |
| Subdivision.CopyRows | mesh/TriangleSubdivision.cpp:71 | The two-dimensional slice copy: the first rows become the input's rows, and the rest are kept. |
| Subdivision.MidpointRows | mesh/TriangleSubdivision.cpp:72-76 | Row `offset + s` becomes the column-by-column midpoint of segment `s`'s two rows, and the copied rows are kept. |
| Subdivision.ColumnSubdivided | mesh/TriangleSubdivision.cpp:66-78 | In such an array each column is the linear subdivision of the input's column. |
| Subdivision.TriangleSubdivision.constructor | mesh/TriangleSubdivision.cpp:45-47 | The fine mesh is built by `make_fine_mesh`, and no Loop matrix is cached yet. |
| Subdivision.TriangleSubdivision.LinearSubdivide | mesh/TriangleSubdivision.cpp:51-64 | The result is `None` exactly when the input does not have one value per coarse node. Otherwise it is a fresh array with the linear subdivision of the input. |
| Subdivision.TriangleSubdivision.LinearSubdivide2 | mesh/TriangleSubdivision.cpp:66-78 | The result is `None` exactly when the row count is not the coarse node count. Otherwise it is a fresh `(nodes + segments) x columns` array, and each column is the linear subdivision of the input's column. |
| Subdivision.TriangleSubdivision.LoopMatrix | mesh/TriangleSubdivision.cpp:128-186 | It returns the Loop matrix and caches it. When a matrix was already cached, it returns that same matrix without rebuilding. |
| Subdivision.TriangleSubdivision.LoopSubdivide | mesh/TriangleSubdivision.cpp:188-193 | The result is `None` exactly when the input does not have one value per coarse node, and then the cache is untouched. Otherwise it is the Loop matrix times the input, and the matrix is cached. |

## Left out

- The language bindings (`wrap_surface_levelset`, `linear_subdivide_python`, `loop_subdivide_python`, `wrap_triangle_subdivision`). They are foreign-interface glue.
- Profiling counters and log output in `surface_levelset`. They are output only.
- `sqrt`, machine epsilon and floating-point rounding. Reals are exact here; `sqrt` is a parameter; epsilon is a parameter required to be non-negative.
- The tuple-returning `surface_levelset` overload's projections of the records into four arrays. It is copying glue.
- `Triangle3d::closest_point`. It is a parameter, with the hypothesis that the closest point lies in every box holding the triangle's three corners.
- `inside_given_closest_point`. It is a parameter answering inside, outside, or arithmetic error (the exception the source catches).
- The construction of `ParticleTree`, `SimplexTree`, `SegmentMesh`, `incident_elements`, `sorted_neighbors` and `boundary_mesh`. They are inputs, with well-formedness preconditions. The box and tree headers are not part of this model.
- The box-size argmin is modelled as "first child on a tie".
- Levelset.AllSearched: when several triangles tie for the smallest distance, the traversal may keep a different attaining triangle than the brute force, because it visits triangles in tree order. So only the capped squared distance and whether a triangle was found are promised in general. The whole record is promised when the minimum is unique (`UniqueMinimumAgrees`).
- Levelset.SearchMatchesBruteForce: a triangle exactly at the cutoff distance is never found, because the record is replaced only on a strictly smaller distance (surface_levelset.cpp:57).
- The cosine formulas and constant tables of `new_loop_alpha`, `new_loop_beta` and `new_loop_weight`. They are parameters.
- LoopMatrix.IrregularEdgeRow: the irregular-edge accumulation is modelled and performed, but no closed form of the resulting row is proved.
- `SparseMatrix::multiply` is modelled as the mathematical product of the weight table with the input (`MatVec`). The compressed storage is not modelled.
- Subdivision.TriangleSubdivision.LoopSubdivide: the output length is the matrix's row count, `offset + segments`. The source sizes the output by `fine_mesh->nodes()`, which is the same number when the fine mesh uses every coarse node and every segment.
- Subdivision.TriangleSubdivision.LoopSubdivide: only the values array is modelled. The generic per-vector `TV` instances are covered by `LinearSubdivide2`'s column form for linear subdivision, but are not modelled for Loop subdivision.
- Subdivision.TriangleSubdivision.constructor: the corner set is fixed at construction. In the source it is a public field, which could change after the matrix is cached.
- FineMesh.MakeFineMesh: requires every triangle side to be a segment. The source leaves an edge node uninitialised when a side is not found.
- Levelset.SlowSurfaceLevelset: arrays that the source leaves uninitialised start at "no triangle" and zero vectors. Outputs for a particle with no triangle closer than `FLT_MAX` are therefore stated with those values.
- LoopMatrix.RingIndex: when the other end is missing from an irregular end's ring, `find` gives -1. The source's first ring index `(-1 + 0) % n` is then -1 in C++, outside the ring. The model wraps it to the last neighbour instead.
- Subdivision.LoopRegularEdge: stated only when the four columns are distinct. With repeated columns the later `set` overwrites an entry, and the row is what `RegularEdgeRow` states.
