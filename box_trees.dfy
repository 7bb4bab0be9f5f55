// Bounding-volume hierarchies as index-addressed arenas of nodes: the read-only view the
// dual-tree search has of ParticleTree and SimplexTree (their construction is not modelled).

module BoxTrees {
  import opened Geometry

  /** A node's box encloses its subtree; a leaf owns primitive ids, an internal node names two children. */
  datatype Node = Leaf(box: Box, prims: seq<nat>) | Internal(box: Box, left: nat, right: nat)

  type Tree = seq<Node>

  /** Node `i` names children after itself inside the arena, and its primitives are below `count`. */
  ghost predicate NodeShaped(t: Tree, count: nat, i: nat)
    requires i < |t|
  {
    match t[i]
    case Leaf(_, prims) => forall j :: 0 <= j < |prims| ==> prims[j] < count
    case Internal(_, l, r) => i < l < |t| && i < r < |t|
  }

  /** Children ids exceed their parent's (geode lays the tree out with children 2n+1 and 2n+2),
      which gives every descent a well-founded measure. */
  ghost predicate Shaped(t: Tree, count: nat) {
    forall i :: 0 <= i < |t| ==> NodeShaped(t, count, i)
  }

  /** The ids of the nodes of the subtree rooted at `n`. */
  ghost function SubNodes(t: Tree, count: nat, n: nat): (r: set<nat>)
    requires Shaped(t, count) && n < |t|
    ensures n in r
    ensures forall m :: m in r ==> n <= m < |t|
    decreases |t| - n
  {
    assert NodeShaped(t, count, n);
    match t[n]
    case Leaf(_, _) => {n}
    case Internal(_, l, r) => {n} + SubNodes(t, count, l) + SubNodes(t, count, r)
  }

  /** The primitive ids owned by the leaves of the subtree rooted at `n`. */
  ghost function SubPrims(t: Tree, count: nat, n: nat): (r: set<nat>)
    requires Shaped(t, count) && n < |t|
    ensures forall p :: p in r ==> p < count
    decreases |t| - n
  {
    assert NodeShaped(t, count, n);
    match t[n]
    case Leaf(_, prims) => set j | 0 <= j < |prims| :: prims[j]
    case Internal(_, l, r) => SubPrims(t, count, l) + SubPrims(t, count, r)
  }

  /** The two subtrees of every internal node share no node: the arena is a tree, not a DAG. */
  ghost predicate Branching(t: Tree, count: nat)
    requires Shaped(t, count)
  {
    forall i :: 0 <= i < |t| && t[i].Internal? ==>
      NodeShaped(t, count, i) && SubNodes(t, count, t[i].left) !! SubNodes(t, count, t[i].right)
  }

  /** Every internal node's box contains the boxes of its children. */
  ghost predicate Nested(t: Tree, count: nat)
    requires Shaped(t, count)
  {
    forall i :: 0 <= i < |t| && t[i].Internal? ==>
      NodeShaped(t, count, i) && ContainsBox(t[i].box, t[t[i].left].box) && ContainsBox(t[i].box, t[t[i].right].box)
  }

  /** The tree was built over exactly the primitives `0 .. count-1`: all of them lie under the root. */
  ghost predicate Covers(t: Tree, count: nat)
    requires Shaped(t, count)
  {
    count > 0 ==> |t| > 0 && forall p :: 0 <= p < count ==> p in SubPrims(t, count, 0)
  }

  ghost predicate WellFormed(t: Tree, count: nat) {
    Shaped(t, count) && Branching(t, count) && Nested(t, count) && Covers(t, count)
  }

  /** A primitive under `n` is owned by a leaf of `n`'s subtree whose box lies inside `n`'s box. */
  lemma {:induction false} FindLeaf(t: Tree, count: nat, n: nat, p: nat) returns (m: nat, j: nat)
    requires Shaped(t, count) && Nested(t, count) && n < |t| && p in SubPrims(t, count, n)
    ensures m < |t| && t[m].Leaf? && j < |t[m].prims| && t[m].prims[j] == p
    ensures ContainsBox(t[n].box, t[m].box)
    decreases |t| - n
  {
    assert NodeShaped(t, count, n);
    match t[n]
    case Leaf(_, prims) =>
      m := n;
      j :| 0 <= j < |prims| && prims[j] == p;
    case Internal(_, l, r) =>
      var c := if p in SubPrims(t, count, l) then l else r;
      m, j := FindLeaf(t, count, c, p);
  }
}
