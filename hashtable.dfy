// A weight table keyed by (row, column), filled by a sequence of `set` and `+=` operations, as
// `Hashtable<Vector<int,2>,T>` is filled before it becomes a sparse matrix. The lemmas here are
// about write lists in general, so that the Loop rules never have to be unfolded to reason about
// rows, concatenation or shape.

module Hashtable {
  /** `Vector<int,2>` key (row, column) of the table. */
  type Key = (int, int)

  /** One table operation: `A.set(key, value)` or `A[key] += value`. */
  datatype Write = Set(key: Key, value: real) | AddTo(key: Key, value: real)

  /** The value stored under `k`; `operator[]` creates a missing entry as 0. */
  function Get(A: map<Key, real>, k: Key): real { if k in A then A[k] else 0.0 }

  function Perform(A: map<Key, real>, w: Write): map<Key, real> {
    match w
    case Set(k, v) => A[k := v]
    case AddTo(k, v) => A[k := Get(A, k) + v]
  }

  /** The table after performing `ws` in order on `A`. */
  function Apply(A: map<Key, real>, ws: seq<Write>): map<Key, real>
    decreases |ws|
  {
    if ws == [] then A else Perform(Apply(A, ws[..|ws| - 1]), ws[|ws| - 1])
  }

  /** Performing one more write: how a loop that performs `ws` advances. */
  lemma ApplyStep(A: map<Key, real>, ws: seq<Write>, n: nat)
    requires n < |ws|
    ensures Apply(A, ws[..n + 1]) == Perform(Apply(A, ws[..n]), ws[n])
  {
    assert ws[..n + 1][..n] == ws[..n];
  }

  lemma ApplyNone(A: map<Key, real>, ws: seq<Write>)
    ensures Apply(A, ws[..0]) == A
  {
    assert ws[..0] == [];
  }

  lemma ApplyAll(A: map<Key, real>, ws: seq<Write>)
    ensures Apply(A, ws[..|ws|]) == Apply(A, ws)
  {
    assert ws[..|ws|] == ws;
  }

  /** A loop that has performed `ws[..n]` and now performs `ws[n] == AddTo(k, v)` by hand. */
  lemma AddStep(A: map<Key, real>, ws: seq<Write>, n: nat, B: map<Key, real>, k: Key, v: real)
    requires n < |ws| && ws[n] == AddTo(k, v) && B == Apply(A, ws[..n])
    ensures B[k := Get(B, k) + v] == Apply(A, ws[..n + 1])
  {
    ApplyStep(A, ws, n);
  }

  /** A loop that has performed `ws[..n]` and now performs `ws[n] == Set(k, v)` by hand. */
  lemma SetStep(A: map<Key, real>, ws: seq<Write>, n: nat, B: map<Key, real>, k: Key, v: real)
    requires n < |ws| && ws[n] == Set(k, v) && B == Apply(A, ws[..n])
    ensures B[k := v] == Apply(A, ws[..n + 1])
  {
    ApplyStep(A, ws, n);
  }

  lemma ApplyOne(A: map<Key, real>, w: Write)
    ensures Apply(A, [w]) == Perform(A, w)
  {
    assert [w][..0] == [];
  }

  lemma ApplyTwo(A: map<Key, real>, w0: Write, w1: Write)
    ensures Apply(A, [w0, w1]) == Perform(Perform(A, w0), w1)
  {
    assert [w0, w1][..1] == [w0];
    ApplyOne(A, w0);
  }

  lemma ApplyThree(A: map<Key, real>, w0: Write, w1: Write, w2: Write)
    ensures Apply(A, [w0, w1, w2]) == Perform(Perform(Perform(A, w0), w1), w2)
  {
    assert [w0, w1, w2][..2] == [w0, w1];
    ApplyTwo(A, w0, w1);
  }

  lemma ApplyFour(A: map<Key, real>, w0: Write, w1: Write, w2: Write, w3: Write)
    ensures Apply(A, [w0, w1, w2, w3]) == Perform(Perform(Perform(Perform(A, w0), w1), w2), w3)
  {
    assert [w0, w1, w2, w3][..3] == [w0, w1, w2];
    ApplyThree(A, w0, w1, w2);
  }

  lemma {:induction false} ApplyConcat(A: map<Key, real>, ws1: seq<Write>, ws2: seq<Write>)
    ensures Apply(A, ws1 + ws2) == Apply(Apply(A, ws1), ws2)
    decreases |ws2|
  {
    if ws2 == [] {
      assert ws1 + ws2 == ws1;
    } else {
      var front := ws2[..|ws2| - 1];
      assert (ws1 + ws2)[..|ws1 + ws2| - 1] == ws1 + front;
      assert (ws1 + ws2)[|ws1 + ws2| - 1] == ws2[|ws2| - 1];
      ApplyConcat(A, ws1, front);
    }
  }

  /** The sum of the values that `ws` writes: 1 for a rule whose weights form a partition of unity. */
  function WeightSum(ws: seq<Write>): real
    decreases |ws|
  {
    if ws == [] then 0.0 else ws[0].value + WeightSum(ws[1..])
  }

  lemma WeightSumTwo(w0: Write, w1: Write)
    ensures WeightSum([w0, w1]) == w0.value + w1.value
  {
    assert [w0, w1][1..] == [w1];
    assert [w1][1..] == [];
    assert WeightSum([w1]) == w1.value + WeightSum([]);
  }

  lemma WeightSumThree(w0: Write, w1: Write, w2: Write)
    ensures WeightSum([w0, w1, w2]) == w0.value + w1.value + w2.value
  {
    assert [w0, w1, w2][1..] == [w1, w2];
    WeightSumTwo(w1, w2);
  }

  lemma WeightSumFour(w0: Write, w1: Write, w2: Write, w3: Write)
    ensures WeightSum([w0, w1, w2, w3]) == w0.value + w1.value + w2.value + w3.value
  {
    assert [w0, w1, w2, w3][1..] == [w1, w2, w3];
    WeightSumThree(w1, w2, w3);
  }

  /** Writes that all carry the value `c` sum to `|ws| * c`. */
  lemma {:induction false} UniformSum(ws: seq<Write>, c: real)
    requires forall k :: 0 <= k < |ws| ==> ws[k].value == c
    ensures WeightSum(ws) == (|ws| as real) * c
    decreases |ws|
  {
    if ws != [] {
      UniformSum(ws[1..], c);
    }
  }

  /** The entries of row `r`. */
  function Row(A: map<Key, real>, r: int): map<Key, real> {
    map k | k in A && k.0 == r :: A[k]
  }

  /** The writes of `ws` that touch row `r`, in order. */
  function Filter(ws: seq<Write>, r: int): seq<Write>
    decreases |ws|
  {
    if ws == [] then []
    else Filter(ws[..|ws| - 1], r) + (if ws[|ws| - 1].key.0 == r then [ws[|ws| - 1]] else [])
  }

  lemma {:induction false} FilterConcat(ws1: seq<Write>, ws2: seq<Write>, r: int)
    ensures Filter(ws1 + ws2, r) == Filter(ws1, r) + Filter(ws2, r)
    decreases |ws2|
  {
    if ws2 == [] {
      assert ws1 + ws2 == ws1;
    } else {
      var front := ws2[..|ws2| - 1];
      assert (ws1 + ws2)[..|ws1 + ws2| - 1] == ws1 + front;
      assert (ws1 + ws2)[|ws1 + ws2| - 1] == ws2[|ws2| - 1];
      FilterConcat(ws1, front, r);
    }
  }

  /** Every write of `ws` is to row `r`. */
  predicate OnRow(ws: seq<Write>, r: int) {
    forall k :: 0 <= k < |ws| ==> ws[k].key.0 == r
  }

  /** Filtering a row's own writes keeps them all; filtering them for another row keeps none. */
  lemma {:induction false} FilterOnRow(ws: seq<Write>, r: int, q: int)
    requires OnRow(ws, r)
    ensures Filter(ws, q) == if q == r then ws else []
    decreases |ws|
  {
    if ws != [] {
      var front := ws[..|ws| - 1];
      FilterOnRow(front, r, q);
      assert ws == front + [ws[|ws| - 1]];
    }
  }

  lemma RowPerform(B: map<Key, real>, w: Write, r: int)
    ensures Row(Perform(B, w), r) == if w.key.0 == r then Perform(Row(B, r), w) else Row(B, r)
  {
    if w.key.0 == r {
      assert Get(Row(B, r), w.key) == Get(B, w.key);
    }
  }

  /** A row of the table depends only on the writes to that row. */
  lemma {:induction false} ApplyRow(A: map<Key, real>, ws: seq<Write>, r: int)
    ensures Row(Apply(A, ws), r) == Apply(Row(A, r), Filter(ws, r))
    decreases |ws|
  {
    if ws != [] {
      var front, w := ws[..|ws| - 1], ws[|ws| - 1];
      ApplyRow(A, front, r);
      RowPerform(Apply(A, front), w, r);
      if w.key.0 == r {
        assert Filter(ws, r) == Filter(front, r) + [w];
        ApplyConcat(Row(A, r), Filter(front, r), [w]);
        assert [w][..0] == [];
      } else {
        assert Filter(ws, r) == Filter(front, r) + [];
        assert Filter(front, r) + [] == Filter(front, r);
      }
    }
  }

  /** `rows(0) + rows(1) + ... + rows(k - 1)`: the writes of a loop over `k` items. */
  function Concat(rows: int -> seq<Write>, k: nat): seq<Write>
    decreases k
  {
    if k == 0 then [] else Concat(rows, k - 1) + rows(k - 1)
  }

  /** Item `i` of the loop writes only to row `base + i`. */
  ghost predicate RowsAt(rows: int -> seq<Write>, base: int, k: nat) {
    forall i :: 0 <= i < k ==> OnRow(rows(i), base + i)
  }

  lemma {:induction false} FilterRows(rows: int -> seq<Write>, base: int, k: nat, r: int)
    requires RowsAt(rows, base, k)
    ensures Filter(Concat(rows, k), r) == if base <= r < base + k then rows(r - base) else []
    decreases k
  {
    if k > 0 {
      FilterRows(rows, base, k - 1, r);
      FilterConcat(Concat(rows, k - 1), rows(k - 1), r);
      FilterOnRow(rows(k - 1), base + k - 1, r);
      if r == base + k - 1 {
        assert [] + rows(k - 1) == rows(k - 1);
      } else {
        assert Filter(Concat(rows, k - 1), r) + [] == Filter(Concat(rows, k - 1), r);
      }
    }
  }

  /** A table built from empty by two loops whose items own consecutive rows: row `r` is exactly what
      the item owning it writes, performed on an empty row. */
  lemma TwoLoopRows(nodeRows: int -> seq<Write>, n: nat, edgeRows: int -> seq<Write>, m: nat, r: int)
    requires RowsAt(nodeRows, 0, n) && RowsAt(edgeRows, n, m)
    ensures Row(Apply(map[], Concat(nodeRows, n) + Concat(edgeRows, m)), r) ==
      if 0 <= r < n then Apply(map[], nodeRows(r))
      else if n <= r < n + m then Apply(map[], edgeRows(r - n))
      else map[]
  {
    var nw, ew := Concat(nodeRows, n), Concat(edgeRows, m);
    ApplyRow(map[], nw + ew, r);
    FilterConcat(nw, ew, r);
    FilterRows(nodeRows, 0, n, r);
    FilterRows(edgeRows, n, m, r);
    assert Row(map[], r) == map[];
    if 0 <= r < n {
      assert Filter(nw, r) + Filter(ew, r) == nodeRows(r) + [];
      assert nodeRows(r) + [] == nodeRows(r);
    } else {
      assert Filter(nw, r) + Filter(ew, r) == [] + Filter(ew, r);
      assert [] + Filter(ew, r) == Filter(ew, r);
    }
  }

  /** `TwoLoopRows` for row `n + s` of the second loop. */
  lemma SecondLoopRow(nr: int -> seq<Write>, n: nat, er: int -> seq<Write>, m: nat, s: nat)
    requires RowsAt(nr, 0, n) && RowsAt(er, n, m) && s < m
    ensures Row(Apply(map[], Concat(nr, n) + Concat(er, m)), n + s) == Apply(map[], er(s))
  {
    TwoLoopRows(nr, n, er, m, n + s);
    assert n + s - n == s;
  }

  predicate InShape(k: Key, rows: int, cols: int) { 0 <= k.0 < rows && 0 <= k.1 < cols }

  /** Every write of `ws` lands in the `rows x cols` shape. */
  predicate WritesInShape(ws: seq<Write>, rows: int, cols: int) {
    forall k :: 0 <= k < |ws| ==> InShape(ws[k].key, rows, cols)
  }

  lemma {:induction false} ConcatInShape(rows: int -> seq<Write>, k: nat, R: int, C: int)
    requires forall i :: 0 <= i < k ==> WritesInShape(rows(i), R, C)
    ensures WritesInShape(Concat(rows, k), R, C)
    decreases k
  {
    if k > 0 {
      ConcatInShape(rows, k - 1, R, C);
      var front, last := Concat(rows, k - 1), rows(k - 1);
      assert WritesInShape(last, R, C);
      forall j | 0 <= j < |front + last| ensures InShape((front + last)[j].key, R, C) {
        if j >= |front| {
          assert (front + last)[j] == last[j - |front|];
        }
      }
    }
  }

  /** A table that starts in shape stays in shape under writes that land in it. */
  lemma {:induction false} ApplyInShape(A: map<Key, real>, ws: seq<Write>, R: int, C: int)
    requires forall k :: k in A ==> InShape(k, R, C)
    requires WritesInShape(ws, R, C)
    ensures forall k :: k in Apply(A, ws) ==> InShape(k, R, C)
    decreases |ws|
  {
    if ws != [] {
      var front := ws[..|ws| - 1];
      assert WritesInShape(front, R, C) by {
        forall j | 0 <= j < |front| ensures InShape(front[j].key, R, C) {
          assert front[j] == ws[j];
        }
      }
      ApplyInShape(A, front, R, C);
      assert InShape(ws[|ws| - 1].key, R, C);
    }
  }
}
