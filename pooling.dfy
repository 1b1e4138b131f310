/**
  TopKPool: the index and matrix bookkeeping of `top_k_pool` and `norm_g`
  (models.py and methods.py hold the same code, except that the methods.py
  `top_k_pool` squeezes its scores first). Scores are given; the
  learned layers that produce them are not part of this model.
*/
module Pooling {
  import opened Tensors
  import GraphBuilder

  // ---------------------------------------------------------------------------
  // How many nodes survive: max(2, int(ratio * N))
  // ---------------------------------------------------------------------------

  /** Python's `int()` of a number: truncation toward zero. */
  function Trunc(x: real): (t: int)
    ensures x >= 0.0 ==> t as real <= x < t as real + 1.0
    ensures x < 0.0 ==> t as real - 1.0 < x <= t as real
  {
    if x >= 0.0 then x.Floor else -((-x).Floor)
  }

  /**
    `max(2, int(ratio * num_nodes))`: never fewer than two, and otherwise the
    product truncated, not rounded.
  */
  function KeepCount(ratio: real, n: nat): (k: nat)
    ensures k >= 2
    ensures ratio * n as real < 3.0 ==> k == 2
    ensures ratio * n as real >= 2.0 ==> k as real <= ratio * n as real < k as real + 1.0
  {
    var t := Trunc(ratio * n as real);
    if t < 2 then 2 else t
  }

  /** A ratio of 0.7 on five nodes keeps three, where rounding would keep four. */
  lemma KeepCountTruncates()
    ensures KeepCount(0.7, 5) == 3
    ensures KeepCount(0.6, 5) == 3
    ensures KeepCount(0.8, 1) == 2
  {
  }

  // ---------------------------------------------------------------------------
  // torch.topk
  // ---------------------------------------------------------------------------

  /**
    `idx` is an admissible answer of `torch.topk(scores, k)`: k distinct
    positions, in non-increasing score order, none outscored by a position left
    out. Which of several equal-score positions is returned is not fixed.
  */
  predicate IsTopK(scores: seq<real>, k: nat, idx: seq<nat>) {
    && |idx| == k
    && AllBelow(idx, |scores|)
    && Distinct(idx)
    && (forall a, b :: 0 <= a < b < k ==> scores[idx[a]] >= scores[idx[b]])
    && (forall j, u :: 0 <= j < k && 0 <= u < |scores| && u !in idx ==> scores[idx[j]] >= scores[u])
  }

  /** The best-scoring position below n that is not excluded, if there is one. */
  function BestBelow(scores: seq<real>, excluded: seq<nat>, n: nat): (r: Option<nat>)
    requires n <= |scores|
    ensures r.None? <==> forall u :: 0 <= u < n ==> u in excluded
    ensures r.Some? ==> r.value < n && r.value !in excluded
    ensures r.Some? ==> forall u :: 0 <= u < n && u !in excluded ==> scores[r.value] >= scores[u]
  {
    if n == 0 then None
    else
      var rest := BestBelow(scores, excluded, n - 1);
      if n - 1 in excluded then rest
      else if rest.None? || scores[n - 1] > scores[rest.value] then Some(n - 1)
      else rest
  }

  /** The positions a sequence mentions, as a set: no more of them than the sequence is long. */
  function Elements(s: seq<nat>): (r: set<nat>)
    ensures forall x :: x in r <==> x in s
    ensures |r| <= |s|
  {
    if |s| == 0 then {}
    else
      var init := s[..|s| - 1];
      assert s == init + [s[|s| - 1]];
      Elements(init) + {s[|s| - 1]}
  }

  lemma CardSplit(a: set<nat>, b: set<nat>)
    ensures |a| <= |a - b| + |b|
  {
    assert a == (a - b) + (a * b);
    assert a * b <= b;
  }

  /** Pigeonhole: fewer than n positions cannot cover all of 0..n-1. */
  lemma SomePositionLeft(scores: seq<real>, excluded: seq<nat>)
    requires |excluded| < |scores|
    ensures BestBelow(scores, excluded, |scores|).Some?
  {
    var all, taken := Range(|scores|), Elements(excluded);
    CardSplit(all, taken);
    var u :| u in all - taken;
    assert u < |scores| && u !in excluded;
  }

  /**
    One admissible `torch.topk`: repeatedly take the best position not yet
    taken (the lowest such position on a tie).
  */
  function TopK(scores: seq<real>, k: nat): (idx: seq<nat>)
    requires k <= |scores|
    ensures IsTopK(scores, k, idx)
    decreases k
  {
    if k == 0 then []
    else
      var prev := TopK(scores, k - 1);
      SomePositionLeft(scores, prev);
      prev + [BestBelow(scores, prev, |scores|).value]
  }

  // ---------------------------------------------------------------------------
  // Walks of exactly three edges: bool(A . (A . A))
  // ---------------------------------------------------------------------------

  /** `g.bool().float()` as an integer 0/1 matrix. */
  function Indicator(a: seq<seq<bool>>): (m: seq<seq<int>>)
    ensures |m| == |a|
    ensures forall i :: 0 <= i < |a| ==> |m[i]| == |a[i]|
    ensures forall i, j :: 0 <= i < |a| && 0 <= j < |a[i]| ==> m[i][j] == if a[i][j] then 1 else 0
  {
    seq(|a|, i requires 0 <= i < |a| =>
      seq(|a[i]|, j requires 0 <= j < |a[i]| => if a[i][j] then 1 else 0))
  }

  predicate NonNegative(m: seq<seq<int>>) {
    forall i, j :: 0 <= i < |m| && 0 <= j < |m[i]| ==> m[i][j] >= 0
  }

  /** The first t terms of the dot product of row i of a with column j of b. */
  function PartialDot(a: seq<seq<int>>, b: seq<seq<int>>, i: nat, j: nat, t: nat): int
    requires i < |a| && t <= |a[i]| && t <= |b|
    requires forall k :: 0 <= k < t ==> j < |b[k]|
    decreases t
  {
    if t == 0 then 0 else PartialDot(a, b, i, j, t - 1) + a[i][t - 1] * b[t - 1][j]
  }

  /** A sum of nonnegative products is positive iff one of its products is. */
  lemma {:induction false} PartialDotPositive(a: seq<seq<int>>, b: seq<seq<int>>, i: nat, j: nat, t: nat)
    requires i < |a| && t <= |a[i]| && t <= |b|
    requires forall k :: 0 <= k < t ==> j < |b[k]|
    requires NonNegative(a) && NonNegative(b)
    ensures PartialDot(a, b, i, j, t) >= 0
    ensures PartialDot(a, b, i, j, t) > 0 <==> exists k :: 0 <= k < t && a[i][k] > 0 && b[k][j] > 0
  {
    if t > 0 {
      PartialDotPositive(a, b, i, j, t - 1);
      assert a[i][t - 1] >= 0 && b[t - 1][j] >= 0;
      assert a[i][t - 1] * b[t - 1][j] >= 0;
      if a[i][t - 1] > 0 && b[t - 1][j] > 0 {
        assert a[i][t - 1] * b[t - 1][j] > 0;
      } else {
        assert a[i][t - 1] * b[t - 1][j] == 0;
      }
    }
  }

  /** `torch.matmul` of two n x n integer matrices. */
  function MatMul(a: seq<seq<int>>, b: seq<seq<int>>, n: nat): (c: seq<seq<int>>)
    requires IsMatrix(a, n, n) && IsMatrix(b, n, n)
    ensures IsMatrix(c, n, n)
  {
    seq(n, i requires 0 <= i < n => seq(n, j requires 0 <= j < n => PartialDot(a, b, i, j, n)))
  }

  /** Entry (i, j) of a product of nonnegative matrices is positive iff some k has both factors positive. */
  lemma MatMulPositive(a: seq<seq<int>>, b: seq<seq<int>>, n: nat, i: nat, j: nat)
    requires IsMatrix(a, n, n) && IsMatrix(b, n, n) && NonNegative(a) && NonNegative(b)
    requires i < n && j < n
    ensures MatMul(a, b, n)[i][j] >= 0
    ensures MatMul(a, b, n)[i][j] > 0 <==> exists k :: 0 <= k < n && a[i][k] > 0 && b[k][j] > 0
  {
    PartialDotPositive(a, b, i, j, n);
  }

  lemma MatMulNonNegative(a: seq<seq<int>>, b: seq<seq<int>>, n: nat)
    requires IsMatrix(a, n, n) && IsMatrix(b, n, n) && NonNegative(a) && NonNegative(b)
    ensures NonNegative(MatMul(a, b, n))
  {
    forall i, j | 0 <= i < n && 0 <= j < n ensures MatMul(a, b, n)[i][j] >= 0 {
      MatMulPositive(a, b, n, i, j);
    }
  }

  /** `A · (A · A)` over the integers: entry (i, j) counts the walks of three edges from i to j. */
  function WalkCounts(a: seq<seq<bool>>, n: nat): (p: seq<seq<int>>)
    requires IsMatrix(a, n, n)
    ensures IsMatrix(p, n, n)
  {
    var m := Indicator(a);
    MatMul(m, MatMul(m, m, n), n)
  }

  /** A directed walk i -> k -> l -> j of exactly three edges. */
  predicate Walk3(a: seq<seq<bool>>, n: nat, i: nat, j: nat)
    requires IsMatrix(a, n, n) && i < n && j < n
  {
    exists k, l :: 0 <= k < n && 0 <= l < n && a[i][k] && a[k][l] && a[l][j]
  }

  /**
    g is a k x k matrix over the selected positions idx whose entry (a, b) is
    positive exactly when a walk of three edges leads from idx[a] to idx[b],
    and zero otherwise.
  */
  predicate LinksThreeWalks(adj: seq<seq<bool>>, n: nat, idx: seq<nat>, g: seq<seq<real>>)
    requires IsMatrix(adj, n, n) && AllBelow(idx, n)
  {
    && IsMatrix(g, |idx|, |idx|)
    && forall a, b :: 0 <= a < |idx| && 0 <= b < |idx| ==>
         (g[a][b] > 0.0 <==> Walk3(adj, n, idx[a], idx[b])) &&
         (g[a][b] == 0.0 <==> !Walk3(adj, n, idx[a], idx[b]))
  }

  /** Entry (i, j) of the walk count is non-zero iff a walk of exactly three edges leads from i to j. */
  lemma WalkCountPositive(a: seq<seq<bool>>, n: nat, i: nat, j: nat)
    requires IsMatrix(a, n, n) && i < n && j < n
    ensures WalkCounts(a, n)[i][j] != 0 <==> Walk3(a, n, i, j)
  {
    var m := Indicator(a);
    assert NonNegative(m);
    var m2 := MatMul(m, m, n);
    MatMulNonNegative(m, m, n);
    MatMulPositive(m, m2, n, i, j);
    if WalkCounts(a, n)[i][j] != 0 {
      var k :| 0 <= k < n && m[i][k] > 0 && m2[k][j] > 0;
      MatMulPositive(m, m, n, k, j);
      var l :| 0 <= l < n && m[k][l] > 0 && m[l][j] > 0;
      assert a[i][k] && a[k][l] && a[l][j];
    }
    if Walk3(a, n, i, j) {
      var k, l :| 0 <= k < n && 0 <= l < n && a[i][k] && a[k][l] && a[l][j];
      MatMulPositive(m, m, n, k, j);
      assert m2[k][j] > 0;
      assert m[i][k] > 0;
    }
  }

  /**
    `bool(A . (A . A))`, the unnormalised coarse graph over all n nodes:
    entry (i, j) is set iff a walk of exactly three edges leads from i to j.
  */
  function ThreeWalks(a: seq<seq<bool>>, n: nat): (w: seq<seq<bool>>)
    requires IsMatrix(a, n, n)
    ensures IsMatrix(w, n, n)
    ensures forall i, j :: 0 <= i < n && 0 <= j < n ==> (w[i][j] <==> Walk3(a, n, i, j))
  {
    var p := WalkCounts(a, n);
    forall i, j | 0 <= i < n && 0 <= j < n ensures p[i][j] != 0 <==> Walk3(a, n, i, j) {
      WalkCountPositive(a, n, i, j);
    }
    seq(n, i requires 0 <= i < n => seq(n, j requires 0 <= j < n => p[i][j] != 0))
  }

  /** `un_g[idx, :][:, idx]`: the rows and columns at the selected positions. */
  function Restrict<T>(m: seq<seq<T>>, n: nat, idx: seq<nat>): (r: seq<seq<T>>)
    requires IsMatrix(m, n, n) && AllBelow(idx, n)
    ensures IsMatrix(r, |idx|, |idx|)
    ensures forall a, b :: 0 <= a < |idx| && 0 <= b < |idx| ==> r[a][b] == m[idx[a]][idx[b]]
  {
    seq(|idx|, a requires 0 <= a < |idx| => seq(|idx|, b requires 0 <= b < |idx| => m[idx[a]][idx[b]]))
  }

  // ---------------------------------------------------------------------------
  // norm_g: row normalisation over exact reals
  // ---------------------------------------------------------------------------

  const Epsilon: real := 0.00000001

  function RowSum(row: seq<real>): real
  {
    if |row| == 0 then 0.0 else row[0] + RowSum(row[1..])
  }

  lemma {:induction false} RowSumNonNegative(row: seq<real>)
    requires forall t :: 0 <= t < |row| ==> row[t] >= 0.0
    ensures RowSum(row) >= 0.0
    ensures RowSum(row) == 0.0 <==> forall t :: 0 <= t < |row| ==> row[t] == 0.0
  {
    if |row| > 0 {
      RowSumNonNegative(row[1..]);
      assert forall t :: 1 <= t < |row| ==> row[t] == row[1..][t - 1];
    }
  }

  predicate NonNegativeReal(m: seq<seq<real>>) {
    forall i, j :: 0 <= i < |m| && 0 <= j < |m[i]| ==> m[i][j] >= 0.0
  }

  function NormRow(row: seq<real>): (r: seq<real>)
    requires forall t :: 0 <= t < |row| ==> row[t] >= 0.0
  {
    RowSumNonNegative(row);
    var d := RowSum(row) + Epsilon;
    seq(|row|, t requires 0 <= t < |row| => row[t] / d)
  }

  /**
    `norm_g` over exact reals: each entry divided by its row's sum plus 1e-8.
    The shape is kept, an entry is zero exactly where it was zero, an
    all-zero row stays all zero, and, because the 1e-8 is kept exactly,
    nothing is negative or reaches one.
  */
  function NormG(m: seq<seq<real>>): (r: seq<seq<real>>)
    requires NonNegativeReal(m)
    ensures |r| == |m| && forall i :: 0 <= i < |m| ==> |r[i]| == |m[i]|
    ensures forall i, j :: 0 <= i < |m| && 0 <= j < |m[i]| ==>
      0.0 <= r[i][j] < 1.0 && (r[i][j] == 0.0 <==> m[i][j] == 0.0)
    ensures forall i :: 0 <= i < |m| && RowSum(m[i]) == 0.0 ==> forall j :: 0 <= j < |m[i]| ==> r[i][j] == 0.0
  {
    var r := seq(|m|, i requires 0 <= i < |m| => NormRow(m[i]));
    forall i, j | 0 <= i < |m| && 0 <= j < |m[i]|
      ensures 0.0 <= r[i][j] < 1.0 && (r[i][j] == 0.0 <==> m[i][j] == 0.0)
    {
      EntryBelowRowSum(m[i], j);
    }
    forall i | 0 <= i < |m| && RowSum(m[i]) == 0.0
      ensures forall j :: 0 <= j < |m[i]| ==> r[i][j] == 0.0
    {
      RowSumNonNegative(m[i]);
    }
    r
  }

  lemma {:induction false} EntryBelowRowSum(row: seq<real>, j: nat)
    requires forall t :: 0 <= t < |row| ==> row[t] >= 0.0
    requires j < |row|
    ensures row[j] <= RowSum(row)
    ensures RowSum(row) >= 0.0
    ensures 0.0 <= NormRow(row)[j] < 1.0 && (NormRow(row)[j] == 0.0 <==> row[j] == 0.0)
  {
    RowSumNonNegative(row);
    if j > 0 {
      EntryBelowRowSum(row[1..], j - 1);
    } else if |row| > 1 {
      RowSumNonNegative(row[1..]);
    }
    var d := RowSum(row) + Epsilon;
    assert NormRow(row)[j] == row[j] / d;
    QuotientBelowOne(row[j], d);
  }

  lemma QuotientBelowOne(x: real, d: real)
    requires 0.0 <= x < d
    ensures 0.0 <= x / d < 1.0
    ensures x / d == 0.0 <==> x == 0.0
  {
    assert d / d == 1.0;
    DivMonotone(x, d, d);
  }

  lemma DivMonotone(x: real, y: real, d: real)
    requires d > 0.0 && x < y
    ensures x / d < y / d
  {
  }

  /**
    Over exact reals, each row of `norm_g` sums to s / (s + 1e-8), where s is
    the original row's sum: below one for a row with an edge, zero for an
    empty row.
  */
  lemma NormGRowSum(m: seq<seq<real>>, i: nat)
    requires NonNegativeReal(m) && i < |m|
    ensures RowSum(m[i]) >= 0.0
    ensures RowSum(NormG(m)[i]) == RowSum(m[i]) / (RowSum(m[i]) + Epsilon)
  {
    var row := m[i];
    RowSumNonNegative(row);
    RowSumDivided(row, RowSum(row) + Epsilon);
    assert NormG(m)[i] == NormRow(row);
  }

  lemma {:induction false} RowSumDivided(row: seq<real>, d: real)
    requires d > 0.0
    ensures RowSum(seq(|row|, t requires 0 <= t < |row| => row[t] / d)) == RowSum(row) / d
  {
    var q := seq(|row|, t requires 0 <= t < |row| => row[t] / d);
    if |row| > 0 {
      RowSumDivided(row[1..], d);
      assert q[1..] == seq(|row[1..]|, t requires 0 <= t < |row[1..]| => row[1..][t] / d);
    }
  }

  // ---------------------------------------------------------------------------
  // top_k_pool
  // ---------------------------------------------------------------------------

  /** What `top_k_pool` returns: the coarse graph, the pooled features, the selection. */
  datatype Pooled = Pooled(g: seq<seq<real>>, h: seq<seq<real>>, idx: seq<nat>)

  /**
    `top_k_pool(scores, edge_index, h, ratio)`: select the top-scoring
    positions, gather and weight their feature rows, and build the normalised
    three-walk graph among them. It fails exactly when it must select more
    positions than there are nodes (N = 0 or 1 already), or when an edge
    endpoint lies outside [-N, N); the first check raises first. On success
    the selection is an admissible `torch.topk` of max(2, int(ratio * N)),
    row j of the features is feature row idx[j] times its score, and two kept
    nodes are linked exactly when a walk of three edges joins them.
  */
  function TopKPool(scores: seq<real>, edges: seq<Edge>, h: seq<seq<real>>, ratio: real): (r: Result<Pooled>)
    requires |scores| == |h|
    ensures r.Failure? <==> KeepCount(ratio, |h|) > |h| || !EdgesInBounds(edges, |h|)
    ensures KeepCount(ratio, |h|) > |h| ==> r == Failure(TopKOutOfRange)
    ensures KeepCount(ratio, |h|) <= |h| && !EdgesInBounds(edges, |h|) ==> r == Failure(IndexOutOfBounds)
    ensures |h| < 2 ==> r == Failure(TopKOutOfRange)
    ensures r.Success? ==>
      && IsTopK(scores, KeepCount(ratio, |h|), r.value.idx)
      && |r.value.h| == |r.value.idx|
      && forall j :: 0 <= j < |r.value.idx| ==> r.value.h[j] == ScaleRow(h[r.value.idx[j]], scores[r.value.idx[j]])
    ensures r.Success? ==>
      && GraphBuilder.AdjacencyOf(edges, Some(|h|)).Success?
      && LinksThreeWalks(GraphBuilder.AdjacencyOf(edges, Some(|h|)).value, |h|, r.value.idx, r.value.g)
  {
    var n := |h|;
    var k := KeepCount(ratio, n);
    if k > n then Failure(TopKOutOfRange)
    else
      var idx := TopK(scores, k);
      var newH := seq(k, j requires 0 <= j < k => ScaleRow(h[idx[j]], scores[idx[j]]));
      match GraphBuilder.AdjacencyOf(edges, Some(n))
      case Failure(e) => Failure(e)
      case Success(a) =>
        Success(Pooled(CoarseGraph(a, n, idx), newH, idx))
  }

  lemma {:induction false} DistinctElements(s: seq<nat>)
    requires Distinct(s)
    ensures |Elements(s)| == |s|
  {
    if |s| > 0 {
      var init := s[..|s| - 1];
      assert s == init + [s[|s| - 1]];
      DistinctElements(init);
      assert s[|s| - 1] !in init;
    }
  }

  /**
    With ratio 1, at least two nodes and every endpoint in [-N, N),
    `top_k_pool` succeeds and keeps every node: its selection is a reordering
    of 0..N-1.
  */
  lemma FullRatioKeepsEveryNode(scores: seq<real>, edges: seq<Edge>, h: seq<seq<real>>)
    requires |scores| == |h| >= 2
    requires EdgesInBounds(edges, |h|)
    ensures TopKPool(scores, edges, h, 1.0).Success?
    ensures |TopKPool(scores, edges, h, 1.0).value.idx| == |h|
    ensures forall u :: 0 <= u < |h| ==> u in TopKPool(scores, edges, h, 1.0).value.idx
  {
    assert KeepCount(1.0, |h|) == |h|;
    DistinctFullCover(TopKPool(scores, edges, h, 1.0).value.idx, |h|);
  }

  /** n distinct positions below n are all of 0..n-1. */
  lemma DistinctFullCover(idx: seq<nat>, n: nat)
    requires |idx| == n && AllBelow(idx, n) && Distinct(idx)
    ensures forall u :: 0 <= u < n ==> u in idx
  {
    var all, kept := Range(n), Elements(idx);
    DistinctElements(idx);
    assert all * kept == kept;
    assert |all - kept| == 0;
    forall u | 0 <= u < n ensures u in idx {
      assert u in all;
    }
  }

  /**
    `norm_g(un_g[idx, :][:, idx])` with `un_g = bool(A·(A·A))`: a k x k matrix
    whose entry (a, b) is positive exactly when a walk of exactly three edges
    leads from idx[a] to idx[b], and zero otherwise.
  */
  function CoarseGraph(adj: seq<seq<bool>>, n: nat, idx: seq<nat>): (g: seq<seq<real>>)
    requires IsMatrix(adj, n, n) && AllBelow(idx, n)
    ensures LinksThreeWalks(adj, n, idx, g)
  {
    NormG(ToReal(Restrict(ThreeWalks(adj, n), n, idx)))
  }
}
