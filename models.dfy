/**
  The parts of models.py that are its own: the edge restriction at the end of
  `Pool.forward` and the `Unpool` layer. `top_k_pool`, `adjacency_matrix`,
  `norm_g` and `edge_index_to_nx_graph` are shared with methods.py and live in
  Pooling and GraphBuilder.
*/
module Models {
  import opened Tensors
  import Pooling

  // ---------------------------------------------------------------------------
  // Pool.forward
  // ---------------------------------------------------------------------------

  /**
    `edge_index[:, idx]`: the edge-list columns at the given positions. The
    positions are node positions used as column positions, so the result need
    not be the edges among the kept nodes; it is exactly |idx| columns.
  */
  function RestrictEdges(edges: seq<Edge>, idx: seq<nat>): (r: Result<seq<Edge>>)
    ensures r.Failure? <==> exists j :: 0 <= j < |idx| && idx[j] >= |edges|
    ensures r.Failure? ==> r.error == IndexOutOfBounds
    ensures r.Success? ==> |r.value| == |idx| && forall j :: 0 <= j < |idx| ==> r.value[j] == edges[idx[j]]
  {
    if AllBelow(idx, |edges|) then Success(Gather(edges, idx)) else Failure(IndexOutOfBounds)
  }

  /**
    The columns are picked by position, not by endpoint: with nodes 0 and 2
    kept out of 0, 1, 2, the result holds the column (1, 2) that touches the
    dropped node 1, and loses the column (2, 0) between two kept nodes.
  */
  lemma RestrictEdgesPicksColumnsByPosition()
    ensures RestrictEdges([Edge(2, 0), Edge(0, 1), Edge(1, 2)], [2, 0])
         == Success([Edge(1, 2), Edge(2, 0)])
    ensures RestrictEdges([Edge(0, 1), Edge(1, 2), Edge(2, 0)], [2, 0])
         == Success([Edge(2, 0), Edge(0, 1)])
  {
    assert Gather([Edge(2, 0), Edge(0, 1), Edge(1, 2)], [2, 0]) == [Edge(1, 2), Edge(2, 0)];
    assert Gather([Edge(0, 1), Edge(1, 2), Edge(2, 0)], [2, 0]) == [Edge(2, 0), Edge(0, 1)];
  }

  /** What `Pool.forward` returns: (g, h, idx, edge_index). */
  datatype PoolOutput = PoolOutput(g: seq<seq<real>>, h: seq<seq<real>>, idx: seq<nat>, edges: seq<Edge>)

  /**
    `Pool.forward(edge_index, h)` from the scores on: `top_k_pool`, then the
    edge restriction.
  */
  function PoolForward(scores: seq<real>, edges: seq<Edge>, h: seq<seq<real>>, ratio: real): (r: Result<PoolOutput>)
    requires |scores| == |h|
    ensures r.Success? <==>
      Pooling.TopKPool(scores, edges, h, ratio).Success? &&
      AllBelow(Pooling.TopKPool(scores, edges, h, ratio).value.idx, |edges|)
    ensures r.Success? ==>
      var p := Pooling.TopKPool(scores, edges, h, ratio).value;
      && r.value.g == p.g && r.value.h == p.h && r.value.idx == p.idx
      && Pooling.IsTopK(scores, Pooling.KeepCount(ratio, |h|), r.value.idx)
      && |r.value.edges| == Pooling.KeepCount(ratio, |h|)
      && forall j :: 0 <= j < |r.value.idx| ==> r.value.edges[j] == edges[r.value.idx[j]]
  {
    match Pooling.TopKPool(scores, edges, h, ratio)
    case Failure(e) => Failure(e)
    case Success(p) =>
      match RestrictEdges(edges, p.idx)
      case Failure(e) => Failure(e)
      case Success(kept) => Success(PoolOutput(p.g, p.h, p.idx, kept))
  }

  /**
    `Pool.forward` needs at least as many edge columns as the largest kept
    node position: with fewer edges than nodes, a selection that keeps the
    last node makes the edge restriction fail.
  */
  lemma PoolForwardNeedsEnoughColumns(scores: seq<real>, edges: seq<Edge>, h: seq<seq<real>>, ratio: real)
    requires |scores| == |h|
    requires |edges| < |h|
    ensures var p := Pooling.TopKPool(scores, edges, h, ratio);
      p.Success? && |h| - 1 in p.value.idx ==> PoolForward(scores, edges, h, ratio).Failure?
  {
    var p := Pooling.TopKPool(scores, edges, h, ratio);
    if p.Success? && |h| - 1 in p.value.idx {
      var j :| 0 <= j < |p.value.idx| && p.value.idx[j] == |h| - 1;
      assert p.value.idx[j] >= |edges|;
    }
  }

  // ---------------------------------------------------------------------------
  // Unpool.forward
  // ---------------------------------------------------------------------------

  /**
    `idx_prime`: the entries of idx that are not in range(m), in order; it
    holds every such entry and nothing else.
  */
  function OutOfRange(idx: seq<nat>, m: nat): (r: seq<nat>)
    ensures forall x :: x in r ==> x in idx && x >= m
    ensures forall j :: 0 <= j < |idx| && idx[j] >= m ==> idx[j] in r
  {
    if |idx| == 0 then []
    else
      var rest := OutOfRange(idx[1..], m);
      assert forall j :: 1 <= j < |idx| ==> idx[j] == idx[1..][j - 1];
      if idx[0] >= m then [idx[0]] + rest else rest
  }

  /** `idx_prime` is non-empty exactly when the scatter `new_h[idx] = h` has an index out of range. */
  lemma SynthesisListMeansScatterFails(idx: seq<nat>, m: nat)
    ensures OutOfRange(idx, m) != [] <==> !AllBelow(idx, m)
  {
    if OutOfRange(idx, m) != [] {
      assert OutOfRange(idx, m)[0] in OutOfRange(idx, m);
    }
  }

  /**
    `Unpool.forward(g, h, idx)`: a zero matrix with one row per row of g and
    h.shape[1] columns, with row j of h written back at row idx[j]. The scatter
    raises when some idx[j] is not a row of g; otherwise `idx_prime` is empty,
    so the synthesis loop never runs and the output is the scatter's.
  */
  method Unpool(g: seq<seq<real>>, h: seq<seq<real>>, width: nat, idx: seq<nat>) returns (r: Result<seq<seq<real>>>)
    requires |h| == |idx|
    requires forall j :: 0 <= j < |h| ==> |h[j]| == width
    ensures r.Failure? <==> !AllBelow(idx, |g|)
    ensures r.Failure? ==> r.error == IndexOutOfBounds
    ensures r.Success? ==> IsMatrix(r.value, |g|, width)
    ensures r.Success? ==> forall i :: 0 <= i < |g| && i !in idx ==> r.value[i] == Zeros(width)
    ensures r.Success? ==> forall i :: i in idx ==> exists j :: 0 <= j < |idx| && idx[j] == i && r.value[i] == h[j]
    ensures r.Success? && Distinct(idx) ==> Gather(r.value, idx) == h
  {
    var m := |g|;
    // a zero buffer, one row of h's width per row of g
    var buf := new seq<real>[m](_ => Zeros(width));
    // write the rows of h back at the positions idx
    for t := 0 to |idx|
      invariant AllBelow(idx[..t], m)
      invariant forall i :: 0 <= i < m ==> |buf[i]| == width
      invariant forall i :: 0 <= i < m && i !in idx[..t] ==> buf[i] == Zeros(width)
      invariant forall i :: 0 <= i < m && i in idx[..t] ==>
        exists j :: 0 <= j < t && idx[j] == i && buf[i] == h[j]
    {
      if idx[t] >= m {
        return Failure(IndexOutOfBounds);
      }
      assert idx[..t + 1] == idx[..t] + [idx[t]];
      buf[idx[t]] := h[t];
    }
    assert idx[..|idx|] == idx;
    // the entries of idx that are not rows of g
    var idxPrime := OutOfRange(idx, m);
    SynthesisListMeansScatterFails(idx, m);
    // the synthesis loop, which never runs
    for t := 0 to |idxPrime| {
      assert false;
    }
    ScatteredRowsGiveBack(buf[..], idx, h);
    r := Success(buf[..]);
  }

  /**
    When every position named in idx holds one of the rows written there, and
    no position repeats, gathering at idx gives back exactly the written rows.
  */
  lemma ScatteredRowsGiveBack(s: seq<seq<real>>, idx: seq<nat>, h: seq<seq<real>>)
    requires |h| == |idx| && AllBelow(idx, |s|)
    requires forall i :: i in idx ==> exists j :: 0 <= j < |idx| && idx[j] == i && s[i] == h[j]
    ensures Distinct(idx) ==> Gather(s, idx) == h
  {
    if Distinct(idx) {
      forall j0 | 0 <= j0 < |idx| ensures Gather(s, idx)[j0] == h[j0] {
        assert idx[j0] in idx;
        var j :| 0 <= j < |idx| && idx[j] == idx[j0] && s[idx[j0]] == h[j];
        assert j == j0;
      }
    }
  }
}
