/**
  The one place where methods.py's `top_k_pool` differs from models.py's: it
  squeezes its scores, an N x 1 column, to a vector before `torch.topk`.
*/
module Methods {
  import opened Tensors
  import Pooling
  import GraphBuilder

  /** `scores.squeeze()` of an N x 1 column: its single entries, in order. */
  function Squeeze(scores: seq<seq<real>>): (v: seq<real>)
    requires forall i :: 0 <= i < |scores| ==> |scores[i]| == 1
    ensures |v| == |scores| && forall i :: 0 <= i < |scores| ==> v[i] == scores[i][0]
  {
    seq(|scores|, i requires 0 <= i < |scores| => scores[i][0])
  }

  /**
    `top_k_pool(scores, edge_index, h, ratio)` of methods.py: it succeeds
    exactly when max(2, int(ratio * N)) <= N and every endpoint lies in
    [-N, N); then it keeps that many distinct positions, ranked by the
    squeezed scores, scales each kept feature row by its own score, and links
    two kept nodes exactly when a walk of three edges joins them (zero
    elsewhere). The count check raises before the endpoint check.
  */
  function TopKPoolSqueezed(scores: seq<seq<real>>, edges: seq<Edge>, h: seq<seq<real>>, ratio: real)
    : (r: Result<Pooling.Pooled>)
    requires |scores| == |h|
    requires forall i :: 0 <= i < |scores| ==> |scores[i]| == 1
    ensures r.Success? <==> Pooling.KeepCount(ratio, |h|) <= |h| && EdgesInBounds(edges, |h|)
    ensures Pooling.KeepCount(ratio, |h|) > |h| ==> r == Failure(TopKOutOfRange)
    ensures Pooling.KeepCount(ratio, |h|) <= |h| && !EdgesInBounds(edges, |h|) ==> r == Failure(IndexOutOfBounds)
    ensures r.Success? ==>
      && Pooling.IsTopK(Squeeze(scores), Pooling.KeepCount(ratio, |h|), r.value.idx)
      && |r.value.h| == |r.value.idx|
      && forall j :: 0 <= j < |r.value.idx| ==>
           r.value.h[j] == ScaleRow(h[r.value.idx[j]], scores[r.value.idx[j]][0])
    ensures r.Success? ==>
      && GraphBuilder.AdjacencyOf(edges, Some(|h|)).Success?
      && Pooling.LinksThreeWalks(GraphBuilder.AdjacencyOf(edges, Some(|h|)).value, |h|, r.value.idx, r.value.g)
  {
    Pooling.TopKPool(Squeeze(scores), edges, h, ratio)
  }

  /**
    A single node cannot be pooled: squeezing its 1 x 1 score leaves one
    score, and two are always asked for.
  */
  lemma SingleNodeCannotBePooled(score: real, edges: seq<Edge>, row: seq<real>, ratio: real)
    ensures TopKPoolSqueezed([[score]], edges, [row], ratio) == Failure(TopKOutOfRange)
  {
  }
}
