/**
  Shared vocabulary of the pooling core: the errors the tensor runtime raises,
  edge-list columns, torch's index rule and small row/matrix helpers.
  Feature and weight matrices are sequences of rows of exact reals; adjacency
  and reachability matrices, whose entries are only ever 0 or 1, are
  sequences of rows of booleans.
*/
module Tensors {

  datatype Option<T> = None | Some(value: T)

  /** The ways the tensor operations of the core can raise. */
  datatype Error =
    | EmptyReduction      // `max()` of a tensor with no elements
    | NegativeDimension   // `torch.zeros` asked for a negative size
    | IndexOutOfBounds    // an index outside [-n, n) of its dimension
    | TopKOutOfRange      // `torch.topk` asked for more elements than there are

  datatype Result<T> = Success(value: T) | Failure(error: Error)

  /** One column of a 2 x E `edge_index` tensor: the directed edge src -> dst. */
  datatype Edge = Edge(src: int, dst: int)

  /** torch accepts an integer index into a dimension of size n iff -n <= i < n. */
  predicate InBounds(i: int, n: int) {
    -n <= i < n
  }

  /** The position an accepted index refers to: negative indices count from the end. */
  function Wrap(i: int, n: int): (p: nat)
    requires InBounds(i, n)
    ensures p < n
    ensures i >= 0 ==> p == i
    ensures p % n == i % n
  {
    if i < 0 then i + n else i
  }

  /** Both endpoints of every column are accepted indices of an n x n matrix. */
  predicate EdgesInBounds(edges: seq<Edge>, n: int) {
    forall k :: 0 <= k < |edges| ==> InBounds(edges[k].src, n) && InBounds(edges[k].dst, n)
  }

  predicate IsMatrix<T>(m: seq<seq<T>>, rows: nat, cols: nat) {
    |m| == rows && forall i :: 0 <= i < |m| ==> |m[i]| == cols
  }

  predicate Distinct(s: seq<nat>) {
    forall a, b :: 0 <= a < b < |s| ==> s[a] != s[b]
  }

  predicate AllBelow(s: seq<nat>, n: nat) {
    forall j :: 0 <= j < |s| ==> s[j] < n
  }

  function Zeros(width: nat): (row: seq<real>)
    ensures |row| == width && forall c :: 0 <= c < width ==> row[c] == 0.0
  {
    seq(width, _ => 0.0)
  }

  /** `m[idx]`: the rows of m at the given positions, in that order. */
  function Gather<T>(m: seq<T>, idx: seq<nat>): (r: seq<T>)
    requires AllBelow(idx, |m|)
    ensures |r| == |idx| && forall j :: 0 <= j < |idx| ==> r[j] == m[idx[j]]
  {
    seq(|idx|, j requires 0 <= j < |idx| => m[idx[j]])
  }

  /** `row * c`: every entry of the row multiplied by one scalar. */
  function ScaleRow(row: seq<real>, c: real): (r: seq<real>)
    ensures |r| == |row| && forall t :: 0 <= t < |row| ==> r[t] == row[t] * c
  {
    seq(|row|, t requires 0 <= t < |row| => row[t] * c)
  }

  /** `range(n)` as a set: the positions 0..n-1, n of them. */
  function Range(n: nat): (r: set<nat>)
    ensures |r| == n
    ensures forall x: int :: x in r <==> 0 <= x < n
  {
    if n == 0 then {} else Range(n - 1) + {n - 1}
  }

  /** `.float()` of a boolean matrix. */
  function ToReal(m: seq<seq<bool>>): (r: seq<seq<real>>)
    ensures |r| == |m|
    ensures forall i :: 0 <= i < |m| ==> |r[i]| == |m[i]|
    ensures forall i, j :: 0 <= i < |m| && 0 <= j < |m[i]| ==> r[i][j] == if m[i][j] then 1.0 else 0.0
  {
    seq(|m|, i requires 0 <= i < |m| =>
      seq(|m[i]|, j requires 0 <= j < |m[i]| => if m[i][j] then 1.0 else 0.0))
  }
}
