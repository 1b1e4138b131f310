# Graph U-Net pooling bookkeeping, in Dafny

This project models the discrete core of the custom graph pooling and
unpooling layers of a graph U-Net for graph classification. It covers:

- the dense adjacency matrix built from a 2 x E edge list (`adjacency_matrix`);
- the undirected simple-graph view handed to the centrality library (`edge_index_to_nx_graph`);
- top-k pooling (`top_k_pool`): how many nodes are kept, which are kept, how their feature rows are gathered and weighted, and the coarse graph among them;
- row normalisation (`norm_g`);
- the edge-list restriction at the end of `Pool.forward`;
- the `Unpool` layer, which scatters pooled rows back into a zero matrix.

`models.py` and `methods.py` hold the same `adjacency_matrix`, `norm_g`,
`edge_index_to_nx_graph` and `top_k_pool`. The copies of `top_k_pool` differ in
two ways: the ratio parameter is called `k` in `models.py` and `ratio` in
`methods.py`, which changes nothing, and the `methods.py` copy squeezes its
scores first. One Dafny member
models both copies, and the table cites whichever copy states the property
best. `Methods.TopKPoolSqueezed` models the squeezing copy.

Modules:

- `Tensors` (tensors.dfy): errors the tensor runtime raises, edge columns, torch's index rule, row helpers.
- `GraphBuilder` (graph_builder.dfy): `adjacency_matrix` as a loop over a zero-filled array of rows, proved equal to a declarative reference `AdjacencyOf`. `edge_index_to_nx_graph` as a `SimpleGraph` class whose methods add nodes and undirected edges.
- `Pooling` (pooling.dfy): the keep count, an admissible `torch.topk`, the three-edge walk matrix `bool(A·(A·A))`, `norm_g` over exact reals, and `top_k_pool`.
- `Models` (models.dfy): `Pool.forward`'s edge restriction and `Unpool.forward` (a loop scattering rows into an array).
- `Methods` (methods.dfy): the squeezed `top_k_pool`.

Scores are an input sequence of reals; the learned layers that produce them
are not modelled. Feature rows are sequences of reals. Entries of the
adjacency and walk matrices are only ever 0 or 1, so they are booleans.
`torch.topk` does not specify which of several equal scores wins. The
contracts about the selection itself are stated through the predicate
`Pooling.IsTopK`, which admits any tie order. `Pooling.TopK` is one admissible
selection: it takes the lowest position on a tie. `Pooling.TopKPool` uses it,
so statements about what is done with the selection afterwards (the edge
restriction in `Models.PoolForward`) hold for that tie order.

What the code does that a reader may not expect:

- The keep count is `max(2, int(ratio * N))`: truncated, not rounded (`Pooling.KeepCountTruncates`: ratio 0.7 on 5 nodes keeps 3).
- torch indexing accepts negative endpoints in [-N, 0) and counts them from the end. Only endpoints outside [-N, N) raise.
- The coarse graph marks the pairs joined by a walk of exactly three edges, `bool(A·(A·A))`. Shorter walks do not count.
- `edge_index[:, idx]` picks the edge columns whose column numbers are the kept node positions. A kept column can touch a dropped node, a column between two kept nodes can be lost, and the endpoints keep their old numbering (`Models.RestrictEdgesPicksColumnsByPosition`).
- `Unpool` never synthesises rows for dropped nodes when its indices are nonnegative, as they are at both call sites, which pass `torch.topk` positions. Then its `idx_prime` list only collects indices that already made the scatter raise, so the synthesis loop never runs (`Models.SynthesisListMeansScatterFails`), and every row outside `idx` stays zero. A negative index would be wrapped by the scatter and still collected by `idx_prime`.
- The simple-graph view does not validate endpoints. An endpoint outside [0, N) becomes an extra node.

## Model

| member | source | states |
|---|---|---|
| `Tensors.Wrap` | models.py:68 | an accepted index in [-n, n) refers to a position below n; a nonnegative index to itself |
| `GraphBuilder.MaxEndpoint` | models.py:66 | `edge_index.max()` is at least every endpoint of every column and equals one of them |
| `GraphBuilder.Size` | models.py:65-67 | the side is `num_nodes` when given; otherwise it fails iff the list is empty (empty reduction) or every endpoint is below -1 (negative size), and on success every endpoint is below the side and some endpoint is the side minus one |
| `GraphBuilder.AdjacencyMatrix` | models.py:64-69 | the zero-fill-then-write loop returns exactly the reference matrix `AdjacencyOf`, or the same error |
| `GraphBuilder.MarkedExtend` | models.py:68 | writing one more column sets exactly the entry it addresses and changes no other entry |
| `GraphBuilder.AdjacencyEntries` | methods.py:85-90 | success iff the size is defined and every endpoint is in [-n, n); then an n x n matrix whose (i, j) is set iff some column addresses (i, j) |
| `GraphBuilder.AdjacencyOfNonnegativeEdges` | methods.py:88-89 | with endpoints in [0, n), entry (u, v) is set iff (u, v) is a column of the edge list |
| `GraphBuilder.AdjacencyNotSymmetrised` | models.py:67-68 | no symmetrisation: the list [(0, 1)] gives a 2 x 2 matrix with (0, 1) set and (1, 0) clear |
| `GraphBuilder.AdjacencySymmetricWhenListIs` | methods.py:88-89 | the matrix is symmetric when every column's reversal is also a column |
| `GraphBuilder.DefaultSizeFits` | methods.py:86-87 | without `num_nodes`, a non-empty list of nonnegative endpoints always succeeds, with side max endpoint + 1 |
| `GraphBuilder.DefaultSizeMissesIsolatedLastNode` | models.py:65-66 | the default size drops trailing isolated nodes: if node N-1 has no edge, the matrix has fewer than N rows |
| `GraphBuilder.SimpleGraph.constructor` | models.py:34 | a new graph has no nodes and no edges |
| `GraphBuilder.SimpleGraph.AddNodesFrom` | models.py:35 | adds nodes 0..n-1 and leaves the edges unchanged |
| `GraphBuilder.SimpleGraph.AddEdgesFrom` | models.py:36 | adds each column as one undirected edge and its endpoints as nodes; every edge joins two nodes of the graph |
| `GraphBuilder.EdgeIndexToNxGraph` | models.py:32-37 | a fresh graph whose nodes are 0..N-1 plus every endpoint, and whose edges are the columns as undirected pairs |
| `GraphBuilder.UndirectedIgnoresDirection` | methods.py:10-12 | reversing any columns gives the same edge set and node set |
| `GraphBuilder.UndirectedEdgeCount` | methods.py:12 | repeated and reversed columns collapse: at most one edge per column |
| `GraphBuilder.BothDirectionsGiveOneEdge` | methods.py:12 | (u, v), (v, u) and a repeat of (u, v) give exactly one edge |
| `GraphBuilder.NodesAreRangeWhenEdgesFit` | methods.py:11-12 | when every endpoint is in [0, N), the node set is exactly 0..N-1 |
| `Pooling.Trunc` | models.py:52 | Python's `int()` truncates toward zero: within one below a nonnegative number, within one above a negative one |
| `Pooling.KeepCount` | models.py:52 | the count is at least 2; it is 2 when ratio·N < 3; when ratio·N >= 2 it is the integer part of ratio·N |
| `Pooling.KeepCountTruncates` | methods.py:74 | ratio 0.7 and 0.6 on 5 nodes keep 3 (truncation, not rounding); ratio 0.8 on 1 node asks for 2 |
| `Pooling.BestBelow` | models.py:52 | the best-scoring position below n not yet taken; none exactly when all are taken |
| `Pooling.SomePositionLeft` | models.py:52 | fewer taken positions than scores always leave a position to take |
| `Pooling.TopK` | models.py:52 | k distinct positions below N, in non-increasing score order, none outscored by a position left out |
| `Pooling.PartialDotPositive` | models.py:57 | a dot product of nonnegative entries is nonnegative, and positive iff some term has both factors positive |
| `Pooling.MatMulPositive` | models.py:57 | entry (i, j) of a product of nonnegative matrices is positive iff some k has a[i][k] > 0 and b[k][j] > 0 |
| `Pooling.WalkCountPositive` | models.py:57 | entry (i, j) of the integer product `A·(A·A)` is non-zero iff there is a walk i -> k -> l -> j of exactly three edges |
| `Pooling.ThreeWalks` | models.py:57 | `bool(A·(A·A))` is n x n, and entry (i, j) is set iff there is a walk i -> k -> l -> j of exactly three edges |
| `Pooling.Restrict` | models.py:58 | `un_g[idx, :][:, idx]` is k x k with entry (a, b) equal to entry (idx[a], idx[b]) |
| `Pooling.CoarseGraph` | models.py:57-59 | `norm_g(un_g[idx, :][:, idx])` is k x k; entry (a, b) is positive iff a three-edge walk leads from idx[a] to idx[b], else zero |
| `Pooling.NormG` | models.py:72-73 | over exact reals: shape kept; every entry in [0, 1); an entry is zero iff it was zero; an all-zero row stays all zero |
| `Pooling.NormGRowSum` | methods.py:93-94 | over exact reals each normalised row sums to s / (s + 1e-8), where s is the original row sum |
| `Pooling.TopKPool` | models.py:50-60 | fails iff the count exceeds N or an endpoint is outside [-N, N), the count check raising first, and N < 2 always fails; on success the selection is an admissible top-k of the count, pooled row j is feature row idx[j] times score idx[j], and the coarse graph is k x k with entry (a, b) positive iff a three-edge walk leads from idx[a] to idx[b], else zero |
| `Pooling.FullRatioKeepsEveryNode` | methods.py:74 | ratio 1 on N >= 2 nodes with endpoints in [-N, N) succeeds and keeps all N nodes |
| `Models.RestrictEdges` | models.py:28 | `edge_index[:, idx]` fails iff some idx[j] >= E; otherwise exactly |idx| columns, column j being column idx[j] |
| `Models.RestrictEdgesPicksColumnsByPosition` | models.py:28 | positions are used as column numbers: a column touching a dropped node can be kept and one between kept nodes lost |
| `Models.PoolForward` | models.py:27-29 | succeeds iff `top_k_pool` does and every kept position is below E; the edge list has exactly k columns, column j being column idx[j] |
| `Models.PoolForwardNeedsEnoughColumns` | models.py:28 | with fewer edge columns than nodes, a selection that keeps the last node makes `Pool.forward` fail |
| `Models.OutOfRange` | models.py:79 | `idx_prime` holds exactly the entries of idx that are not below g.shape[0] |
| `Models.SynthesisListMeansScatterFails` | models.py:78-79 | `idx_prime` is non-empty iff the scatter `new_h[idx] = h` has an index out of range |
| `Models.Unpool` | models.py:76-86 | fails iff some idx[j] >= g.shape[0]; else g.shape[0] x width, rows outside idx all zero, each row idx[j] equal to an h row scattered there, and for distinct idx gathering at idx gives back h |
| `Methods.Squeeze` | methods.py:74 | squeezing an N x 1 column gives its N entries in order |
| `Methods.TopKPoolSqueezed` | methods.py:72-82 | succeeds iff the count is at most N and every endpoint is in [-N, N), the count check raising first; then an admissible top-k of the squeezed scores, each kept row scaled by its own score, and a k x k coarse graph positive at (a, b) iff a three-edge walk leads from idx[a] to idx[b], zero otherwise |
| `Methods.SingleNodeCannotBePooled` | methods.py:74 | one node with a 1 x 1 score always fails the top-k |

## Left out

- Centrality features (`all_centralities`, `calculate_centrality`, models.py:40-47 and methods.py:30-69): calls into the networkx library and, in methods.py, a multiprocessing fan-out joined on a queue.
- `normalized_laplacian` and `approximate_matrix` (methods.py:16-28): floating-point square roots and a foreign symmetric eigen-solver.
- The learned scoring in `Pool.forward` (models.py:20-26): linear layers, dropout and sigmoid. Scores are a parameter. The centrality step before it is not modelled, and it can raise on its own: an endpoint outside [0, N) adds an extra networkx node, so the centrality matrix has more rows than h and `torch.cat` at models.py:25 raises. For an endpoint in [-N, 0), `Models.PoolForward` therefore succeeds where `Pool.forward` fails.
- The network classes `GraphUNet2`, `GraphUNet`, `SimpleGraphUNet` and `GINModel` (models.py:88-344): wrappers around library convolutions, batch norm and global pooling. One consequence of `GraphBuilder.DefaultSizeMissesIsolatedLastNode` lies there: models.py:151 rebuilds the adjacency without `num_nodes`, so that `Unpool` call gets fewer rows than nodes when the last node has no edge.
- Floating point throughout: scores, features, `ratio * N` and `norm_g` are exact reals. Rounding, NaN and infinity are not modelled.
- Pooling.NormG: requires nonnegative entries. The source only passes 0/1 matrices; a row summing to -1e-8 would divide by zero, which is not modelled.
- Pooling.NormG: computed over exact reals, where each entry stays below 1 and a row sums to s / (s + 1e-8) (`Pooling.NormGRowSum`). The program works in float32, where 1e-8 is lost when added to a row sum of 1 or more, so a row with one set entry normalises to exactly 1.0 and every non-zero row sums to 1 up to rounding. That absorption is not modelled.
- Pooling.TopKPool: requires as many scores as feature rows. `Pool.forward` always passes one score per row; a mismatched standalone call is not modelled.
- Pooling.TopK: fixes one tie order, the lowest position first. The contracts of `Pooling.TopKPool` and `Methods.TopKPoolSqueezed` state only `IsTopK`, so they do not commit to torch's unspecified tie-break. But `Models.PoolForward`'s success condition and `Models.PoolForwardNeedsEnoughColumns` are stated over the selection `Pooling.TopKPool` returns, so they inherit this tie order. With equal scores and fewer edge columns than nodes, the model decides success where torch may pick other positions and fail at models.py:28.
- Models.Unpool: requires h to have exactly |idx| rows of a given width (h.shape[1]). torch's broadcast of a single row is not modelled. With repeated indices, the contract says only that each row holds one of the rows scattered there. torch leaves which one unspecified.
- Models.Unpool: the synthesis formula of models.py:82-84 is not modelled. The loop over `idx_prime` is proved to run zero times.
- Models.Unpool: idx is a sequence of nonnegative positions, because both callers pass the output of `torch.topk` (models.py:148, 151). A negative idx in [-|g|, 0) would be wrapped by the scatter without error and still be collected by `idx_prime`, so the synthesis loop would run. That case is not modelled.
- Methods.Squeeze: for N = 1, `squeeze()` gives a 0-d tensor, but the model gives a one-element sequence. Either way the top-k of two elements fails (`Methods.SingleNodeCannotBePooled`), so no result differs.
- GraphBuilder.EdgeIndexToNxGraph: only the node set and the undirected edge set are modelled. networkx's insertion order and attribute dictionaries are not.
- GraphBuilder.AdjacencyMatrix: the float 0/1 matrix is modelled as booleans. With repeated columns, writing 1 twice is the same as writing it once.
