/**
  GraphBuilder: the dense adjacency matrix of an edge list (`adjacency_matrix`)
  and the undirected simple-graph view handed to the centrality library
  (`edge_index_to_nx_graph`). Both functions appear twice in the repository,
  word for word, in models.py and in methods.py; this module models both copies.
*/
module GraphBuilder {
  import opened Tensors

  // ---------------------------------------------------------------------------
  // adjacency_matrix
  // ---------------------------------------------------------------------------

  /** `edge_index.max()`: the largest endpoint of a non-empty edge list. */
  function MaxEndpoint(edges: seq<Edge>): (m: int)
    requires |edges| > 0
    ensures forall k :: 0 <= k < |edges| ==> edges[k].src <= m && edges[k].dst <= m
    ensures exists k :: 0 <= k < |edges| && (edges[k].src == m || edges[k].dst == m)
  {
    var here := if edges[0].src >= edges[0].dst then edges[0].src else edges[0].dst;
    if |edges| == 1 then here
    else
      var rest := MaxEndpoint(edges[1..]);
      if here >= rest then here else rest
  }

  /**
    The side of the matrix: `num_nodes` when it is given, otherwise the largest
    endpoint plus one. The reduction fails on an empty edge list, and
    `torch.zeros` fails on a negative size.
  */
  function Size(edges: seq<Edge>, numNodes: Option<nat>): (r: Result<nat>)
    ensures numNodes.Some? ==> r == Success(numNodes.value)
    ensures numNodes.None? ==>
      (r.Failure? <==> |edges| == 0 || forall k :: 0 <= k < |edges| ==> edges[k].src < -1 && edges[k].dst < -1)
    ensures numNodes.None? && |edges| == 0 ==> r == Failure(EmptyReduction)
    ensures numNodes.None? && |edges| > 0 && r.Failure? ==> r.error == NegativeDimension
    ensures numNodes.None? && r.Success? ==>
      && (forall k :: 0 <= k < |edges| ==> edges[k].src < r.value && edges[k].dst < r.value)
      && exists k :: 0 <= k < |edges| && (edges[k].src == r.value - 1 || edges[k].dst == r.value - 1)
  {
    match numNodes
    case Some(n) => Success(n)
    case None =>
      if |edges| == 0 then Failure(EmptyReduction)
      else if MaxEndpoint(edges) + 1 < 0 then Failure(NegativeDimension)
      else Success(MaxEndpoint(edges) + 1)
  }

  /** Some column of the edge list addresses entry (i, j) of an n x n matrix. */
  predicate HasEdge(edges: seq<Edge>, n: nat, i: nat, j: nat)
    requires EdgesInBounds(edges, n)
  {
    exists k :: 0 <= k < |edges| && Wrap(edges[k].src, n) == i && Wrap(edges[k].dst, n) == j
  }

  /** The n x n matrix with exactly the entries addressed by the edge list set. */
  function Marked(edges: seq<Edge>, n: nat): (m: seq<seq<bool>>)
    requires EdgesInBounds(edges, n)
    ensures IsMatrix(m, n, n)
  {
    seq(n, i requires 0 <= i < n => seq(n, j requires 0 <= j < n => HasEdge(edges, n, i, j)))
  }

  /**
    Reference definition of `adjacency_matrix(edge_index, num_nodes)`: the
    n x n matrix whose entry (i, j) is 1 exactly when some column addresses
    (i, j), or the error the tensor runtime raises.
  */
  function AdjacencyOf(edges: seq<Edge>, numNodes: Option<nat>): (r: Result<seq<seq<bool>>>)
  {
    match Size(edges, numNodes)
    case Failure(e) => Failure(e)
    case Success(n) =>
      if !EdgesInBounds(edges, n) then Failure(IndexOutOfBounds)
      else Success(Marked(edges, n))
  }

  /**
    `adjacency_matrix`: allocate an n x n zero matrix, then set to 1 the entry
    addressed by each column of the edge list.
  */
  method AdjacencyMatrix(edges: seq<Edge>, numNodes: Option<nat>) returns (r: Result<seq<seq<bool>>>)
    ensures r == AdjacencyOf(edges, numNodes)
  {
    var size := Size(edges, numNodes);
    if size.Failure? {
      return Failure(size.error);
    }
    var n := size.value;
    var adj := new seq<bool>[n](_ => seq(n, _ => false));
    MarkedEmpty(n);
    assert edges[..0] == [];
    var t := 0;
    while t < |edges|
      invariant 0 <= t <= |edges|
      invariant EdgesInBounds(edges[..t], n)
      invariant adj[..] == Marked(edges[..t], n)
    {
      var e := edges[t];
      if !InBounds(e.src, n) || !InBounds(e.dst, n) {
        assert !EdgesInBounds(edges, n);
        return Failure(IndexOutOfBounds);
      }
      var s, d := Wrap(e.src, n), Wrap(e.dst, n);
      MarkedExtend(edges[..t], e, n);
      assert edges[..t + 1] == edges[..t] + [e];
      adj[s] := adj[s][d := true];
      t := t + 1;
    }
    assert edges[..t] == edges;
    r := Success(adj[..]);
  }

  lemma MarkedEmpty(n: nat)
    ensures Marked([], n) == seq(n, _ => seq(n, _ => false))
  {
    var m := Marked([], n);
    forall i | 0 <= i < n ensures m[i] == seq(n, _ => false) { }
  }

  /** Appending one column sets exactly the entry it addresses. */
  lemma MarkedExtend(edges: seq<Edge>, e: Edge, n: nat)
    requires EdgesInBounds(edges, n) && InBounds(e.src, n) && InBounds(e.dst, n)
    ensures EdgesInBounds(edges + [e], n)
    ensures var m := Marked(edges, n);
      var s, d := Wrap(e.src, n), Wrap(e.dst, n);
      Marked(edges + [e], n) == m[s := m[s][d := true]]
  {
    var ext := edges + [e];
    var m, m' := Marked(edges, n), Marked(ext, n);
    var s, d := Wrap(e.src, n), Wrap(e.dst, n);
    var want := m[s := m[s][d := true]];
    forall i | 0 <= i < n ensures m'[i] == want[i] {
      forall j | 0 <= j < n ensures m'[i][j] == want[i][j] {
        HasEdgeExtend(edges, e, n, i, j);
      }
    }
  }

  lemma HasEdgeExtend(edges: seq<Edge>, e: Edge, n: nat, i: nat, j: nat)
    requires EdgesInBounds(edges, n) && InBounds(e.src, n) && InBounds(e.dst, n)
    ensures EdgesInBounds(edges + [e], n)
    ensures HasEdge(edges + [e], n, i, j) <==>
      HasEdge(edges, n, i, j) || (i == Wrap(e.src, n) && j == Wrap(e.dst, n))
  {
    var ext := edges + [e];
    if HasEdge(ext, n, i, j) {
      var k :| 0 <= k < |ext| && Wrap(ext[k].src, n) == i && Wrap(ext[k].dst, n) == j;
      if k < |edges| {
        assert ext[k] == edges[k];
      }
    }
    if HasEdge(edges, n, i, j) {
      var k :| 0 <= k < |edges| && Wrap(edges[k].src, n) == i && Wrap(edges[k].dst, n) == j;
      assert ext[k] == edges[k];
    }
    if i == Wrap(e.src, n) && j == Wrap(e.dst, n) {
      assert ext[|edges|] == e;
    }
  }

  /**
    What a successful `adjacency_matrix` returns: an n x n matrix with entry
    (i, j) set exactly when some column (src, dst) refers to row i and column j
    (negative endpoints counting from the end, as torch indexing does); and it
    succeeds exactly when the size is defined and every endpoint lies in [-n, n).
  */
  lemma AdjacencyEntries(edges: seq<Edge>, numNodes: Option<nat>)
    ensures AdjacencyOf(edges, numNodes).Success? <==>
      Size(edges, numNodes).Success? && EdgesInBounds(edges, Size(edges, numNodes).value)
    ensures AdjacencyOf(edges, numNodes).Success? ==>
      var n := Size(edges, numNodes).value;
      var a := AdjacencyOf(edges, numNodes).value;
      IsMatrix(a, n, n) &&
      forall i, j :: 0 <= i < n && 0 <= j < n ==>
        (a[i][j] <==> exists k :: 0 <= k < |edges| && Wrap(edges[k].src, n) == i && Wrap(edges[k].dst, n) == j)
  {
  }

  /** With nonnegative endpoints, entry (u, v) is set iff (u, v) is literally a column. */
  lemma AdjacencyOfNonnegativeEdges(edges: seq<Edge>, n: nat, u: nat, v: nat)
    requires forall k :: 0 <= k < |edges| ==> 0 <= edges[k].src < n && 0 <= edges[k].dst < n
    requires u < n && v < n
    ensures AdjacencyOf(edges, Some(n)).Success?
    ensures AdjacencyOf(edges, Some(n)).value[u][v] <==> Edge(u, v) in edges
  {
    var a := AdjacencyOf(edges, Some(n)).value;
    if a[u][v] {
      var k :| 0 <= k < |edges| && Wrap(edges[k].src, n) == u && Wrap(edges[k].dst, n) == v;
      assert edges[k] == Edge(u, v);
    }
    if Edge(u, v) in edges {
      var k :| 0 <= k < |edges| && edges[k] == Edge(u, v);
      assert Wrap(edges[k].src, n) == u && Wrap(edges[k].dst, n) == v;
    }
  }

  /** The matrix is not symmetrised: one column (0, 1) sets (0, 1) and leaves (1, 0) clear. */
  lemma AdjacencyNotSymmetrised()
    ensures AdjacencyOf([Edge(0, 1)], None).Success?
    ensures IsMatrix(AdjacencyOf([Edge(0, 1)], None).value, 2, 2)
    ensures AdjacencyOf([Edge(0, 1)], None).value[0][1]
    ensures !AdjacencyOf([Edge(0, 1)], None).value[1][0]
  {
    var edges := [Edge(0, 1)];
    assert MaxEndpoint(edges) == 1;
    var a := AdjacencyOf(edges, None).value;
    assert Wrap(edges[0].src, 2) == 0 && Wrap(edges[0].dst, 2) == 1;
    assert a[0][1];
  }

  /** The matrix is symmetric when the edge list already holds every column in both directions. */
  lemma AdjacencySymmetricWhenListIs(edges: seq<Edge>, numNodes: Option<nat>)
    requires forall k :: 0 <= k < |edges| ==> Edge(edges[k].dst, edges[k].src) in edges
    requires AdjacencyOf(edges, numNodes).Success?
    ensures var a := AdjacencyOf(edges, numNodes).value;
      forall i, j :: 0 <= i < |a| && 0 <= j < |a| ==> a[i][j] == a[j][i]
  {
    var n := Size(edges, numNodes).value;
    var a := AdjacencyOf(edges, numNodes).value;
    forall i, j | 0 <= i < n && 0 <= j < n && a[i][j]
      ensures a[j][i]
    {
      var k :| 0 <= k < |edges| && Wrap(edges[k].src, n) == i && Wrap(edges[k].dst, n) == j;
      var k' :| 0 <= k' < |edges| && edges[k'] == Edge(edges[k].dst, edges[k].src);
      assert Wrap(edges[k'].src, n) == j && Wrap(edges[k'].dst, n) == i;
    }
  }

  /**
    Without `num_nodes`, a non-empty list of nonnegative endpoints always gets a
    matrix, whose side is one more than the largest endpoint.
  */
  lemma DefaultSizeFits(edges: seq<Edge>)
    requires |edges| > 0
    requires forall k :: 0 <= k < |edges| ==> edges[k].src >= 0 && edges[k].dst >= 0
    ensures AdjacencyOf(edges, None).Success?
    ensures |AdjacencyOf(edges, None).value| == MaxEndpoint(edges) + 1
  {
  }

  /**
    The default size only sees nodes that some edge touches: when the highest
    numbered of N nodes has no edge, the matrix has fewer than N rows.
  */
  lemma DefaultSizeMissesIsolatedLastNode(edges: seq<Edge>, numNodes: nat)
    requires |edges| > 0 && numNodes > 0
    requires forall k :: 0 <= k < |edges| ==> 0 <= edges[k].src < numNodes && 0 <= edges[k].dst < numNodes
    requires forall k :: 0 <= k < |edges| ==> edges[k].src != numNodes - 1 && edges[k].dst != numNodes - 1
    ensures AdjacencyOf(edges, None).Success?
    ensures |AdjacencyOf(edges, None).value| < numNodes
  {
    DefaultSizeFits(edges);
  }

  // ---------------------------------------------------------------------------
  // edge_index_to_nx_graph
  // ---------------------------------------------------------------------------

  /** An undirected edge {lo, hi} with lo <= hi; a self-loop has lo == hi. */
  datatype UEdge = UEdge(lo: int, hi: int)

  function Undirected(u: int, v: int): (e: UEdge)
    ensures e.lo <= e.hi
    ensures {e.lo, e.hi} == {u, v}
  {
    if u <= v then UEdge(u, v) else UEdge(v, u)
  }

  /** The undirected edges of an edge list, duplicates and reversals collapsed. */
  function UndirectedEdges(edges: seq<Edge>): set<UEdge>
  {
    set k | 0 <= k < |edges| :: Undirected(edges[k].src, edges[k].dst)
  }

  /** Every node an edge list mentions. */
  function Endpoints(edges: seq<Edge>): set<int>
  {
    (set k | 0 <= k < |edges| :: edges[k].src) + (set k | 0 <= k < |edges| :: edges[k].dst)
  }

  /**
    The mutable undirected simple graph the centrality library works on: a node
    set and a set of undirected edges (at most one per pair of nodes).
  */
  class SimpleGraph {
    var nodes: set<int>
    var edges: set<UEdge>

    /** Every edge joins two nodes of the graph. */
    ghost predicate Valid()
      reads this
    {
      forall e :: e in edges ==> e.lo in nodes && e.hi in nodes
    }

    constructor ()
      ensures Valid()
      ensures nodes == {} && edges == {}
    {
      nodes := {};
      edges := {};
    }

    /** `add_nodes_from(range(n))`. */
    method AddNodesFrom(n: nat)
      requires Valid()
      modifies this
      ensures Valid()
      ensures nodes == old(nodes) + Range(n) && edges == old(edges)
    {
      for i := 0 to n
        invariant nodes == old(nodes) + Range(i)
        invariant edges == old(edges)
      {
        nodes := nodes + {i};
      }
    }

    /** `add_edges_from(edge_list)`: adds each pair as an undirected edge, and its endpoints as nodes. */
    method AddEdgesFrom(list: seq<Edge>)
      requires Valid()
      modifies this
      ensures Valid()
      ensures nodes == old(nodes) + Endpoints(list)
      ensures edges == old(edges) + UndirectedEdges(list)
    {
      for t := 0 to |list|
        invariant Valid()
        invariant nodes == old(nodes) + Endpoints(list[..t])
        invariant edges == old(edges) + UndirectedEdges(list[..t])
      {
        var e := list[t];
        EndpointsAndEdgesExtend(list[..t], e);
        assert list[..t + 1] == list[..t] + [e];
        nodes := nodes + {e.src, e.dst};
        edges := edges + {Undirected(e.src, e.dst)};
      }
      assert list[..|list|] == list;
    }
  }

  lemma EndpointsAndEdgesExtend(list: seq<Edge>, e: Edge)
    ensures Endpoints(list + [e]) == Endpoints(list) + {e.src, e.dst}
    ensures UndirectedEdges(list + [e]) == UndirectedEdges(list) + {Undirected(e.src, e.dst)}
  {
    var ext := list + [e];
    assert ext[|list|] == e;
    forall k | 0 <= k < |list| ensures ext[k] == list[k] { }
    forall x | x in Endpoints(ext) ensures x in Endpoints(list) + {e.src, e.dst} {
      var k :| 0 <= k < |ext| && (ext[k].src == x || ext[k].dst == x);
    }
    forall u | u in UndirectedEdges(ext) ensures u in UndirectedEdges(list) + {Undirected(e.src, e.dst)} {
      var k :| 0 <= k < |ext| && u == Undirected(ext[k].src, ext[k].dst);
    }
  }

  /** `edge_index_to_nx_graph(edge_index, num_nodes)`. */
  method EdgeIndexToNxGraph(edgeIndex: seq<Edge>, numNodes: nat) returns (g: SimpleGraph)
    ensures fresh(g) && g.Valid()
    ensures g.nodes == Range(numNodes) + Endpoints(edgeIndex)
    ensures g.edges == UndirectedEdges(edgeIndex)
  {
    g := new SimpleGraph();
    g.AddNodesFrom(numNodes);
    g.AddEdgesFrom(edgeIndex);
  }

  /** The view is undirected: reversing any columns yields the same edge set. */
  lemma UndirectedIgnoresDirection(edges: seq<Edge>, flipped: seq<Edge>)
    requires |flipped| == |edges|
    requires forall k :: 0 <= k < |edges| ==>
      flipped[k] == edges[k] || flipped[k] == Edge(edges[k].dst, edges[k].src)
    ensures UndirectedEdges(flipped) == UndirectedEdges(edges)
    ensures Endpoints(flipped) == Endpoints(edges)
  {
    forall k | 0 <= k < |edges|
      ensures Undirected(flipped[k].src, flipped[k].dst) == Undirected(edges[k].src, edges[k].dst)
    {
    }
  }

  /** Repeated and reversed columns collapse: the view has at most one edge per column. */
  lemma {:induction false} UndirectedEdgeCount(edges: seq<Edge>)
    ensures |UndirectedEdges(edges)| <= |edges|
  {
    if |edges| > 0 {
      var init := edges[..|edges| - 1];
      var last := edges[|edges| - 1];
      assert edges == init + [last];
      EndpointsAndEdgesExtend(init, last);
      UndirectedEdgeCount(init);
    }
  }

  /** A column and its reversal, listed together, give exactly one undirected edge. */
  lemma BothDirectionsGiveOneEdge(u: int, v: int)
    ensures UndirectedEdges([Edge(u, v), Edge(v, u)]) == {Undirected(u, v)}
    ensures |UndirectedEdges([Edge(u, v), Edge(v, u), Edge(u, v)])| == 1
  {
    var three := [Edge(u, v), Edge(v, u), Edge(u, v)];
    assert UndirectedEdges(three) == {Undirected(u, v)} by {
      forall x | x in UndirectedEdges(three) ensures x == Undirected(u, v) {
        var k :| 0 <= k < 3 && x == Undirected(three[k].src, three[k].dst);
      }
      assert Undirected(three[0].src, three[0].dst) in UndirectedEdges(three);
    }
    var two := [Edge(u, v), Edge(v, u)];
    forall x | x in UndirectedEdges(two) ensures x == Undirected(u, v) {
      var k :| 0 <= k < 2 && x == Undirected(two[k].src, two[k].dst);
    }
    assert Undirected(two[0].src, two[0].dst) in UndirectedEdges(two);
  }

  /** With endpoints in [0, N) the view's node set is exactly 0..N-1. */
  lemma NodesAreRangeWhenEdgesFit(edges: seq<Edge>, n: nat)
    requires forall k :: 0 <= k < |edges| ==> 0 <= edges[k].src < n && 0 <= edges[k].dst < n
    ensures Range(n) + Endpoints(edges) == Range(n)
  {
  }
}
