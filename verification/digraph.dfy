/** The immutable directed graph the searches run over, and the declarative
    vocabulary (paths, reachability, shortest distance, acyclicity) the rest
    of the model is specified in. Vertices are the integers 0 .. V-1 and
    `g[v]` lists the out-neighbours of `v` in insertion order. */
module Digraph {
  import opened Wrappers
  import opened Errors

  type Graph = seq<seq<int>>

  predicate IsVertex(g: Graph, v: int) {
    0 <= v < |g|
  }

  /** Every edge endpoint is a vertex of the graph. */
  predicate WellFormed(g: Graph) {
    forall v, j :: 0 <= v < |g| && 0 <= j < |g[v]| ==> IsVertex(g, g[v][j])
  }

  predicate Edge(g: Graph, u: int, v: int) {
    IsVertex(g, u) && v in g[u]
  }

  /** The graph with `n` vertices and no edges. */
  function Empty(n: nat): (g: Graph)
    ensures |g| == n && WellFormed(g)
    ensures forall u, v :: !Edge(g, u, v)
    ensures forall v :: 0 <= v < n ==> g[v] == []
  {
    seq(n, _ => [])
  }

  /** Appends `to` to the out-neighbours of `from`; the graph refuses an
      endpoint that is not one of its vertices. */
  function AddEdge(g: Graph, from: int, to: int): (r: Result<Graph, Error>)
    ensures r.Success? <==> IsVertex(g, from) && IsVertex(g, to)
    ensures r.Failure? ==> r.error == VertexRejected
    ensures r.Success? ==> |r.value| == |g| && r.value[from] == g[from] + [to]
    ensures r.Success? ==> forall v :: IsVertex(g, v) && v != from ==> r.value[v] == g[v]
    ensures r.Success? && WellFormed(g) ==> WellFormed(r.value)
  {
    if IsVertex(g, from) && IsVertex(g, to) then Success(g[from := g[from] + [to]])
    else Failure(VertexRejected)
  }

  /** A path: a non-empty walk of vertices, each joined to the next by an edge.
      A path `p` has `|p| - 1` edges. */
  ghost predicate IsPath(g: Graph, p: seq<int>) {
    && |p| >= 1
    && (forall i :: 0 <= i < |p| ==> IsVertex(g, p[i]))
    && (forall i :: 0 <= i < |p| - 1 ==> Edge(g, p[i], p[i + 1]))
  }

  /** `p` leads from one of the sources to `x`. */
  ghost predicate PathFromTo(g: Graph, sources: set<int>, p: seq<int>, x: int) {
    IsPath(g, p) && p[0] in sources && p[|p| - 1] == x
  }

  ghost predicate Reachable(g: Graph, sources: set<int>, x: int) {
    exists p :: PathFromTo(g, sources, p, x)
  }

  /** `d` is the least number of edges on a path from the sources to `x`. */
  ghost predicate IsDistance(g: Graph, sources: set<int>, x: int, d: nat) {
    && (exists p :: PathFromTo(g, sources, p, x) && |p| == d + 1)
    && (forall p :: PathFromTo(g, sources, p, x) ==> d + 1 <= |p|)
  }

  /** No path of one edge or more returns to the vertex it starts from. */
  ghost predicate Acyclic(g: Graph) {
    forall p :: IsPath(g, p) && |p| >= 2 ==> p[0] != p[|p| - 1]
  }

  /** Extending a path by one edge gives a path. */
  lemma PathExtend(g: Graph, p: seq<int>, x: int)
    requires IsPath(g, p) && Edge(g, p[|p| - 1], x) && IsVertex(g, x)
    ensures IsPath(g, p + [x])
  {
    var q := p + [x];
    forall i | 0 <= i < |q| - 1
      ensures Edge(g, q[i], q[i + 1])
    {
      if i < |p| - 1 {
        assert q[i] == p[i] && q[i + 1] == p[i + 1];
      }
    }
  }

  /** Prefixing a path by one edge gives a path. */
  lemma PathPrepend(g: Graph, x: int, p: seq<int>)
    requires IsPath(g, p) && IsVertex(g, x) && Edge(g, x, p[0])
    ensures IsPath(g, [x] + p)
  {
    var q := [x] + p;
    forall i | 0 <= i < |q| - 1
      ensures Edge(g, q[i], q[i + 1])
    {
      if i > 0 {
        assert q[i] == p[i - 1] && q[i + 1] == p[i];
      }
    }
  }

  /** Dropping the last vertex of a path of two or more vertices gives a path. */
  lemma PathPrefix(g: Graph, p: seq<int>)
    requires IsPath(g, p) && |p| >= 2
    ensures IsPath(g, p[..|p| - 1])
    ensures Edge(g, p[|p| - 2], p[|p| - 1])
  {
    var q := p[..|p| - 1];
    assert forall i :: 0 <= i < |q| ==> q[i] == p[i];
  }

  /** Dropping the first vertex of a path of two or more vertices gives a path. */
  lemma PathSuffix(g: Graph, p: seq<int>)
    requires IsPath(g, p) && |p| >= 2
    ensures IsPath(g, p[1..])
    ensures Edge(g, p[0], p[1])
  {
    var q := p[1..];
    assert forall i :: 0 <= i < |q| ==> q[i] == p[i + 1];
  }

  /** A vertex has at most one shortest distance from a source set. */
  lemma DistanceUnique(g: Graph, sources: set<int>, x: int, d1: nat, d2: nat)
    requires IsDistance(g, sources, x, d1) && IsDistance(g, sources, x, d2)
    ensures d1 == d2
  {
    var p1 :| PathFromTo(g, sources, p1, x) && |p1| == d1 + 1;
    var p2 :| PathFromTo(g, sources, p2, x) && |p2| == d2 + 1;
  }
}
