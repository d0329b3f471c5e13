/** The two structural predicates beside the query: whether the graph is
    acyclic, and whether it is a rooted acyclic graph (one vertex that every
    vertex reaches). */
module Structure {
  import opened Digraph
  import opened Bfs

  /** The out-neighbours of v, as a source set. */
  function Successors(g: Graph, v: int): set<int>
    requires IsVertex(g, v)
  {
    set u | u in g[v]
  }

  /** `v` lies on a directed cycle: a search from its out-neighbours gets
      back to it. */
  function OnCycle(g: Graph, v: int): bool
    requires WellFormed(g) && IsVertex(g, v)
  {
    Search(g, Successors(g, v))[v].Some?
  }

  /** A cycle through v is a path of one edge or more from v back to v. */
  lemma OnCycleIffClosedPath(g: Graph, v: int)
    requires WellFormed(g) && IsVertex(g, v)
    ensures OnCycle(g, v) <==> exists p :: IsPath(g, p) && |p| >= 2 && p[0] == v && p[|p| - 1] == v
  {
    var succ := Successors(g, v);
    if OnCycle(g, v) {
      var q :| PathFromTo(g, succ, q, v);
      PathPrepend(g, v, q);
      assert ([v] + q)[|[v] + q| - 1] == v;
    }
    if p :| IsPath(g, p) && |p| >= 2 && p[0] == v && p[|p| - 1] == v {
      PathSuffix(g, p);
      assert PathFromTo(g, succ, p[1..], v);
    }
  }

  lemma NoCycleIffAcyclic(g: Graph)
    requires WellFormed(g)
    ensures (forall v | 0 <= v < |g| :: !OnCycle(g, v)) <==> Acyclic(g)
  {
    if !Acyclic(g) {
      var p :| IsPath(g, p) && |p| >= 2 && p[0] == p[|p| - 1];
      OnCycleIffClosedPath(g, p[0]);
    }
    if v :| 0 <= v < |g| && OnCycle(g, v) {
      OnCycleIffClosedPath(g, v);
    }
  }

  /** `isDAG`: true exactly when no directed cycle exists. */
  function IsDag(g: Graph): (r: bool)
    requires WellFormed(g)
    ensures r <==> Acyclic(g)
  {
    NoCycleIffAcyclic(g);
    forall v | 0 <= v < |g| :: !OnCycle(g, v)
  }

  /** The vertices below n with an edge into v, in ascending order. */
  function Predecessors(g: Graph, v: int, n: nat): (r: seq<int>)
    requires n <= |g|
    ensures forall u :: u in r <==> 0 <= u < n && v in g[u]
    ensures forall j :: 0 <= j < |r| ==> 0 <= r[j] < n
  {
    if n == 0 then []
    else Predecessors(g, v, n - 1) + (if v in g[n - 1] then [n - 1] else [])
  }

  /** The graph with every edge turned around. */
  function Reverse(g: Graph): (r: Graph)
    requires WellFormed(g)
    ensures |r| == |g| && WellFormed(r)
    ensures forall u, v :: Edge(r, v, u) <==> Edge(g, u, v)
  {
    seq(|g|, v => Predecessors(g, v, |g|))
  }

  function Rev(p: seq<int>): (r: seq<int>)
    ensures |r| == |p|
    ensures forall i :: 0 <= i < |p| ==> r[i] == p[|p| - 1 - i]
  {
    seq(|p|, i requires 0 <= i < |p| => p[|p| - 1 - i])
  }

  lemma ReversedPath(g: Graph, p: seq<int>)
    requires WellFormed(g) && IsPath(g, p)
    ensures IsPath(Reverse(g), Rev(p))
  {
    var q := Rev(p);
    forall i | 0 <= i < |q| - 1
      ensures Edge(Reverse(g), q[i], q[i + 1])
    {
      var j := |p| - 2 - i;
      assert q[i] == p[j + 1] && q[i + 1] == p[j];
      assert Edge(g, p[j], p[j + 1]);
    }
  }

  lemma ReversedPathBack(g: Graph, p: seq<int>)
    requires WellFormed(g) && IsPath(Reverse(g), p)
    ensures IsPath(g, Rev(p))
  {
    var q := Rev(p);
    forall i | 0 <= i < |q| - 1
      ensures Edge(g, q[i], q[i + 1])
    {
      var j := |p| - 2 - i;
      assert q[i] == p[j + 1] && q[i + 1] == p[j];
      assert Edge(Reverse(g), p[j], p[j + 1]);
    }
  }

  /** v has a path to root exactly when root has a path to v in the
      reversed graph. */
  lemma ReachableInReverse(g: Graph, root: int, v: int)
    requires WellFormed(g)
    ensures Reachable(Reverse(g), {root}, v) <==> Reachable(g, {v}, root)
  {
    if p :| PathFromTo(Reverse(g), {root}, p, v) {
      ReversedPathBack(g, p);
      assert PathFromTo(g, {v}, Rev(p), root);
    }
    if p :| PathFromTo(g, {v}, p, root) {
      ReversedPath(g, p);
      assert PathFromTo(Reverse(g), {root}, Rev(p), v);
    }
  }

  /** The search from root over the reversed graph reaches v exactly when v
      has a path to root. */
  lemma ReverseSearch(g: Graph, root: int, v: int)
    requires WellFormed(g) && IsVertex(g, root) && IsVertex(g, v)
    ensures Search(Reverse(g), {root})[v].Some? <==> Reachable(g, {v}, root)
  {
    ReachableInReverse(g, root, v);
  }

  /** Every vertex has a path to root. */
  ghost predicate ReachedByAll(g: Graph, root: int) {
    forall v :: IsVertex(g, v) ==> Reachable(g, {v}, root)
  }

  /** Some vertex is reached by every vertex. */
  ghost predicate HasRoot(g: Graph) {
    exists root :: IsVertex(g, root) && ReachedByAll(g, root)
  }

  /** The search from candidate over the reversed graph reaches every vertex. */
  predicate CoveredFrom(g: Graph, candidate: int)
    requires WellFormed(g) && IsVertex(g, candidate)
  {
    forall v | 0 <= v < |g| :: Search(Reverse(g), {candidate})[v].Some?
  }

  /** An edge into the start of a path that ends where the edge starts
      closes a path of at least one edge. */
  lemma ClosedPath(g: Graph, v: int, q: seq<int>)
    requires IsPath(g, q) && IsVertex(g, v) && Edge(g, v, q[0]) && q[|q| - 1] == v
    ensures !Acyclic(g)
  {
    PathPrepend(g, v, q);
    var c := [v] + q;
    assert IsPath(g, c) && |c| >= 2 && c[0] == c[|c| - 1];
  }

  /** In an acyclic graph, a vertex every vertex reaches has no out-edges:
      an out-neighbour would reach it back and close a cycle. */
  lemma RootHasNoSuccessor(g: Graph, root: int)
    requires WellFormed(g) && Acyclic(g) && IsVertex(g, root) && ReachedByAll(g, root)
    ensures g[root] == []
  {
    if g[root] != [] {
      var x := g[root][0];
      assert IsVertex(g, x) && Reachable(g, {x}, root);
      var q :| PathFromTo(g, {x}, q, root);
      ClosedPath(g, root, q);
      assert false;
    }
  }

  /** A vertex without out-edges reaches only itself, so if it reaches the
      root it is the root. */
  lemma SinkIsRoot(g: Graph, root: int, s: int)
    requires WellFormed(g) && IsVertex(g, s) && g[s] == [] && Reachable(g, {s}, root)
    ensures s == root
  {
    var q :| PathFromTo(g, {s}, q, root);
    if |q| >= 2 {
      PathSuffix(g, q);
      assert false;
    }
  }

  /** In an acyclic graph, a vertex every vertex reaches has no out-edges,
      and no other vertex is without out-edges. */
  lemma RootIsOnlySink(g: Graph, root: int, s: int)
    requires WellFormed(g) && Acyclic(g) && IsVertex(g, root) && ReachedByAll(g, root)
    ensures g[root] == []
    ensures IsVertex(g, s) && g[s] == [] ==> s == root
  {
    RootHasNoSuccessor(g, root);
    if IsVertex(g, s) && g[s] == [] {
      assert Reachable(g, {s}, root);
      SinkIsRoot(g, root, s);
    }
  }

  /** `isRootedDAG`: false for a graph with a cycle; otherwise a search from
      the root candidate over the reversed graph must reach every vertex.
      The candidate is the first vertex of a depth-first post-order, which in
      an acyclic graph has no out-edges; the result is then independent of
      which such vertex is picked. */
  function IsRootedDag(g: Graph, candidate: int): (r: bool)
    requires WellFormed(g)
    requires Acyclic(g) ==> IsVertex(g, candidate) && g[candidate] == []
    ensures r ==> IsDag(g)
    ensures r <==> Acyclic(g) && HasRoot(g)
  {
    if !IsDag(g) then false
    else
      RootedIff(g, candidate);
      CoveredFrom(g, candidate)
  }

  /** The reverse search from candidate covers every vertex exactly when
      every vertex has a path to candidate. */
  lemma ReverseSearchCovers(g: Graph, candidate: int)
    requires WellFormed(g) && IsVertex(g, candidate)
    ensures CoveredFrom(g, candidate) <==> ReachedByAll(g, candidate)
  {
    forall v | IsVertex(g, v)
      ensures Search(Reverse(g), {candidate})[v].Some? <==> Reachable(g, {v}, candidate)
    {
      ReverseSearch(g, candidate, v);
    }
  }

  /** In an acyclic graph, a vertex without out-edges is reached by all
      vertices exactly when some vertex is. */
  lemma SinkDecidesRoot(g: Graph, candidate: int)
    requires WellFormed(g) && Acyclic(g) && IsVertex(g, candidate) && g[candidate] == []
    ensures ReachedByAll(g, candidate) <==> HasRoot(g)
  {
    if root :| IsVertex(g, root) && ReachedByAll(g, root) {
      RootIsOnlySink(g, root, candidate);
    }
  }

  lemma RootedIff(g: Graph, candidate: int)
    requires WellFormed(g) && Acyclic(g) && IsVertex(g, candidate) && g[candidate] == []
    ensures CoveredFrom(g, candidate) <==> HasRoot(g)
  {
    ReverseSearchCovers(g, candidate);
    SinkDecidesRoot(g, candidate);
  }
}
