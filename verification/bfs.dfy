/** Multi-source breadth-first search, level by level: round k holds every
    vertex within k edges of a source. The search result records, for each
    vertex, whether it is reachable and, if so, its shortest edge-count
    distance from the source set. */
module Bfs {
  import opened Wrappers
  import opened Digraph

  /** Per-vertex search result: `None` for unreachable, `Some(d)` at distance d. */
  type Distances = seq<Option<nat>>

  predicate SourcesValid(g: Graph, sources: set<int>) {
    forall s :: s in sources ==> IsVertex(g, s)
  }

  /** The integers 0 .. n-1, the vertex set of a graph with n vertices. */
  function Range(n: nat): (r: set<int>)
    ensures forall v :: v in r <==> 0 <= v < n
    ensures |r| == n
  {
    if n == 0 then {} else Range(n - 1) + {n - 1}
  }

  /** One round: the vertices reached so far and all their out-neighbours. */
  function Expand(g: Graph, reached: set<int>): set<int> {
    reached + set u, v | u in reached && IsVertex(g, u) && v in g[u] :: v
  }

  /** The vertices reached after `k` rounds from the sources. */
  function Ball(g: Graph, sources: set<int>, k: nat): set<int> {
    if k == 0 then sources else Expand(g, Ball(g, sources, k - 1))
  }

  lemma BallMonotone(g: Graph, sources: set<int>, i: nat, j: nat)
    requires i <= j
    ensures Ball(g, sources, i) <= Ball(g, sources, j)
  {
    if i < j {
      BallMonotone(g, sources, i, j - 1);
    }
  }

  lemma {:induction false} BallWithinVertices(g: Graph, sources: set<int>, k: nat)
    requires WellFormed(g) && SourcesValid(g, sources)
    ensures Ball(g, sources, k) <= Range(|g|)
  {
    if k > 0 {
      BallWithinVertices(g, sources, k - 1);
      forall x | x in Ball(g, sources, k)
        ensures x in Range(|g|)
      {
        if x !in Ball(g, sources, k - 1) {
          var u, j :| u in Ball(g, sources, k - 1) && IsVertex(g, u) && 0 <= j < |g[u]| && g[u][j] == x;
        }
      }
    }
  }

  /** Every vertex of round k ends a path of at most k edges from a source. */
  lemma {:induction false} BallSound(g: Graph, sources: set<int>, k: nat, x: int)
    requires WellFormed(g) && SourcesValid(g, sources)
    requires x in Ball(g, sources, k)
    ensures exists p :: PathFromTo(g, sources, p, x) && |p| <= k + 1
  {
    if k == 0 {
      assert PathFromTo(g, sources, [x], x);
    } else if x in Ball(g, sources, k - 1) {
      BallSound(g, sources, k - 1, x);
    } else {
      var u :| u in Ball(g, sources, k - 1) && IsVertex(g, u) && x in g[u];
      BallSound(g, sources, k - 1, u);
      var p :| PathFromTo(g, sources, p, u) && |p| <= k;
      var j :| 0 <= j < |g[u]| && g[u][j] == x;
      PathExtend(g, p, x);
      assert PathFromTo(g, sources, p + [x], x);
    }
  }

  /** The end of a path of n edges from a source is reached by round n. */
  lemma {:induction false} BallComplete(g: Graph, sources: set<int>, p: seq<int>, x: int)
    requires PathFromTo(g, sources, p, x)
    ensures x in Ball(g, sources, |p| - 1)
    decreases |p|
  {
    if |p| >= 2 {
      var q := p[..|p| - 1];
      PathPrefix(g, p);
      BallComplete(g, sources, q, q[|q| - 1]);
      var u := q[|q| - 1];
      assert u in Ball(g, sources, |p| - 2);
      assert x in g[u];
    }
  }

  /** While the rounds keep growing, each adds at least one vertex. */
  lemma {:induction false} BallGrows(g: Graph, sources: set<int>, k: nat)
    requires forall j :: 0 <= j < k ==> Ball(g, sources, j) != Ball(g, sources, j + 1)
    ensures |Ball(g, sources, k)| >= |sources| + k
  {
    if k > 0 {
      BallGrows(g, sources, k - 1);
      var a, b := Ball(g, sources, k - 1), Ball(g, sources, k);
      assert a <= b;
      assert b == a + (b - a);
      assert b - a != {};
    }
  }

  lemma SubsetSize(a: set<int>, b: set<int>)
    requires a <= b
    ensures |a| <= |b|
  {
    assert b == a + (b - a);
  }

  /** Once a round adds nothing, no later round does. */
  lemma {:induction false} BallStable(g: Graph, sources: set<int>, j: nat, m: nat)
    requires Ball(g, sources, j + 1) == Ball(g, sources, j) && j <= m
    ensures Ball(g, sources, m) == Ball(g, sources, j)
  {
    if m > j {
      BallStable(g, sources, j, m - 1);
      assert Ball(g, sources, m) == Expand(g, Ball(g, sources, m - 1));
      assert Ball(g, sources, j + 1) == Expand(g, Ball(g, sources, j));
    }
  }

  /** Round V already holds every vertex any later round holds. */
  lemma BallSaturates(g: Graph, sources: set<int>, k: nat)
    requires WellFormed(g) && SourcesValid(g, sources)
    ensures Ball(g, sources, k) <= Ball(g, sources, |g|)
  {
    if k <= |g| {
      BallMonotone(g, sources, k, |g|);
    } else if sources == {} {
      assert Ball(g, sources, 1) == {};
      BallStable(g, sources, 0, k);
      BallStable(g, sources, 0, |g|);
    } else if j :| 0 <= j < |g| && Ball(g, sources, j) == Ball(g, sources, j + 1) {
      BallStable(g, sources, j, k);
      BallMonotone(g, sources, j, |g|);
    } else {
      BallGrows(g, sources, |g|);
      BallWithinVertices(g, sources, |g|);
      SubsetSize(Ball(g, sources, |g|), Range(|g|));
      assert false;
    }
  }

  /** A vertex is reachable exactly when round V holds it. */
  lemma ReachableIffInBall(g: Graph, sources: set<int>, x: int)
    requires WellFormed(g) && SourcesValid(g, sources)
    ensures Reachable(g, sources, x) <==> x in Ball(g, sources, |g|)
  {
    if Reachable(g, sources, x) {
      var p :| PathFromTo(g, sources, p, x);
      BallComplete(g, sources, p, x);
      BallSaturates(g, sources, |p| - 1);
    }
    if x in Ball(g, sources, |g|) {
      BallSound(g, sources, |g|, x);
    }
  }

  /** The first round at or after k that holds x. */
  function FirstRound(g: Graph, sources: set<int>, x: int, k: nat): (d: nat)
    requires k <= |g| && x in Ball(g, sources, |g|)
    ensures k <= d <= |g| && x in Ball(g, sources, d)
    ensures forall j :: k <= j < d ==> x !in Ball(g, sources, j)
    decreases |g| - k
  {
    if x in Ball(g, sources, k) then k
    else
      assert k < |g|;
      var d := FirstRound(g, sources, x, k + 1);
      assert forall j :: k < j < d ==> x !in Ball(g, sources, j);
      d
  }

  /** The shortest distance of `x` from the sources, or `None` when it is
      not reachable. */
  function DistanceTo(g: Graph, sources: set<int>, x: int): Option<nat>
  {
    if x in Ball(g, sources, |g|) then Some(FirstRound(g, sources, x, 0)) else None
  }

  lemma DistanceToCorrect(g: Graph, sources: set<int>, x: int)
    requires WellFormed(g) && SourcesValid(g, sources)
    ensures DistanceTo(g, sources, x).Some? <==> Reachable(g, sources, x)
    ensures DistanceTo(g, sources, x).Some? ==> IsDistance(g, sources, x, DistanceTo(g, sources, x).value)
  {
    ReachableIffInBall(g, sources, x);
    if x in Ball(g, sources, |g|) {
      var d := FirstRound(g, sources, x, 0);
      BallSound(g, sources, d, x);
      var p :| PathFromTo(g, sources, p, x) && |p| <= d + 1;
      if |p| < d + 1 {
        BallComplete(g, sources, p, x);
        assert false;
      }
      forall q | PathFromTo(g, sources, q, x)
        ensures d + 1 <= |q|
      {
        BallComplete(g, sources, q, x);
      }
    }
  }

  /** The breadth-first search from a set of sources: entry x is `Some(d)`
      exactly when x is reachable, and d is then its shortest distance. */
  function Search(g: Graph, sources: set<int>): (r: Distances)
    requires WellFormed(g) && SourcesValid(g, sources)
    ensures |r| == |g|
    ensures forall x :: 0 <= x < |g| ==> (r[x].Some? <==> Reachable(g, sources, x))
    ensures forall x :: 0 <= x < |g| && r[x].Some? ==> IsDistance(g, sources, x, r[x].value)
  {
    forall x
      ensures DistanceTo(g, sources, x).Some? <==> Reachable(g, sources, x)
      ensures DistanceTo(g, sources, x).Some? ==> IsDistance(g, sources, x, DistanceTo(g, sources, x).value)
    {
      DistanceToCorrect(g, sources, x);
    }
    seq(|g|, x => DistanceTo(g, sources, x))
  }

  /** The sources are exactly the vertices the search puts at distance 0. */
  lemma SourcesAtZero(g: Graph, sources: set<int>, x: int)
    requires WellFormed(g) && SourcesValid(g, sources) && IsVertex(g, x)
    ensures Search(g, sources)[x] == Some(0) <==> x in sources
  {
    var r := Search(g, sources);
    if x in sources {
      assert PathFromTo(g, sources, [x], x);
    }
    if r[x] == Some(0) {
      var p :| PathFromTo(g, sources, p, x) && |p| == 1;
    }
  }
}
