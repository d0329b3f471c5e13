/** The shortest-ancestral-path query: two breadth-first searches, one per
    side, then one ascending scan over all vertices that keeps the smallest
    distance sum among vertices reachable from both sides. */
module Sap {
  import opened Wrappers
  import opened Errors
  import opened Digraph
  import opened Bfs

  /** The pair one scan computes: the shortest ancestral length and the
      meeting vertex, both -1 when the two sides share no ancestor. */
  datatype SapResult = SapResult(length: int, ancestor: int)

  const NoAncestor := SapResult(-1, -1)

  /** Vertex i is reached by both searches. */
  predicate Common(dv: Distances, dw: Distances, i: int) {
    0 <= i < |dv| && 0 <= i < |dw| && dv[i].Some? && dw[i].Some?
  }

  function SumAt(dv: Distances, dw: Distances, i: int): nat
    requires Common(dv, dw, i)
  {
    dv[i].value + dw[i].value
  }

  ghost predicate HasCommon(dv: Distances, dw: Distances) {
    exists i :: Common(dv, dw, i)
  }

  /** Among the vertices below n, `a` is reached by both sides, no common
      vertex has a smaller sum, and every common vertex before `a` has a
      strictly larger sum. */
  ghost predicate IsMinimiserBelow(dv: Distances, dw: Distances, a: int, n: int) {
    && 0 <= a < n && Common(dv, dw, a)
    && (forall k :: 0 <= k < n && Common(dv, dw, k) ==> SumAt(dv, dw, a) <= SumAt(dv, dw, k))
    && (forall k :: 0 <= k < a && Common(dv, dw, k) ==> SumAt(dv, dw, a) < SumAt(dv, dw, k))
  }

  /** `a` is the lowest-index vertex with the least distance sum. */
  ghost predicate IsLowestMinimiser(dv: Distances, dw: Distances, a: int) {
    IsMinimiserBelow(dv, dw, a, |dv|)
  }

  /** The declarative answer: the lowest-index minimiser of the distance sum
      together with that sum, or `NoAncestor` when nothing is common. */
  ghost predicate IsSap(dv: Distances, dw: Distances, r: SapResult) {
    if HasCommon(dv, dw) then
      IsLowestMinimiser(dv, dw, r.ancestor) && r.length == SumAt(dv, dw, r.ancestor)
    else
      r == NoAncestor
  }

  /** At most one pair meets the declarative answer. */
  lemma IsSapUnique(dv: Distances, dw: Distances, r1: SapResult, r2: SapResult)
    requires IsSap(dv, dw, r1) && IsSap(dv, dw, r2)
    ensures r1 == r2
  {
  }

  /** A common vertex below n guarantees a minimiser below n. */
  lemma {:induction false} MinimiserExists(dv: Distances, dw: Distances, n: nat, i: int)
    requires Common(dv, dw, i) && i < n
    ensures exists a :: IsMinimiserBelow(dv, dw, a, n)
  {
    if exists j :: 0 <= j < n - 1 && Common(dv, dw, j) {
      var j :| 0 <= j < n - 1 && Common(dv, dw, j);
      MinimiserExists(dv, dw, n - 1, j);
      var a :| IsMinimiserBelow(dv, dw, a, n - 1);
      if Common(dv, dw, n - 1) && SumAt(dv, dw, n - 1) < SumAt(dv, dw, a) {
        assert IsMinimiserBelow(dv, dw, n - 1, n);
      } else {
        assert IsMinimiserBelow(dv, dw, a, n);
      }
    } else {
      assert IsMinimiserBelow(dv, dw, i, n);
    }
  }

  /** The declarative answer, which exists and is unique. */
  ghost function SapOf(dv: Distances, dw: Distances): (r: SapResult)
    ensures IsSap(dv, dw, r)
  {
    if HasCommon(dv, dw) then
      var i :| Common(dv, dw, i);
      MinimiserExists(dv, dw, |dv|, i);
      var a :| IsMinimiserBelow(dv, dw, a, |dv|);
      SapResult(SumAt(dv, dw, a), a)
    else
      NoAncestor
  }

  /** The scan of both search results over vertices 0 .. V-1. `minLength`
      stands for the source's INFINITY-initialised field, `None` meaning
      no common vertex seen yet; a candidate replaces the best only when its
      sum is strictly smaller, so the earliest minimiser stays. */
  method FindLengthAndAncestor(dv: Distances, dw: Distances) returns (r: SapResult)
    requires |dv| == |dw|
    ensures IsSap(dv, dw, r)
    ensures r == SapOf(dv, dw)
  {
    var minLength: Option<nat> := None;
    var ancestor := -1;
    var i := 0;
    while i < |dv|
      invariant 0 <= i <= |dv|
      invariant minLength.None? ==> ancestor == -1 && forall k :: 0 <= k < i ==> !Common(dv, dw, k)
      invariant minLength.Some? ==>
        IsMinimiserBelow(dv, dw, ancestor, i) && minLength.value == SumAt(dv, dw, ancestor)
    {
      if dv[i].Some? && dw[i].Some? {
        var dist := dv[i].value + dw[i].value;
        if minLength.None? || dist < minLength.value {
          minLength := Some(dist);
          ancestor := i;
        }
      }
      i := i + 1;
    }
    if minLength.None? {
      r := NoAncestor;
    } else {
      r := SapResult(minLength.value, ancestor);
    }
    IsSapUnique(dv, dw, r, SapOf(dv, dw));
  }

  /** Swapping the two sides changes nothing: the sum commutes and the scan
      order does not depend on which side is which. */
  lemma SapSymmetric(dv: Distances, dw: Distances)
    ensures SapOf(dv, dw) == SapOf(dw, dv)
  {
    var r := SapOf(dv, dw);
    assert forall i :: Common(dv, dw, i) <==> Common(dw, dv, i);
    assert forall i :: Common(dv, dw, i) ==> SumAt(dv, dw, i) == SumAt(dw, dv, i);
    assert IsSap(dw, dv, r);
    IsSapUnique(dw, dv, r, SapOf(dw, dv));
  }

  /** Querying a vertex against itself meets at that vertex with length 0:
      it is the only vertex either search puts at distance 0. */
  lemma SelfMeeting(g: Graph, v: int)
    requires WellFormed(g) && IsVertex(g, v)
    ensures SapOf(Search(g, {v}), Search(g, {v})) == SapResult(0, v)
  {
    var d := Search(g, {v});
    var r := SapOf(d, d);
    SourcesAtZero(g, {v}, v);
    assert Common(d, d, v);
    SourcesAtZero(g, {v}, r.ancestor);
  }

  /** A shortest distance in graph terms is what the search records. */
  lemma SearchRecords(g: Graph, a: set<int>, x: int, d: nat)
    requires WellFormed(g) && SourcesValid(g, a) && IsDistance(g, a, x, d)
    ensures IsVertex(g, x) && Search(g, a)[x] == Some(d)
  {
    var p :| PathFromTo(g, a, p, x) && |p| == d + 1;
    assert IsVertex(g, x);
    DistanceUnique(g, a, x, d, Search(g, a)[x].value);
  }

  lemma CommonIffReachable(g: Graph, a: set<int>, b: set<int>)
    requires WellFormed(g) && SourcesValid(g, a) && SourcesValid(g, b)
    ensures HasCommon(Search(g, a), Search(g, b)) <==> exists x :: Reachable(g, a, x) && Reachable(g, b, x)
  {
    var dv, dw := Search(g, a), Search(g, b);
    if exists x :: Reachable(g, a, x) && Reachable(g, b, x) {
      var x :| Reachable(g, a, x) && Reachable(g, b, x);
      var p :| PathFromTo(g, a, p, x);
      assert IsVertex(g, x);
      assert Common(dv, dw, x);
    }
  }

  /** No common ancestor has a smaller sum of shortest distances than `len`,
      and every common ancestor with a lower id than `anc` has a larger one. */
  ghost predicate LeastAncestral(g: Graph, a: set<int>, b: set<int>, len: int, anc: int) {
    && (forall x: int, dx: nat, ex: nat :: IsDistance(g, a, x, dx) && IsDistance(g, b, x, ex) ==> len <= dx + ex)
    && (forall x: int, dx: nat, ex: nat :: x < anc && IsDistance(g, a, x, dx) && IsDistance(g, b, x, ex) ==> len < dx + ex)
  }

  lemma SapIsLeast(g: Graph, a: set<int>, b: set<int>)
    requires WellFormed(g) && SourcesValid(g, a) && SourcesValid(g, b)
    requires HasCommon(Search(g, a), Search(g, b))
    ensures LeastAncestral(g, a, b, SapOf(Search(g, a), Search(g, b)).length, SapOf(Search(g, a), Search(g, b)).ancestor)
  {
    var dv, dw := Search(g, a), Search(g, b);
    var r := SapOf(dv, dw);
    forall x: int, dx: nat, ex: nat | IsDistance(g, a, x, dx) && IsDistance(g, b, x, ex)
      ensures r.length <= dx + ex
      ensures x < r.ancestor ==> r.length < dx + ex
    {
      SearchRecords(g, a, x, dx);
      SearchRecords(g, b, x, ex);
      assert Common(dv, dw, x);
    }
  }

  /** The scan's answer in graph terms: -1 exactly when no vertex is
      reachable from both sides; otherwise a vertex reachable from both whose
      two shortest distances add up to the length, no common ancestor has a
      smaller sum, and every common ancestor of lower id has a larger one. */
  lemma ShortestAncestralPath(g: Graph, a: set<int>, b: set<int>)
    requires WellFormed(g) && SourcesValid(g, a) && SourcesValid(g, b)
    ensures var r := SapOf(Search(g, a), Search(g, b));
      && (r.length == -1 <==> !exists x :: Reachable(g, a, x) && Reachable(g, b, x))
      && (r.length == -1 ==> r.ancestor == -1)
      && (r.length != -1 ==>
        && IsDistance(g, a, r.ancestor, Search(g, a)[r.ancestor].value)
        && IsDistance(g, b, r.ancestor, Search(g, b)[r.ancestor].value)
        && r.length == Search(g, a)[r.ancestor].value + Search(g, b)[r.ancestor].value
        && LeastAncestral(g, a, b, r.length, r.ancestor))
  {
    CommonIffReachable(g, a, b);
    if HasCommon(Search(g, a), Search(g, b)) {
      SapIsLeast(g, a, b);
    }
  }

  /** The bound check on one id, as written: it refuses a negative id or an
      id greater than V, so the id V itself passes. */
  function CheckVertex(g: Graph, v: int): (r: Outcome<Error>)
    ensures r.Fail? ==> r.error == IndexOutOfBounds
    ensures IsVertex(g, v) ==> r.Pass?
    ensures v < 0 || v > |g| ==> r.Fail?
  {
    if v < 0 || v > |g| then Fail(IndexOutOfBounds) else Pass
  }

  /** The id V passes the bound check although it is not a vertex. */
  lemma CheckVertexAdmitsV(g: Graph)
    ensures CheckVertex(g, |g|) == Pass && !IsVertex(g, |g|)
  {
  }

  /** The bound check over a sequence of ids, one id after the other. */
  function CheckVertices(g: Graph, vs: seq<int>): (r: Outcome<Error>)
    ensures r.Pass? <==> forall i :: 0 <= i < |vs| ==> CheckVertex(g, vs[i]).Pass?
    ensures r.Fail? ==> r.error == IndexOutOfBounds
  {
    if |vs| == 0 then Pass
    else if CheckVertex(g, vs[0]).Fail? then CheckVertex(g, vs[0])
    else CheckVertices(g, vs[1..])
  }

  function Elements(vs: seq<int>): set<int> {
    set x | x in vs
  }

  predicate AllVertices(g: Graph, vs: seq<int>) {
    forall i :: 0 <= i < |vs| ==> IsVertex(g, vs[i])
  }

  /** A side the search accepts: at least one id, every id a vertex. */
  predicate ValidSide(g: Graph, vs: seq<int>) {
    |vs| > 0 && AllVertices(g, vs)
  }

  /** Why the search refuses a side: an id that is not a vertex, otherwise
      an empty id sequence. */
  function SideError(g: Graph, vs: seq<int>): Error {
    if AllVertices(g, vs) then IllegalArgument else VertexRejected
  }

  /** Builds the breadth-first search from the given ids; the search refuses
      an id outside [0, V) and an empty id sequence. */
  function SearchFrom(g: Graph, vs: seq<int>): (r: Result<Distances, Error>)
    requires WellFormed(g)
    ensures r.Success? <==> |vs| > 0 && AllVertices(g, vs)
    ensures r.Failure? ==> r.error == (if AllVertices(g, vs) then IllegalArgument else VertexRejected)
    ensures r.Success? ==> SourcesValid(g, Elements(vs)) && Elements(vs) != {} && r.value == Search(g, Elements(vs))
  {
    if !AllVertices(g, vs) then Failure(VertexRejected)
    else if |vs| == 0 then Failure(IllegalArgument)
    else
      assert vs[0] in Elements(vs);
      Success(Search(g, Elements(vs)))
  }

  /** Both searches then the scan: the pair for these two sides. The search
      of the first side is built first, so its refusal is the one raised. */
  method Meet(g: Graph, vs: seq<int>, ws: seq<int>) returns (r: Result<SapResult, Error>)
    requires WellFormed(g)
    ensures r.Success? <==> ValidSide(g, vs) && ValidSide(g, ws)
    ensures r.Failure? ==> r.error == if !ValidSide(g, vs) then SideError(g, vs) else SideError(g, ws)
    ensures r.Success? ==> r.value == SapOf(Search(g, Elements(vs)), Search(g, Elements(ws)))
  {
    var bv := SearchFrom(g, vs);
    if bv.Failure? {
      return Failure(bv.error);
    }
    var bw := SearchFrom(g, ws);
    if bw.Failure? {
      return Failure(bw.error);
    }
    var sap := FindLengthAndAncestor(bv.value, bw.value);
    return Success(sap);
  }

  /** The single-vertex query behind `length` and `ancestor`: bound checks
      on both ids, then both searches and the scan. */
  method QueryOne(g: Graph, v: int, w: int) returns (r: Result<SapResult, Error>)
    requires WellFormed(g)
    ensures r.Success? <==> IsVertex(g, v) && IsVertex(g, w)
    ensures r.Failure? ==> r.error == if CheckVertex(g, v).Pass? && CheckVertex(g, w).Pass? then VertexRejected else IndexOutOfBounds
    ensures r.Success? ==> r.value == SapOf(Search(g, {v}), Search(g, {w}))
  {
    var cv := CheckVertex(g, v);
    if cv.Fail? {
      return Failure(cv.error);
    }
    var cw := CheckVertex(g, w);
    if cw.Fail? {
      return Failure(cw.error);
    }
    assert Elements([v]) == {v} && Elements([w]) == {w};
    r := Meet(g, [v], [w]);
  }

  /** The error the set query raises: the bound checks of both sides come
      first, then the refusal of the first side's search, then the second's. */
  function SetsError(g: Graph, vs: seq<int>, ws: seq<int>): Error {
    if CheckVertices(g, vs).Fail? || CheckVertices(g, ws).Fail? then IndexOutOfBounds
    else if !ValidSide(g, vs) then SideError(g, vs)
    else SideError(g, ws)
  }

  /** The set query behind the set forms of `length` and `ancestor`: a null
      side is refused first, then every id of both sides is bound-checked,
      then both searches and the scan run. */
  method QuerySets(g: Graph, vs: Option<seq<int>>, ws: Option<seq<int>>) returns (r: Result<SapResult, Error>)
    requires WellFormed(g)
    ensures vs.None? || ws.None? ==> r == Failure(NullPointer)
    ensures vs.Some? && ws.Some? ==> (r.Success? <==> ValidSide(g, vs.value) && ValidSide(g, ws.value))
    ensures vs.Some? && ws.Some? && r.Failure? ==>
      r.error == SetsError(g, vs.value, ws.value)
    ensures r.Success? ==> r.value == SapOf(Search(g, Elements(vs.value)), Search(g, Elements(ws.value)))
  {
    if vs.None? || ws.None? {
      return Failure(NullPointer);
    }
    var cv := CheckVertices(g, vs.value);
    if cv.Fail? {
      return Failure(cv.error);
    }
    var cw := CheckVertices(g, ws.value);
    if cw.Fail? {
      return Failure(cw.error);
    }
    r := Meet(g, vs.value, ws.value);
  }

  /** `length(v, w)`: the shortest ancestral length, -1 when there is none. */
  method Length(g: Graph, v: int, w: int) returns (r: Result<int, Error>)
    requires WellFormed(g)
    ensures r.Success? <==> IsVertex(g, v) && IsVertex(g, w)
    ensures r.Failure? ==> r.error == if CheckVertex(g, v).Pass? && CheckVertex(g, w).Pass? then VertexRejected else IndexOutOfBounds
    ensures r.Success? ==> r.value == SapOf(Search(g, {v}), Search(g, {w})).length
    ensures r.Success? && v == w ==> r.value == 0
  {
    var q := QueryOne(g, v, w);
    if q.Failure? {
      return Failure(q.error);
    }
    if v == w {
      SelfMeeting(g, v);
    }
    return Success(q.value.length);
  }

  /** `ancestor(v, w)`: the meeting vertex of a shortest ancestral path, -1
      when there is none. */
  method Ancestor(g: Graph, v: int, w: int) returns (r: Result<int, Error>)
    requires WellFormed(g)
    ensures r.Success? <==> IsVertex(g, v) && IsVertex(g, w)
    ensures r.Failure? ==> r.error == if CheckVertex(g, v).Pass? && CheckVertex(g, w).Pass? then VertexRejected else IndexOutOfBounds
    ensures r.Success? ==> r.value == SapOf(Search(g, {v}), Search(g, {w})).ancestor
    ensures r.Success? && v == w ==> r.value == v
  {
    var q := QueryOne(g, v, w);
    if q.Failure? {
      return Failure(q.error);
    }
    if v == w {
      SelfMeeting(g, v);
    }
    return Success(q.value.ancestor);
  }

  /** `length(vs, ws)` over two vertex sets. */
  method LengthSets(g: Graph, vs: Option<seq<int>>, ws: Option<seq<int>>) returns (r: Result<int, Error>)
    requires WellFormed(g)
    ensures vs.None? || ws.None? ==> r == Failure(NullPointer)
    ensures vs.Some? && ws.Some? ==> (r.Success? <==> ValidSide(g, vs.value) && ValidSide(g, ws.value))
    ensures vs.Some? && ws.Some? && r.Failure? ==>
      r.error == SetsError(g, vs.value, ws.value)
    ensures r.Success? ==> r.value == SapOf(Search(g, Elements(vs.value)), Search(g, Elements(ws.value))).length
  {
    var q := QuerySets(g, vs, ws);
    if q.Failure? {
      return Failure(q.error);
    }
    return Success(q.value.length);
  }

  /** `ancestor(vs, ws)` over two vertex sets. */
  method AncestorSets(g: Graph, vs: Option<seq<int>>, ws: Option<seq<int>>) returns (r: Result<int, Error>)
    requires WellFormed(g)
    ensures vs.None? || ws.None? ==> r == Failure(NullPointer)
    ensures vs.Some? && ws.Some? ==> (r.Success? <==> ValidSide(g, vs.value) && ValidSide(g, ws.value))
    ensures vs.Some? && ws.Some? && r.Failure? ==>
      r.error == SetsError(g, vs.value, ws.value)
    ensures r.Success? ==> r.value == SapOf(Search(g, Elements(vs.value)), Search(g, Elements(ws.value))).ancestor
  {
    var q := QuerySets(g, vs, ws);
    if q.Failure? {
      return Failure(q.error);
    }
    return Success(q.value.ancestor);
  }
}
