/**
 * Outcast detection: given a list of nouns, the outcast is the noun whose
 * summed distance to the other entries of the list is largest.  The distance
 * is a parameter here (in the program it is the WordNet distance), so the
 * model is the selection itself.
 *
 * The program skips a noun's own slot by reference identity. The model skips
 * by slot, which assumes one string object per slot; a caller may pass the
 * same object twice. `TotalsAgree` shows the difference is harmless when
 * every noun is at distance zero from itself, as the WordNet distance is.
 */
module Outcast {
  import opened Wrappers
  import opened Errors

  /** A distance between two nouns. */
  type Distance = (string, string) -> int

  /** Sum of `dist(nouns[i], nouns[j])` over the slots `j < n` other than `i`. */
  function PartialTotal(nouns: seq<string>, dist: Distance, i: nat, n: nat): int
    requires i < |nouns| && n <= |nouns|
  {
    if n == 0 then 0
    else PartialTotal(nouns, dist, i, n - 1) + (if n - 1 != i then dist(nouns[i], nouns[n - 1]) else 0)
  }

  /** The total distance from slot `i` to every other slot. */
  function Total(nouns: seq<string>, dist: Distance, i: nat): int
    requires i < |nouns|
  {
    PartialTotal(nouns, dist, i, |nouns|)
  }

  /** Sum of `dist(nouns[i], nouns[j])` over all slots `j < n`, own slot included. */
  function PartialSum(nouns: seq<string>, dist: Distance, i: nat, n: nat): int
    requires i < |nouns| && n <= |nouns|
  {
    if n == 0 then 0 else PartialSum(nouns, dist, i, n - 1) + dist(nouns[i], nouns[n - 1])
  }

  /** Sum of `dist(nouns[i], nouns[j])` over the slots `j < n` whose noun
      differs from `nouns[i]` as a value. */
  function PartialDistinctSum(nouns: seq<string>, dist: Distance, i: nat, n: nat): int
    requires i < |nouns| && n <= |nouns|
  {
    if n == 0 then 0
    else PartialDistinctSum(nouns, dist, i, n - 1) + (if nouns[n - 1] != nouns[i] then dist(nouns[i], nouns[n - 1]) else 0)
  }

  /** A distance under which every noun is at distance zero from itself. */
  predicate ZeroOnSelf(nouns: seq<string>, dist: Distance) {
    forall j :: 0 <= j < |nouns| ==> dist(nouns[j], nouns[j]) == 0
  }

  /** When every noun is at distance zero from itself, skipping the own slot,
      skipping no slot and skipping every slot holding an equal noun all give
      the same total. */
  lemma {:induction false} PartialTotalsAgree(nouns: seq<string>, dist: Distance, i: nat, n: nat)
    requires i < |nouns| && n <= |nouns|
    requires ZeroOnSelf(nouns, dist)
    ensures PartialTotal(nouns, dist, i, n) == PartialSum(nouns, dist, i, n)
    ensures PartialTotal(nouns, dist, i, n) == PartialDistinctSum(nouns, dist, i, n)
  {
    if n > 0 {
      PartialTotalsAgree(nouns, dist, i, n - 1);
      assert dist(nouns[n - 1], nouns[n - 1]) == 0;
      assert dist(nouns[i], nouns[i]) == 0;
    }
  }

  /** The whole-list form of `PartialTotalsAgree`. */
  lemma TotalsAgree(nouns: seq<string>, dist: Distance, i: nat)
    requires i < |nouns|
    requires ZeroOnSelf(nouns, dist)
    ensures Total(nouns, dist, i) == PartialSum(nouns, dist, i, |nouns|)
    ensures Total(nouns, dist, i) == PartialDistinctSum(nouns, dist, i, |nouns|)
  {
    PartialTotalsAgree(nouns, dist, i, |nouns|);
  }

  /** Every slot before `n` has a total of at most zero. */
  predicate NoneAbove(nouns: seq<string>, dist: Distance, n: nat)
    requires n <= |nouns|
  {
    forall i :: 0 <= i < n ==> Total(nouns, dist, i) <= 0
  }

  /** Slot `k` holds the earliest strictly positive maximum among the slots
      before `n`. */
  predicate EarliestMax(nouns: seq<string>, dist: Distance, n: nat, k: nat)
    requires n <= |nouns|
  {
    && k < n
    && Total(nouns, dist, k) > 0
    && (forall i :: 0 <= i < n ==> Total(nouns, dist, i) <= Total(nouns, dist, k))
    && (forall i :: 0 <= i < k ==> Total(nouns, dist, i) < Total(nouns, dist, k))
  }

  /** The slot the selection settles on among the first `n` slots: the first
      one when no total exceeds zero, otherwise the earliest maximal total. */
  predicate SelectedAmong(nouns: seq<string>, dist: Distance, n: nat, k: nat)
    requires n <= |nouns|
  {
    (k == 0 && NoneAbove(nouns, dist, n)) || EarliestMax(nouns, dist, n, k)
  }

  /** The outcast slot of the whole list. */
  predicate IsOutcast(nouns: seq<string>, dist: Distance, k: nat) {
    0 < |nouns| && SelectedAmong(nouns, dist, |nouns|, k)
  }

  /** At most one slot is the outcast. */
  lemma OutcastUnique(nouns: seq<string>, dist: Distance, k1: nat, k2: nat)
    requires IsOutcast(nouns, dist, k1) && IsOutcast(nouns, dist, k2)
    ensures k1 == k2
  {
  }

  /** The slot `outcast(nouns)` returns: the running maximum starts at zero
      with the first slot, and a slot replaces it only with a strictly larger
      total, so ties keep the earlier slot. */
  method OutcastIndex(nouns: seq<string>, dist: Distance) returns (k: nat)
    requires 0 < |nouns|
    ensures k < |nouns|
    ensures IsOutcast(nouns, dist, k)
  {
    var maxDist := 0;
    k := 0;
    var i := 0;
    while i < |nouns|
      invariant 0 <= i <= |nouns|
      invariant k < |nouns|
      invariant SelectedAmong(nouns, dist, i, k)
      invariant NoneAbove(nouns, dist, i) ==> maxDist == 0 && k == 0
      invariant EarliestMax(nouns, dist, i, k) ==> maxDist == Total(nouns, dist, k)
    {
      var tempDist := 0;
      var j := 0;
      while j < |nouns|
        invariant 0 <= j <= |nouns|
        invariant tempDist == PartialTotal(nouns, dist, i, j)
      {
        if j != i {
          tempDist := tempDist + dist(nouns[i], nouns[j]);
        }
        j := j + 1;
      }
      assert tempDist == Total(nouns, dist, i);
      if tempDist > maxDist {
        maxDist := tempDist;
        k := i;
      }
      i := i + 1;
    }
  }

  /** `outcast(nouns)`: a null array fails on its length, an empty one is
      rejected, and otherwise the noun in the outcast slot is returned. */
  method Outcast(nouns: Option<seq<string>>, dist: Distance) returns (r: Result<string, Error>)
    ensures nouns.None? ==> r == Failure(NullPointer)
    ensures nouns.Some? && |nouns.value| == 0 ==> r == Failure(IllegalArgument)
    ensures nouns.Some? && 0 < |nouns.value| ==>
      r.Success? && exists k :: 0 <= k < |nouns.value| && IsOutcast(nouns.value, dist, k) && r.value == nouns.value[k]
  {
    if nouns.None? {
      return Failure(NullPointer);
    }
    if |nouns.value| == 0 {
      return Failure(IllegalArgument);
    }
    var k := OutcastIndex(nouns.value, dist);
    return Success(nouns.value[k]);
  }
}
