/**
 * The permit pool as values: the live counters `remaining` beside the
 * immutable `quota`, and the two state changes the critical sections make,
 * taking one permit from a slot and refilling a slot to its quota.
 */
module PermitPool {

  import opened PartitionPlan

  /** The pool invariant: one counter per partition, each within [0, quota]. */
  predicate Bounded(remaining: seq<int>, quota: seq<int>)
  {
    |remaining| == |quota| &&
    forall i :: 0 <= i < |remaining| ==> 0 <= remaining[i] <= quota[i]
  }

  /** Take one permit from slot `i`: exactly one permit leaves the pool. */
  function Taken(remaining: seq<int>, i: nat): (r: seq<int>)
    requires i < |remaining|
    ensures |r| == |remaining|
    ensures Sum(r) == Sum(remaining) - 1
  {
    SumUpdate(remaining, i, remaining[i] - 1);
    remaining[i := remaining[i] - 1]
  }

  /** Refill slot `i` to its quota: the pool gains what that slot had used. */
  function Refilled(remaining: seq<int>, quota: seq<int>, i: nat): (r: seq<int>)
    requires i < |remaining| == |quota|
    ensures |r| == |remaining|
    ensures Sum(r) == Sum(remaining) + (quota[i] - remaining[i])
  {
    SumUpdate(remaining, i, quota[i]);
    remaining[i := quota[i]]
  }

  /**
   * Taking from a slot that still has a permit keeps the invariant, lowers
   * only that slot, by one, and leaves every other slot as it was.
   */
  lemma TakenKeepsBounded(remaining: seq<int>, quota: seq<int>, i: nat)
    requires Bounded(remaining, quota) && i < |remaining| && remaining[i] > 0
    ensures Bounded(Taken(remaining, i), quota)
    ensures Taken(remaining, i)[i] == remaining[i] - 1
    ensures forall j :: 0 <= j < |remaining| && j != i ==> Taken(remaining, i)[j] == remaining[j]
  {
  }

  /** Refilling keeps the invariant and only touches the refilled slot. */
  lemma RefilledKeepsBounded(remaining: seq<int>, quota: seq<int>, i: nat)
    requires Bounded(remaining, quota) && i < |remaining|
    ensures Bounded(Refilled(remaining, quota, i), quota)
    ensures Refilled(remaining, quota, i)[i] == quota[i]
    ensures forall j :: 0 <= j < |remaining| && j != i ==> Refilled(remaining, quota, i)[j] == remaining[j]
  {
  }

  /**
   * A refill repairs the slot it touches: if every other slot is within its
   * quota and the quotas are not negative, the refilled counters satisfy the
   * invariant again, whatever the refilled slot held before (-1 included).
   */
  lemma RefilledRepairs(remaining: seq<int>, quota: seq<int>, i: nat)
    requires i < |remaining| == |quota|
    requires forall j :: 0 <= j < |quota| ==> 0 <= quota[j]
    requires forall j :: 0 <= j < |remaining| && j != i ==> 0 <= remaining[j] <= quota[j]
    ensures Bounded(Refilled(remaining, quota, i), quota)
  {
  }

  /** Refilling the same slot twice is the same as refilling it once. */
  lemma RefilledIdempotent(remaining: seq<int>, quota: seq<int>, i: nat)
    requires i < |remaining| == |quota|
    ensures Refilled(Refilled(remaining, quota, i), quota, i) == Refilled(remaining, quota, i)
  {
  }

  /** Under the invariant, the pool holds between zero and the whole budget. */
  lemma {:induction false} BoundedSum(remaining: seq<int>, quota: seq<int>)
    requires Bounded(remaining, quota)
    ensures 0 <= Sum(remaining) <= Sum(quota)
  {
    if remaining != [] {
      assert Bounded(remaining[1..], quota[1..]) by {
        forall i | 0 <= i < |remaining| - 1
          ensures 0 <= remaining[1..][i] <= quota[1..][i]
        {
          assert remaining[1..][i] == remaining[i + 1];
        }
      }
      BoundedSum(remaining[1..], quota[1..]);
    }
  }

  /**
   * Taking from a slot whose counter is already 0 breaks the invariant:
   * that counter becomes -1.
   */
  lemma TakenFromEmptyBreaksBounded(remaining: seq<int>, quota: seq<int>, i: nat)
    requires Bounded(remaining, quota) && i < |remaining| && remaining[i] == 0
    ensures !Bounded(Taken(remaining, i), quota)
    ensures Taken(remaining, i)[i] == -1
  {
  }
}
