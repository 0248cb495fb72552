/**
 * The rate limiter object: the quota array (`partition_`), fixed after
 * construction, and the live counters (`permits_`), which acquisitions
 * decrement and ticks refill.  Each method models the state change of one
 * critical section; the lock, the condition variable and the tick thread are
 * not modelled, and every clock reading is a parameter `ms`.
 */
module Limiter {

  import opened PartitionPlan
  import opened SlotClock
  import opened PermitPool

  class RateLimiter {
    /** The partition count, the template parameter PARTITION. */
    const P: nat
    /** The tick interval `1000 / P` in milliseconds. */
    const interval: nat
    /** Per-partition quota (`partition_`). */
    const quota: array<int>
    /** Per-partition remaining permits (`permits_`). */
    const remaining: array<int>
    /** The permit budget the object was built with. */
    ghost const budget: nat

    /**
     * The shape of the object, which every operation keeps: two separate
     * arrays of length P, quotas that are not negative and add up to the
     * budget.  The counters themselves are not constrained here.
     */
    ghost predicate Wellformed()
      reads quota, remaining
    {
      0 < P && interval == Interval(P) &&
      quota != remaining &&
      quota.Length == P && remaining.Length == P &&
      (forall i :: 0 <= i < P ==> 0 <= quota[i]) &&
      Sum(quota[..]) == budget
    }

    /** The pool invariant on top of the shape: every counter within [0, quota]. */
    ghost predicate Valid()
      reads quota, remaining
    {
      Wellformed() && Bounded(remaining[..], quota[..])
    }

    /**
     * Build the quota plan for `permit` over `p` partitions and start with
     * every partition full.
     */
    constructor (p: nat, permit: nat)
      requires 0 < p
      ensures Valid()
      ensures P == p && budget == permit
      ensures quota[..] == QuotaPlan(permit, p)
      ensures remaining[..] == quota[..]
      ensures fresh(quota) && fresh(remaining)
    {
      var q := BuildQuota(permit, p);
      ghost var plan := q[..];
      QuotaSum(permit, p);
      QuotaEntryRange(permit, p);
      assert Bounded(plan, plan);
      var rem := new int[p];
      forall j | 0 <= j < p {
        rem[j] := q[j];
      }
      assert q[..] == plan && rem[..] == plan;
      P, interval, quota, remaining, budget := p, Interval(p), q, rem, permit;
    }

    /** The accessor `partition()`: it returns the live counters, not the quotas. */
    function Partition(): (r: seq<int>)
      reads quota, remaining
      requires Wellformed()
      ensures |r| == P
      ensures Valid() ==> forall i :: 0 <= i < P ==> 0 <= r[i] <= quota[i]
    {
      remaining[..]
    }

    /**
     * The fast path of `acquire`: read the slot for `ms`; if its counter is
     * positive, take one permit and report success.  On failure (a counter
     * at 0, or below 0 after an overdraw) nothing changes and the caller goes
     * on to wait.
     */
    method TryAcquire(ms: nat) returns (granted: bool)
      requires Wellformed() && P <= 1000
      modifies remaining
      ensures Wellformed()
      ensures granted <==> old(remaining[Slot(ms, P)]) > 0
      ensures remaining[..] ==
                if granted then Taken(old(remaining[..]), Slot(ms, P)) else old(remaining[..])
      ensures old(Valid()) ==> Valid()
      ensures quota[..] == old(quota[..])
    {
      var idx := Slot(ms, P);
      granted := remaining[idx] > 0;
      if granted {
        if Valid() {
          TakenKeepsBounded(remaining[..], quota[..], idx);
        }
        remaining[idx] := remaining[idx] - 1;
      }
    }

    /**
     * The wait predicate of the blocked path: the slot for `ms` has a permit.
     * When it holds, taking from that slot keeps the pool invariant.
     */
    predicate CanWake(ms: nat)
      reads quota, remaining
      requires Wellformed() && P <= 1000
      ensures CanWake(ms) && Valid() ==> Bounded(Taken(remaining[..], Slot(ms, P)), quota[..])
    {
      remaining[Slot(ms, P)] > 0
    }

    /**
     * The blocked path after the wait returns, as written: the slot is read
     * again for `ms` (a second clock reading) and its counter is decremented
     * without checking it.  From a valid state the invariant survives exactly
     * when that slot still had a permit.
     */
    method TakeAfterWait(ms: nat)
      requires Wellformed() && P <= 1000
      modifies remaining
      ensures Wellformed()
      ensures remaining[..] == Taken(old(remaining[..]), Slot(ms, P))
      ensures old(Valid()) && old(remaining[Slot(ms, P)]) > 0 ==> Valid()
      ensures old(Valid()) && old(remaining[Slot(ms, P)]) == 0 ==> !Valid()
      ensures quota[..] == old(quota[..])
    {
      var idx := Slot(ms, P);
      if Valid() {
        if remaining[idx] > 0 {
          TakenKeepsBounded(remaining[..], quota[..], idx);
        } else {
          TakenFromEmptyBreaksBounded(remaining[..], quota[..], idx);
        }
      }
      remaining[idx] := remaining[idx] - 1;
    }

    /**
     * The blocked path after the wait returns, taking from the slot the wait
     * predicate found non-empty (`CanWake(ms)`), so the invariant is kept.
     * The source does not re-check the slot it decrements; this is the
     * corrected form.
     */
    method TakeAfterWaitChecked(ms: nat)
      requires Valid() && P <= 1000 && CanWake(ms)
      modifies remaining
      ensures Valid()
      ensures remaining[..] == Taken(old(remaining[..]), Slot(ms, P))
      ensures quota[..] == old(quota[..])
    {
      var idx := Slot(ms, P);
      TakenKeepsBounded(remaining[..], quota[..], idx);
      remaining[idx] := remaining[idx] - 1;
    }

    /**
     * One tick of the replenisher, after its sleep: refill the slot for `ms`
     * to its quota.  The refilled slot is within bounds afterwards, so a
     * state whose only fault is that slot (an overdraw to -1) is repaired.
     */
    method Tick(ms: nat)
      requires Wellformed() && P <= 1000
      modifies remaining
      ensures Wellformed()
      ensures remaining[..] == Refilled(old(remaining[..]), quota[..], Slot(ms, P))
      ensures 0 <= remaining[Slot(ms, P)] <= quota[Slot(ms, P)]
      ensures (forall j :: 0 <= j < P && j != Slot(ms, P) ==> 0 <= old(remaining[j]) <= quota[j])
              ==> Valid()
      ensures quota[..] == old(quota[..])
    {
      var idx := Slot(ms, P);
      if forall j :: 0 <= j < P && j != idx ==> 0 <= remaining[j] <= quota[j] {
        RefilledRepairs(remaining[..], quota[..], idx);
      }
      remaining[idx] := quota[idx];
    }
  }

  /**
   * The quota computation of the constructor: fill every partition with the
   * average, then add one unit at each of the `r` stride indices.
   */
  method BuildQuota(permit: nat, p: nat) returns (q: array<int>)
    requires 0 < p
    ensures fresh(q)
    ensures q[..] == QuotaPlan(permit, p)
  {
    var avg := permit / p;
    q := new int[p];
    for k := 0 to p
      invariant forall j :: 0 <= j < k ==> q[j] == avg
    {
      q[k] := avg;
    }
    assert q[..] == Fill(p, avg);
    var r := permit % p;
    if r != 0 {
      DistributeRemainder(q, avg, p / r, r);
    }
  }

  /** The remainder loop: increment the entries at the first `r` stride indices. */
  method DistributeRemainder(q: array<int>, avg: int, step: nat, r: nat)
    requires 0 < step && 0 < r && Stride(step, r - 1) < q.Length
    requires q[..] == Fill(q.Length, avg)
    modifies q
    ensures q[..] == Bump(Fill(q.Length, avg), step, r)
  {
    for i := 0 to r
      invariant q[..] == Bump(Fill(q.Length, avg), step, i)
    {
      if i < r - 1 {
        StrideMono(step, i, r - 1);
      }
      var j := Stride(step, i);
      q[j] := q[j] + 1;
    }
  }

  /**
   * The wake-up race: with P = 2 and budget 1 the quotas are [1, 0].  A caller
   * woken at ms = 0 sees slot 0 with a permit; if the clock has reached
   * ms = 500 when the slot is read again, slot 1 is decremented from 0 to -1.
   */
  lemma WakeRaceOverdraws()
    ensures QuotaPlan(1, 2) == [1, 0]
    ensures Slot(0, 2) == 0 && Slot(500, 2) == 1
    ensures Bounded([1, 0], [1, 0]) && [1, 0][Slot(0, 2)] > 0
    ensures Taken([1, 0], Slot(500, 2)) == [1, -1]
    ensures !Bounded(Taken([1, 0], Slot(500, 2)), QuotaPlan(1, 2))
  {
    assert QuotaPlan(1, 2)[0] == 1;
  }

  /** A client run: budget 7 over 5 partitions, two grants and a refusal in slot 0, a refill, then a woken caller takes its permit. */
  method ClientRun()
  {
    var rl := new RateLimiter(5, 7);
    QuotaExamples();
    assert Slot(0, 5) == 0 && Slot(10, 5) == 0 && Slot(199, 5) == 0 && Slot(1000, 5) == 0;
    assert rl.Partition() == [2, 1, 2, 1, 1];
    var ok := rl.TryAcquire(0);
    assert ok && rl.Partition() == [1, 1, 2, 1, 1];
    ok := rl.TryAcquire(10);
    assert ok && rl.Partition() == [0, 1, 2, 1, 1];
    ok := rl.TryAcquire(199);
    assert !ok;
    rl.Tick(1000);
    assert rl.Partition() == [2, 1, 2, 1, 1];
    assert rl.CanWake(1000);
    rl.TakeAfterWaitChecked(1000);
    assert rl.Partition() == [1, 1, 2, 1, 1];
  }

  /** The clock readings of `RaceRun`, with two 500 ms slots. */
  lemma RaceClock()
    ensures Slot(0, 2) == 0 && Slot(1000, 2) == 0
    ensures Slot(1500, 2) == 1 && Slot(1600, 2) == 1 && Slot(2500, 2) == 1
  {
  }

  /**
   * The wake-up race on the object and what follows it: P = 2, budget 1.  The
   * overdrawn slot is refused by the fast path and repaired by its next tick.
   */
  method RaceRun()
  {
    WakeRaceOverdraws();
    RaceClock();
    var rl := new RateLimiter(2, 1);
    var ok := rl.TryAcquire(0);
    assert ok && rl.Partition() == [0, 0];
    rl.Tick(1000);
    assert rl.Partition() == [1, 0] && rl.CanWake(1000);
    rl.TakeAfterWait(1500);
    assert rl.Partition() == [1, -1] && !rl.Valid();
    ok := rl.TryAcquire(1600);
    assert !ok && rl.Partition() == [1, -1];
    rl.Tick(2500);
    assert rl.Partition() == [1, 0] && rl.Valid();
  }
}
