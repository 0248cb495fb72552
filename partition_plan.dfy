/**
 * The quota plan of the rate limiter: how an integer permit budget is split
 * across P partitions (the time slices of one second).  Every partition gets
 * `budget / P`; the remainder `r = budget % P` is handed out one unit at a
 * time at the stride indices 0, step, 2*step, ... with `step = P / r`.
 */
module PartitionPlan {

  import opened Arith

  /** Sum of a sequence of counts. */
  function Sum(s: seq<int>): int
  {
    if s == [] then 0 else s[0] + Sum(s[1..])
  }

  /** Replacing one entry changes the sum by exactly the difference. */
  lemma {:induction false} SumUpdate(s: seq<int>, j: nat, v: int)
    requires j < |s|
    ensures Sum(s[j := v]) == Sum(s) - s[j] + v
  {
    if j == 0 {
      assert s[j := v][1..] == s[1..];
    } else {
      assert s[j := v][1..] == s[1..][j - 1 := v];
      SumUpdate(s[1..], j - 1, v);
    }
  }

  /** A sequence of `n` copies of `v`. */
  function Fill(n: nat, v: int): (s: seq<int>)
    ensures |s| == n
    ensures forall k :: 0 <= k < n ==> s[k] == v
  {
    seq(n, _ => v)
  }

  lemma {:induction false} SumFill(n: nat, v: int)
    ensures Sum(Fill(n, v)) == n * v
  {
    if n > 0 {
      assert Fill(n, v)[1..] == Fill(n - 1, v);
      SumFill(n - 1, v);
    }
  }

  /** The i-th stride index written by the remainder loop. */
  function Stride(step: nat, i: nat): nat
  {
    i * step
  }

  /**
   * `k` is the i-th stride index exactly when it is a multiple of `step`
   * whose quotient is `i`.
   */
  lemma StrideHit(step: nat, i: nat, k: nat)
    requires 0 < step
    ensures (k % step == 0 && k / step == i) <==> k == Stride(step, i)
  {
    if k == Stride(step, i) {
      DivModUnique(k, step, i, 0);
    }
  }

  /** Stride indices grow with their position when step is positive. */
  lemma StrideMono(step: nat, a: nat, b: nat)
    requires a < b && 0 < step
    ensures Stride(step, a) < Stride(step, b)
  {
    assert Stride(step, b) - Stride(step, a) == (b - a) * step;
  }

  /**
   * With 0 < r < p and step = p / r, the step is positive and the last
   * stride index (r - 1) * step is still inside [0, p).
   */
  lemma StrideFits(p: nat, r: nat)
    requires 0 < r < p
    ensures 0 < p / r
    ensures Stride(p / r, r - 1) < p
  {
    var step := p / r;
    assert p == r * step + p % r;
    assert step * r <= p;
    assert Stride(step, r - 1) == step * r - step;
  }

  /**
   * The stride writes of the remainder loop: for i = 0, 1, ..., n - 1 the entry
   * at `Stride(step, i)` is incremented.  The result differs from `s` by one
   * exactly at the multiples k of `step` whose quotient is below `n`.
   */
  function Bump(s: seq<int>, step: nat, n: nat): (r: seq<int>)
    requires 0 < step
    requires n == 0 || Stride(step, n - 1) < |s|
    ensures |r| == |s|
    ensures forall k :: 0 <= k < |s| ==>
              r[k] == s[k] + (if k % step == 0 && k / step < n then 1 else 0)
    decreases n
  {
    if n == 0 then s
    else
      var j := Stride(step, n - 1);
      var t := (if n > 1 then StrideMono(step, n - 2, n - 1); Bump(s, step, n - 1)
                else Bump(s, step, n - 1));
      assert forall k :: 0 <= k < |s| ==>
               ((k % step == 0 && k / step == n - 1) <==> k == j) by {
        forall k | 0 <= k < |s| ensures (k % step == 0 && k / step == n - 1) <==> k == j {
          StrideHit(step, n - 1, k);
        }
      }
      t[j := t[j] + 1]
  }

  /** Each stride write adds exactly one unit to the total. */
  lemma {:induction false} SumBump(s: seq<int>, step: nat, n: nat)
    requires 0 < step
    requires n == 0 || Stride(step, n - 1) < |s|
    ensures Sum(Bump(s, step, n)) == Sum(s) + n
  {
    if n > 0 {
      if n > 1 {
        StrideMono(step, n - 2, n - 1);
      }
      SumBump(s, step, n - 1);
      var t := Bump(s, step, n - 1);
      var j := Stride(step, n - 1);
      SumUpdate(t, j, t[j] + 1);
      assert Bump(s, step, n) == t[j := t[j] + 1];
    }
  }

  /** The per-partition average `budget / p`. */
  function Avg(budget: nat, p: nat): nat
    requires 0 < p
  {
    budget / p
  }

  /**
   * Whether partition `k` is one of the `budget % p` partitions that receive
   * an extra unit: the remainder is positive, `k` is a multiple of the step
   * and its quotient is below the remainder.
   */
  predicate IsExtra(budget: nat, p: nat, k: nat)
    requires 0 < p
  {
    var r := budget % p;
    r > 0 && k % (p / r) == 0 && k / (p / r) < r
  }

  /**
   * The quota array the constructor builds, computed the way the constructor
   * computes it: fill with the average, then bump the stride indices.
   */
  function QuotaPlan(budget: nat, p: nat): (q: seq<int>)
    requires 0 < p
    ensures |q| == p
  {
    var avg := Avg(budget, p);
    var r := budget % p;
    if r == 0 then Fill(p, avg)
    else
      StrideFits(p, r);
      Bump(Fill(p, avg), p / r, r)
  }

  /**
   * Exact placement: entry k is avg + 1 when k is an extra partition and avg
   * otherwise.
   */
  lemma QuotaPlacement(budget: nat, p: nat, k: nat)
    requires 0 < p && k < p
    ensures QuotaPlan(budget, p)[k] ==
              if IsExtra(budget, p, k) then Avg(budget, p) + 1 else Avg(budget, p)
  {
  }

  /** Every quota entry is the average or one more than it. */
  lemma QuotaEntryRange(budget: nat, p: nat)
    requires 0 < p
    ensures forall k :: 0 <= k < p ==>
              QuotaPlan(budget, p)[k] == budget / p || QuotaPlan(budget, p)[k] == budget / p + 1
  {
  }

  /**
   * The stride writes of the remainder loop are in bounds and pairwise
   * distinct, so no index is written twice and no write leaves the array.
   */
  lemma StrideWritesDistinct(budget: nat, p: nat)
    requires 0 < p && budget % p > 0
    ensures var r := budget % p;
            var step := p / r;
            0 < step &&
            (forall i :: 0 <= i < r ==> Stride(step, i) < p) &&
            (forall i, j :: 0 <= i < j < r ==> Stride(step, i) < Stride(step, j))
  {
    var r := budget % p;
    var step := p / r;
    StrideFits(p, r);
    forall i | 0 <= i < r ensures Stride(step, i) < p {
      if i < r - 1 {
        StrideMono(step, i, r - 1);
      }
    }
    forall i, j | 0 <= i < j < r ensures Stride(step, i) < Stride(step, j) {
      StrideMono(step, i, j);
    }
  }

  /** The plan is the average everywhere, bumped at the stride indices when there is a remainder. */
  lemma QuotaPlanUnfold(budget: nat, p: nat)
    requires 0 < p
    ensures budget % p == 0 ==> QuotaPlan(budget, p) == Fill(p, budget / p)
    ensures budget % p > 0 ==>
              (0 < p / (budget % p) && Stride(p / (budget % p), budget % p - 1) < p &&
               QuotaPlan(budget, p) == Bump(Fill(p, budget / p), p / (budget % p), budget % p))
  {
    if budget % p > 0 {
      StrideFits(p, budget % p);
    }
  }

  /** The quotas add up to the budget: p * avg + r == budget, nothing lost or duplicated. */
  lemma QuotaSum(budget: nat, p: nat)
    requires 0 < p
    ensures Sum(QuotaPlan(budget, p)) == budget
  {
    var avg := budget / p;
    var r := budget % p;
    var base := Fill(p, avg);
    var plan := QuotaPlan(budget, p);
    assert Sum(plan) == Sum(base) + r by {
      QuotaPlanUnfold(budget, p);
      if r > 0 {
        SumBump(base, p / r, r);
      }
    }
    SumFill(p, avg);
    assert budget == p * avg + r;
  }

  /** Worked examples: the remainder clusters near the low indices when the step is 1. */
  lemma QuotaExamples()
    ensures QuotaPlan(7, 5) == [2, 1, 2, 1, 1]
    ensures QuotaPlan(500, 5) == [100, 100, 100, 100, 100]
    ensures QuotaPlan(0, 5) == [0, 0, 0, 0, 0]
    ensures QuotaPlan(8, 5) == [2, 2, 2, 1, 1]
  {
    var a := QuotaPlan(7, 5);
    assert a[0] == 2 && a[1] == 1 && a[2] == 2 && a[3] == 1 && a[4] == 1;
    var b := QuotaPlan(8, 5);
    assert b[0] == 2 && b[1] == 2 && b[2] == 2 && b[3] == 1 && b[4] == 1;
  }
}
