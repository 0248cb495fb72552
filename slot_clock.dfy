/**
 * The slot clock: which partition of the one-second window is active at a
 * given millisecond reading of the steady clock.  The clock itself is not
 * modelled; its reading `ms` is a parameter.
 */
module SlotClock {

  import opened Arith

  /**
   * The tick interval `1000 / P` in milliseconds (integer division).  For
   * 1 <= P <= 1000 it is positive and P ticks fit in one second (the cycle is
   * shorter than a second when P does not divide 1000); for P > 1000 it is 0.
   */
  function Interval(p: nat): (i: nat)
    requires 0 < p
    ensures p <= 1000 ==> 1 <= i && i * p <= 1000 && 1000 - i * p < p
    ensures p > 1000 ==> i == 0
  {
    1000 / p
  }

  /**
   * The active partition: `ms / interval % P`.  Defined only when the
   * interval is positive, i.e. P <= 1000; for larger P the source divides by
   * zero here.
   */
  function Slot(ms: nat, p: nat): (s: nat)
    requires 0 < p <= 1000
    ensures s < p
  {
    ms / Interval(p) % p
  }

  /** `(a + n) % p` only depends on `a % p`. */
  lemma ModShift(a: nat, n: nat, p: nat)
    requires 0 < p
    ensures (a + n) % p == (a % p + n) % p
  {
    var b := a % p + n;
    DivModUnique(a + n, p, a / p + b / p, b % p);
  }

  /** One tick interval later, the slot has moved on by one, wrapping at P. */
  lemma SlotAdvances(ms: nat, p: nat)
    requires 0 < p <= 1000
    ensures Slot(ms + Interval(p), p) == (Slot(ms, p) + 1) % p
  {
    var i := Interval(p);
    DivModUnique(ms + i, i, ms / i + 1, ms % i);
    ModShift(ms / i, 1, p);
  }

  /** The slots repeat with period P * interval milliseconds. */
  lemma SlotPeriodic(ms: nat, p: nat)
    requires 0 < p <= 1000
    ensures Slot(ms + p * Interval(p), p) == Slot(ms, p)
  {
    var i := Interval(p);
    DivModUnique(ms + p * i, i, ms / i + p, ms % i);
    ModShift(ms / i, p, p);
    DivModUnique(ms / i % p + p, p, 1, ms / i % p);
  }

  /** Within one tick interval the slot does not change. */
  lemma SlotSteady(ms: nat, d: nat, p: nat)
    requires 0 < p <= 1000 && ms % Interval(p) + d < Interval(p)
    ensures Slot(ms + d, p) == Slot(ms, p)
  {
    var i := Interval(p);
    DivModUnique(ms + d, i, ms / i, ms % i + d);
  }
}
