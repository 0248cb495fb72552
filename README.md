# RateLimiter in Dafny

A Dafny model of the `RateLimiter` class of lizhanhui/RateLimiter (`main.cpp`).
The limiter caps permit acquisitions per second. It splits the second into
`PARTITION` time slices. Each slice has a quota (`partition_`) and a live
counter (`permits_`). An acquisition takes one permit from the slice the steady
clock currently points at. A background tick refills one slice to its quota
every `1000 / PARTITION` milliseconds.

The model has four modules.

- `PartitionPlan` (`partition_plan.dfy`) is the quota plan of the constructor.
  Every slice gets `budget / P`. The remainder `r = budget % P` adds one unit at
  indices `0, step, 2*step, …` for `r` indices, with `step = P / r`.
  `QuotaPlan` computes the plan the way the constructor does. It is checked
  against the closed-form placement (`IsExtra`), and the lemmas prove the sum
  and the entry range.
- `SlotClock` (`slot_clock.dfy`) is the slot function `ms / interval % P`.
  The clock reading `ms` is a parameter.
- `PermitPool` (`permit_pool.dfy`) holds the two state changes as values:
  `Taken` (decrement one counter) and `Refilled` (reset one counter to its
  quota). It also states the pool invariant `Bounded`, which is
  `0 <= remaining[i] <= quota[i]`.
- `Limiter` (`rate_limiter.dfy`) is the class itself, `RateLimiter`. It has two
  `const` arrays, `quota` and `remaining`, and methods for the critical sections
  of `acquire` and `tick`. Each method is specified against the `PermitPool`
  functions. Methods modify `remaining` only, so `quota` is never written after
  the constructor. Two predicates describe the object. `Wellformed` is its
  shape, which every operation keeps. `Valid` adds `0 <= remaining[i] <= quota[i]`.
  The methods that follow the code need only `Wellformed`, so the model goes
  on after an overdraw as the program does. The fast path refuses a counter
  at -1, and the slot's next tick puts it back within bounds (`RaceRun`).

`PARTITION` is a template parameter in the source. Here it is the immutable
field `P`, with `P > 0` required by the constructor. For `P > 1000` the
interval is 0 and `slot()` divides by zero, so every method that reads the
clock requires `P <= 1000`. `Interval` states both cases.

Three points where the code behaves differently from what one might expect of a rate limiter:

- The invariant `0 <= remaining[i]` is meant to hold at all times, but it does not hold for
  the blocked path of `acquire` as written. See Findings.
- The accessor `partition()` returns the live counters (`permits_`), not the
  quotas. `Partition` models that.
- A partition count of 0 is ruled out by a precondition, not by a
  configuration error. The source has no such check: `1000 / PARTITION` at
  main.cpp:12 simply divides by zero.

## Model

| member | source | states |
|---|---|---|
| `PartitionPlan.SumFill` | main.cpp:13-16 | the first loop, which gives each of the P entries the average, places `P * avg` permits in all |
| `PartitionPlan.StrideFits` | main.cpp:18-23 | when `0 < r < P`, the step `P / r` is positive and the last stride index `(r-1)*step` is below P |
| `PartitionPlan.StrideWritesDistinct` | main.cpp:20-24 | the `r` stride writes `i*step` are all in `[0, P)` and strictly increasing, so no write leaves the array and no index is incremented twice |
| `PartitionPlan.Bump` | main.cpp:20-24 | after the first `n` stride writes, entry k has gained exactly one unit when k is a multiple of the step with quotient below n, and nothing otherwise |
| `PartitionPlan.SumBump` | main.cpp:22-24 | the `n` stride writes add exactly `n` to the total |
| `PartitionPlan.QuotaPlan` | main.cpp:13-25 | the quota array the constructor computes, P entries long: the average everywhere, then the stride writes when the remainder is positive (its properties are the rows below) |
| `PartitionPlan.QuotaSum` | main.cpp:13-25 | the quota entries sum to the permit budget (`P*avg + r == permit`): no permit is lost or duplicated |
| `PartitionPlan.QuotaEntryRange` | main.cpp:13-24 | every quota entry is `permit / P` or `permit / P + 1` |
| `PartitionPlan.QuotaPlacement` | main.cpp:18-24 | entry k is `avg + 1` iff `r > 0`, `k % step == 0` and `k / step < r`, and `avg` otherwise |
| `PartitionPlan.QuotaExamples` | main.cpp:12-27 | budget 7 over 5 gives `[2,1,2,1,1]`; 500 over 5 gives five 100s; 0 gives all zeros; 8 over 5 gives `[2,2,2,1,1]`, so extras cluster at low indices |
| `SlotClock.Interval` | main.cpp:12 | for `1 <= P <= 1000` the interval is at least 1 ms, P intervals fit in one second and fall short of it by less than P ms; for `P > 1000` it is 0 |
| `SlotClock.Slot` | main.cpp:49-53 | for a clock reading `ms >= 0` and `1 <= P <= 1000`, the slot is in `[0, P)` |
| `SlotClock.SlotAdvances` | main.cpp:52 | one interval later the slot is the next one, wrapping from `P-1` to 0 |
| `SlotClock.SlotPeriodic` | main.cpp:52 | the slot sequence repeats every `P * interval` ms |
| `SlotClock.SlotSteady` | main.cpp:52 | readings within the same interval give the same slot |
| `PermitPool.Taken` | main.cpp:60 | taking a permit lowers the pool total by exactly one |
| `PermitPool.Refilled` | main.cpp:78 | refilling slot i raises the pool total by exactly what slot i had used (`quota[i] - remaining[i]`) |
| `PermitPool.TakenKeepsBounded` | main.cpp:59-61 | if the slot has a permit, taking one keeps `0 <= remaining <= quota`, lowers that slot by one and leaves every other slot unchanged |
| `PermitPool.RefilledKeepsBounded` | main.cpp:78 | a refill keeps the invariant, sets the slot to its quota and leaves every other slot unchanged |
| `PermitPool.RefilledRepairs` | main.cpp:78 | with non-negative quotas, refilling slot i restores the invariant whenever every other slot is within bounds, whatever slot i held (-1 included) |
| `PermitPool.RefilledIdempotent` | main.cpp:78 | refilling the same slot twice is the same as refilling it once |
| `PermitPool.BoundedSum` | main.cpp:84-85 | under the invariant the pool holds between 0 and the sum of the quotas, i.e. at most the budget |
| `PermitPool.TakenFromEmptyBreaksBounded` | main.cpp:68-69 | an unchecked decrement of a slot at 0 leaves it at -1 and breaks the invariant |
| `Limiter.BuildQuota` | main.cpp:13-25 | the two loops of the constructor build exactly `QuotaPlan(permit, P)` in a fresh array |
| `Limiter.DistributeRemainder` | main.cpp:20-24 | the remainder loop turns the all-average array into `Bump` of it with the stride `P / r` over `r` writes |
| `Limiter.RateLimiter.constructor` | main.cpp:12-27 | the quota is `QuotaPlan(permit, P)`, the counters start equal to it (a copy, not an alias), the interval is `1000 / P`, and the invariant holds |
| `Limiter.RateLimiter.Partition` | main.cpp:45-47 | the accessor returns the P live counters (not the quotas), each within `[0, quota[i]]` whenever the invariant holds |
| `Limiter.RateLimiter.TryAcquire` | main.cpp:55-62 | from any well-formed state, including one with an overdrawn counter: grants iff the current slot's counter is positive; on a grant only that counter drops, by one; otherwise nothing changes; the quota is unchanged and a valid state stays valid |
| `Limiter.RateLimiter.CanWake` | main.cpp:64-66 | the wait predicate: the slot for the clock reading has a permit, and when it does, taking from that slot keeps the invariant |
| `Limiter.RateLimiter.TakeAfterWait` | main.cpp:68-69 | as written: decrements the slot read at line 68 without a check; from a valid state the invariant survives iff that slot still had a permit, and breaks if it was 0; the object stays well-formed |
| `Limiter.RateLimiter.TakeAfterWaitChecked` | main.cpp:64-69 | decrementing the slot whose count the wake predicate (`CanWake`) found positive keeps the invariant and changes only that slot |
| `Limiter.RateLimiter.Tick` | main.cpp:73-81 | sets the current slot's counter to its quota and leaves the others and the quota unchanged; the refilled slot is within bounds afterwards, so the invariant holds whenever the other slots were within bounds, which repairs an overdraw of that slot |
| `Limiter.WakeRaceOverdraws` | main.cpp:64-69 | with P = 2 and budget 1 (quotas `[1,0]`), a wake predicate read at 0 ms sees a permit in slot 0, a re-read at 500 ms points at slot 1, and the decrement drives slot 1 to -1 |

## Findings

| source | as written | input that shows it | evidently intended | confidence | as-written member | corrected member |
|---|---|---|---|---|---|---|
| main.cpp:64-69 | after the wait, `slot()` is read again (line 68) and that slot is decremented (line 69) with no check that it has a permit | P = 2, budget 1, counters `[1,0]`; the wake predicate reads the clock at 0 ms (slot 0, one permit), line 68 reads it at 500 ms (slot 1, no permit); slot 1 becomes -1 | decrement the slot whose count the wake predicate checked, so `0 <= remaining[i]` always holds | not executed; medium: needs a slot boundary between two clock reads under the same lock | `Limiter.RateLimiter.TakeAfterWait`, `Limiter.WakeRaceOverdraws` | `Limiter.RateLimiter.TakeAfterWaitChecked` |

## Left out

- Threads, `std::mutex`, `std::condition_variable` and the `stopped_` flag (main.cpp:29-43, 58, 64-67, 77-79) are concurrency. Each method models the state change of one critical section as a sequential step.
- The waiting itself (main.cpp:64-67) is not modelled. Its predicate is `RateLimiter.CanWake`. Blocking and the broadcast wake-up are left out.
- The tick loop and the destructor's join are left out; `Tick` models one iteration after its sleep.
- `std::this_thread::sleep_for` and `std::chrono::steady_clock::now()` (main.cpp:50-51, 74) are time. Each clock reading is a parameter `ms`. It is a `nat`, since a steady clock's time since its epoch is not negative.
- `getAndSet` and `getAndReset` (main.cpp:104-116) are an atomic compare-exchange loop. They are pure concurrency.
- `operator<<` (main.cpp:95-102) is stream output.
- `main` (main.cpp:118-155) is a demonstration driver.
- Negative budgets are not modelled; the budget is a `nat`. With C++ truncating division, a negative `permit` gives a remainder of 0 or below, so the stride loop never runs. Every quota is then `permit / P` rounded toward zero. That is 0 when `-P < permit < 0` and negative when `permit <= -P`.
- 32-bit `int` and 64-bit `long` widths are not modelled. The modelled operations cannot overflow for an `int` budget: an extra unit only goes to an entry below the budget. A decrement only happens on a positive counter, except on the as-written post-wait path.
- `partition()` (main.cpp:45-47) returns a mutable reference to `permits_`. A caller can write the counters through it without the lock. `Partition` returns a copy of the counters, so that aliasing and any writes through it are not modelled.
- `P > 1000` is excluded from the clock-reading methods. There the source divides by zero in `slot()`.
