/**
 The retry timer. Durations are whole nanoseconds and the factor is an integer, for
 which the floating-point powers of the code are exact in the range it uses.
 */
module Backoff {

  /** Largest product the code converts back to a duration: `math.MaxInt64 - 512`. */
  const GUARD: int := 0x7fff_ffff_ffff_ffff - 512
  const MAX_INT64: int := 0x7fff_ffff_ffff_ffff
  const COUNTER: nat := 0x1_0000_0000_0000_0000

  const DEFAULT_MIN: int := 1_000_000_000
  const DEFAULT_MAX: int := 100_000_000_000
  const DEFAULT_FACTOR: int := 2

  function Pow(f: nat, k: nat): nat {
    if k == 0 then 1 else f * Pow(f, k - 1)
  }

  function Min(a: int, b: int): int {
    if a < b then a else b
  }

  /** The attempt-th wait: `forAttempt`. */
  function ForAttempt(min: int, max: int, factor: nat, attempt: nat): int {
    if min >= max then max
    else
      var dur := min * Pow(factor, attempt);
      if dur > GUARD then max
      else if dur < min then min
      else if dur > max then max
      else dur
  }

  class Backoff {
    const min: int
    const max: int
    const factor: nat
    var attempt: nat  // an unsigned 64-bit counter

    ghost predicate Valid()
      reads this
    {
      0 < min <= MAX_INT64 && 0 < max <= MAX_INT64 && factor > 0 && attempt < COUNTER
    }

    constructor (min: int, max: int, factor: int)
      requires min <= MAX_INT64 && max <= MAX_INT64
      ensures Valid() && attempt == 0
      ensures this.min == (if min <= 0 then 1_000_000_000 else min)
      ensures this.max == (if max <= 0 then 100_000_000_000 else max)
      ensures this.factor == (if factor <= 0 then 2 else factor)
    {
      this.min := if min <= 0 then DEFAULT_MIN else min;
      this.max := if max <= 0 then DEFAULT_MAX else max;
      this.factor := if factor <= 0 then DEFAULT_FACTOR else factor;
      attempt := 0;
    }

    /** Hands out the next wait and counts it; the wait fits an `int64`. */
    method Duration() returns (d: int)
      requires Valid()
      modifies this
      ensures Valid() && attempt == (old(attempt) + 1) % 0x1_0000_0000_0000_0000
      ensures d == ForAttempt(min, max, factor, old(attempt))
      ensures if min < max then min <= d <= max else d == max
      ensures 0 < d <= MAX_INT64
    {
      d := ForAttempt(min, max, factor, attempt);
      attempt := (attempt + 1) % COUNTER;
    }

    method Reset()
      requires Valid()
      modifies this
      ensures Valid() && attempt == 0
    {
      attempt := 0;
    }
  }

  /** The sum of the first `n` waits after a reset. */
  function Total(min: int, max: int, factor: nat, n: nat): int {
    if n == 0 then 0 else Total(min, max, factor, n - 1) + ForAttempt(min, max, factor, n - 1)
  }

  lemma {:induction false} PowPositive(f: nat, k: nat)
    requires f > 0
    ensures Pow(f, k) >= 1
  {
    if k > 0 {
      PowPositive(f, k - 1);
    }
  }

  lemma {:induction false} PowMonotone(f: nat, j: nat, k: nat)
    requires f > 0 && j <= k
    ensures Pow(f, j) <= Pow(f, k)
  {
    if j < k {
      PowMonotone(f, j, k - 1);
      Scale(Pow(f, k - 1), 1, f);
    }
  }

  lemma Scale(a: nat, x: nat, y: nat)
    requires x <= y
    ensures a * x <= a * y
  {
  }

  /** The k-th wait is min(Max, Min*Factor^k), except in the one gap the overflow
      guard leaves: a product above the guard and below Max becomes Max. */
  lemma ClosedForm(min: int, max: int, factor: nat, k: nat)
    requires 0 < min < max && factor > 0
    ensures ForAttempt(min, max, factor, k) == Min(max, min * Pow(factor, k)) <==>
            !(0x7fff_ffff_ffff_fdff < min * Pow(factor, k) < max)
  {
    PowPositive(factor, k);
    Scale(min, 1, Pow(factor, k));
  }

  /** The gap at an input: a first wait just above the guard is taken for an overflow. */
  lemma GapExists()
    ensures ForAttempt(GUARD + 1, MAX_INT64, 2, 0) == MAX_INT64
    ensures Min(MAX_INT64, (GUARD + 1) * Pow(2, 0)) == GUARD + 1 < MAX_INT64
  {
    ClosedForm(GUARD + 1, MAX_INT64, 2, 0);
  }

  /** No gap for the device manager's 1s to 64s, nor for any Max up to the guard. */
  lemma ClosedFormInRange(min: int, max: int, factor: nat, k: nat)
    requires 0 < min < max <= GUARD && factor > 0
    ensures ForAttempt(min, max, factor, k) == Min(max, min * Pow(factor, k))
  {
    ClosedForm(min, max, factor, k);
  }

  lemma NonDecreasing(min: int, max: int, factor: nat, j: nat, k: nat)
    requires 0 < min && factor > 0 && j <= k
    ensures ForAttempt(min, max, factor, j) <= ForAttempt(min, max, factor, k)
  {
    PowPositive(factor, j);
    PowMonotone(factor, j, k);
    Scale(min, Pow(factor, j), Pow(factor, k));
    Scale(min, 1, Pow(factor, j));
  }

  // ---------- the step that reaches Max ----------

  /** The power of the factor at which the product first reaches Max. */
  ghost predicate IsMaxStep(min: int, max: int, factor: nat, s: nat) {
    s > 0 && min * Pow(factor, s) >= max && min * Pow(factor, s - 1) < max
  }

  function MaxStepFrom(min: int, max: int, factor: nat, s: nat): (r: nat)
    requires 0 < min < max && factor >= 2
    requires s > 0 && min * Pow(factor, s - 1) < max
    ensures IsMaxStep(min, max, factor, r)
    decreases max - min * Pow(factor, s - 1)
  {
    if min * Pow(factor, s) >= max then s
    else
      PowPositive(factor, s - 1);
      Doubling(min, factor, Pow(factor, s - 1));
      MaxStepFrom(min, max, factor, s + 1)
  }

  function MaxStep(min: int, max: int, factor: nat): (s: nat)
    requires 0 < min < max && factor >= 2
    ensures IsMaxStep(min, max, factor, s)
  {
    MaxStepFrom(min, max, factor, 1)
  }

  lemma {:induction false} PowExceeds(factor: nat, k: nat)
    requires factor >= 2
    ensures Pow(factor, k) >= k + 1
  {
    if k > 0 {
      PowExceeds(factor, k - 1);
      assert factor * Pow(factor, k - 1) >= 2 * Pow(factor, k - 1);
    }
  }

  /** It is less than Max/Min. */
  lemma MaxStepBound(min: int, max: int, factor: nat)
    requires 0 < min < max && factor >= 2
    ensures min * MaxStep(min, max, factor) < max
  {
    var s := MaxStep(min, max, factor);
    PowExceeds(factor, s - 1);
    Scale(min, s, Pow(factor, s - 1));
  }

  lemma MaxStepIsUnique(min: int, max: int, factor: nat, s: nat)
    requires 0 < min < max && factor >= 2 && IsMaxStep(min, max, factor, s)
    ensures MaxStep(min, max, factor) == s
  {
    var r := MaxStep(min, max, factor);
    if r < s {
      PowMonotone(factor, r, s - 1);
      Scale(min, Pow(factor, r), Pow(factor, s - 1));
    } else if s < r {
      PowMonotone(factor, s, r - 1);
      Scale(min, Pow(factor, s), Pow(factor, r - 1));
    }
  }

  /** The wait is Max exactly from that step on, which comes after fewer than Max/Min
      waits. */
  lemma ReachesMax(min: int, max: int, factor: nat, k: nat)
    requires 0 < min < max <= GUARD && factor >= 2
    ensures ForAttempt(min, max, factor, k) == max <==> k >= MaxStep(min, max, factor)
    ensures min * MaxStep(min, max, factor) < max
  {
    var s := MaxStep(min, max, factor);
    MaxStepBound(min, max, factor);
    ClosedFormInRange(min, max, factor, k);
    if k >= s {
      PowMonotone(factor, s, k);
      Scale(min, Pow(factor, s), Pow(factor, k));
    } else {
      PowMonotone(factor, k, s - 1);
      Scale(min, Pow(factor, k), Pow(factor, s - 1));
    }
  }

  lemma Doubling(min: nat, factor: nat, x: nat)
    requires min > 0 && factor >= 2 && x > 0
    ensures min * (factor * x) > min * x
  {
    assert factor * x == x + (factor - 1) * x;
    assert (factor - 1) * x > 0;
    assert min * (factor * x) == min * x + min * ((factor - 1) * x);
    assert min * ((factor - 1) * x) > 0;
  }

  lemma {:induction false} TotalWhileGrowing(min: int, max: int, factor: nat, n: nat)
    requires 0 < min < max <= GUARD && factor >= 2 && n <= MaxStep(min, max, factor)
    ensures (factor - 1) * Total(min, max, factor, n) == min * (Pow(factor, n) - 1)
  {
    if n > 0 {
      TotalWhileGrowing(min, max, factor, n - 1);
      ReachesMax(min, max, factor, n - 1);
      ClosedFormInRange(min, max, factor, n - 1);
      Distribute(factor - 1, Total(min, max, factor, n - 1), ForAttempt(min, max, factor, n - 1));
      GeometricStep(min, factor, Pow(factor, n - 1));
    }
  }

  lemma {:induction false} TotalOnceAtMax(min: int, max: int, factor: nat, k: nat)
    requires 0 < min < max <= GUARD && factor >= 2
    ensures var s := MaxStep(min, max, factor);
            Total(min, max, factor, s + k) == Total(min, max, factor, s) + max * k
  {
    var s := MaxStep(min, max, factor);
    if k > 0 {
      TotalOnceAtMax(min, max, factor, k - 1);
      var n := s + (k - 1);
      ReachesMax(min, max, factor, n);
      assert Total(min, max, factor, n + 1) == Total(min, max, factor, n) + max;
      LinearStep(max, k);
    }
  }

  /** The total wait of n retries: geometric up to the step that reaches Max and linear
      from there on. */
  lemma TotalClosedForm(min: int, max: int, factor: nat, n: nat)
    requires 0 < min < max <= GUARD && factor >= 2
    ensures var s := MaxStep(min, max, factor);
            && (n <= s ==> (factor - 1) * Total(min, max, factor, n) == min * (Pow(factor, n) - 1))
            && (n >= s ==>
                  (factor - 1) * Total(min, max, factor, n) ==
                  min * (Pow(factor, s) - 1) + (factor - 1) * (max * (n - s)))
  {
    var s := MaxStep(min, max, factor);
    if n <= s {
      TotalWhileGrowing(min, max, factor, n);
    }
    if n >= s {
      TotalWhileGrowing(min, max, factor, s);
      TotalOnceAtMax(min, max, factor, n - s);
      Distribute(factor - 1, Total(min, max, factor, s), max * (n - s));
    }
  }

  /** The device manager's timer, 1s to 64s by doubling: 2^k seconds for the first six
      waits, 64 seconds from the seventh on. */
  lemma DeviceManagerSchedule(k: nat)
    ensures ForAttempt(1_000_000_000, 64_000_000_000, 2, k) ==
            if k < 6 then 1_000_000_000 * Pow(2, k) else 64_000_000_000
  {
    assert Pow(2, 6) == 64 && Pow(2, 5) == 32;
    MaxStepIsUnique(1_000_000_000, 64_000_000_000, 2, 6);
    ClosedFormInRange(1_000_000_000, 64_000_000_000, 2, k);
    ReachesMax(1_000_000_000, 64_000_000_000, 2, k);
  }

  lemma Distribute(a: int, x: int, y: int)
    ensures a * (x + y) == a * x + a * y
  {
  }

  lemma GeometricStep(min: int, factor: nat, x: nat)
    requires factor >= 1
    ensures min * (x - 1) + (factor - 1) * (min * x) == min * (factor * x - 1)
  {
    assert (factor - 1) * (min * x) == min * ((factor - 1) * x);
    assert (factor - 1) * x == factor * x - x;
  }

  lemma LinearStep(a: int, k: nat)
    requires k >= 1
    ensures a * (k - 1) + a == a * k
  {
  }
}
