/**
 The exponential retry schedule. The store measures every delay from the time of
 the FIRST failed fetch, and the exponent is the attempt counter as it stood
 BEFORE the failure being recorded: a record whose counter is k >= 1 is due
 2^(k-1) delay factors after its first failure, and a fresh record (k == 0) is
 due at once.
 */
module Backoff {

  /** Delay factor in milliseconds when the constructor is given none. */
  const DefaultDelayFactor: int := 60000

  /** 2^k, standing for the floating-point `Math.pow(2, k)` on the counters the
      store produces, which are small non-negative integers. */
  function Pow2(k: nat): (r: nat)
    ensures r >= 1
  {
    if k == 0 then 1 else 2 * Pow2(k - 1)
  }

  /** Time from the first failure to the next permitted retry, for a failure
      recorded while the counter stood at `attemptsBefore`. */
  function Delay(attemptsBefore: nat, factor: int): int {
    Pow2(attemptsBefore) * factor
  }

  /** The gap `nextRetryTime - firstFetchTime` of a record whose counter is
      `retryAttempts`. */
  function Gap(retryAttempts: nat, factor: int): int {
    if retryAttempts == 0 then 0 else Delay(retryAttempts - 1, factor)
  }

  lemma {:induction false} Pow2Monotone(j: nat, k: nat)
    requires j <= k
    ensures Pow2(j) <= Pow2(k)
    decreases k - j
  {
    if j < k {
      Pow2Monotone(j, k - 1);
      assert Pow2(k) == 2 * Pow2(k - 1);
    }
  }

  /** Each repeat failure doubles the gap, once the first delay has been applied. */
  lemma GapDoubles(k: nat, factor: int)
    requires k >= 1
    ensures Gap(k + 1, factor) == 2 * Gap(k, factor)
  {
  }

  /** With a non-negative factor the gap never shrinks as the counter grows. */
  lemma {:induction false} GapMonotone(j: nat, k: nat, factor: int)
    requires j <= k
    requires factor >= 0
    ensures Gap(j, factor) <= Gap(k, factor)
  {
    if j > 0 {
      Pow2Monotone(j - 1, k - 1);
      assert Pow2(j - 1) * factor <= Pow2(k - 1) * factor by {
        MultiplyMonotone(Pow2(j - 1), Pow2(k - 1), factor);
      }
    }
  }

  lemma MultiplyMonotone(a: nat, b: nat, c: int)
    requires a <= b && c >= 0
    ensures a * c <= b * c
  {
  }

  /** With the default factor the gaps after 0, 1, 2 and 3 repeat failures are
      0, 60000, 120000 and 240000 milliseconds. */
  lemma DefaultGaps()
    ensures Gap(0, DefaultDelayFactor) == 0
    ensures Gap(1, DefaultDelayFactor) == 60000
    ensures Gap(2, DefaultDelayFactor) == 120000
    ensures Gap(3, DefaultDelayFactor) == 240000
  {
  }
}
