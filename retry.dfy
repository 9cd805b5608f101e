/**
 * The retry policy (`RetryManager`): whether a failed job is retried, and how
 * long the worker waits before releasing it.  The random jitter is an input,
 * constrained to the interval `random.uniform(0, max_jitter)` draws from.
 */
module Retry {

  /** `base` and `max_jitter` of a RetryManager. */
  datatype RetryPolicy = RetryPolicy(base: int, maxJitter: real)

  /** `RetryManager()` as the worker builds it. */
  const DefaultPolicy: RetryPolicy := RetryPolicy(2, 1.0)

  /** `b ** n` on Python integers, for a non-negative exponent; at least one
      for a base of at least one. */
  function Pow(b: int, n: nat): (r: int)
    ensures b >= 1 ==> r >= 1
    decreases n
  {
    if n == 0 then 1 else b * Pow(b, n - 1)
  }

  /** `should_retry(current_attempts, max_retries)`. */
  function ShouldRetry(currentAttempts: int, maxRetries: int): (r: bool)
    ensures r <==> currentAttempts < maxRetries
  {
    currentAttempts < maxRetries
  }

  /** A job whose budget is zero (or negative) is never retried, whatever its
      attempt count. */
  lemma NoRetryWithoutBudget(currentAttempts: nat, maxRetries: int)
    requires maxRetries <= 0
    ensures !ShouldRetry(currentAttempts, maxRetries)
  {
  }

  /** The retry rule is monotone: once a count is refused, every larger count
      is refused too. */
  lemma RefusalIsFinal(c: int, c': int, maxRetries: int)
    requires !ShouldRetry(c, maxRetries) && c <= c'
    ensures !ShouldRetry(c', maxRetries)
  {
  }

  /** The exponential part of `calculate_backoff(attempt)`. */
  function ExponentialDelay(p: RetryPolicy, attempt: nat): (d: int)
    ensures p.base >= 1 ==> d >= 1
  {
    Pow(p.base, attempt)
  }

  /** `calculate_backoff(attempt)` with the drawn jitter: the delay lies between
      the exponential part and the exponential part plus `max_jitter`. */
  function CalculateBackoff(p: RetryPolicy, attempt: nat, jitter: real): (delay: real)
    requires 0.0 <= jitter <= p.maxJitter
    ensures ExponentialDelay(p, attempt) as real <= delay
    ensures delay <= ExponentialDelay(p, attempt) as real + p.maxJitter
  {
    ExponentialDelay(p, attempt) as real + jitter
  }

  /** For a base of at least one the exponential part never shrinks as the
      attempt count grows. */
  lemma {:induction false} ExponentialDelayMonotone(p: RetryPolicy, m: nat, n: nat)
    requires p.base >= 1 && m <= n
    ensures ExponentialDelay(p, m) <= ExponentialDelay(p, n)
    decreases n - m
  {
    if m < n {
      ExponentialDelayMonotone(p, m, n - 1);
      assert Pow(p.base, n) == p.base * Pow(p.base, n - 1);
    }
  }

  /** With the default policy the exponential part doubles from one attempt to
      the next, starting at one second. */
  lemma DefaultDelayDoubles(attempt: nat)
    ensures ExponentialDelay(DefaultPolicy, 0) == 1
    ensures ExponentialDelay(DefaultPolicy, attempt + 1) == 2 * ExponentialDelay(DefaultPolicy, attempt)
  {
  }

  /** Whatever jitter is drawn, the backoff for a later attempt is at least the
      exponential part of any earlier one (base at least one). */
  lemma BackoffGrowsWithAttempts(p: RetryPolicy, m: nat, n: nat, jm: real, jn: real)
    requires p.base >= 1 && m <= n
    requires 0.0 <= jm <= p.maxJitter && 0.0 <= jn <= p.maxJitter
    ensures CalculateBackoff(p, n, jn) >= ExponentialDelay(p, m) as real
  {
    ExponentialDelayMonotone(p, m, n);
  }
}
