/** Backoff, jitter and Retry-After arithmetic; durations are integers in nanoseconds. */
module RetryTiming {
  import opened Common
  import opened ErrorTrees
  import opened Text
  import opened DoublePrecision

  const MILLISECOND := 1_000_000
  const SECOND := 1_000_000_000
  const MAX_DURATION := MAX_INT64
  const MAX_REPLY_RETRY_AFTER := 5 * SECOND
  const INITIAL_BACKOFF := 50 * MILLISECOND

  /** `halfJitter`, in double precision. */
  function HalfJitter(base: int, draw: nat): (r: int)
    requires draw < DRAWS
    ensures 0 < base < DRAWS ==> base / 2 <= r <= base
  {
    if base <= 0 then base
    else
      var half := base / 2;
      JitterBound(draw, base - half);
      half + Scaled(53, draw, base - half)
  }

  lemma JitterBound(draw: nat, span: nat)
    requires draw < DRAWS
    ensures span < DRAWS ==> Scaled(53, draw, span) <= span
  {
    if span < DRAWS {
      DrawsIsPow2();
      ScaledBound(53, draw, span);
    }
  }

  function ClampDuration(value: int, low: int, high: int): int {
    Min(Max(value, low), high)
  }

  /** The delay before the next attempt, and whether a Retry-After header set it. */
  function RetryDelay(err: Error, fallback: int, draw: nat): (int, bool)
    requires draw < DRAWS
  {
    var found := FindHTTPError(err);
    if found.Some? && found.value.HTTPError? && found.value.retryAfter > 0
    then (ClampDuration(found.value.retryAfter, fallback, MAX_REPLY_RETRY_AFTER), true)
    else (HalfJitter(fallback, draw), false)
  }

  function NextBackoff(backoff: int): int {
    Min(backoff * 2, SECOND)
  }

  /** The backoff before retry `k` (the first retry is 1), in closed form. */
  function Backoff(k: nat): int
    requires k >= 1
  {
    Min(INITIAL_BACKOFF * Pow2(k - 1), SECOND)
  }

  lemma BackoffDoubles(k: nat)
    requires k >= 1
    ensures NextBackoff(Backoff(k)) == Backoff(k + 1)
    ensures 0 < Backoff(k) <= SECOND
  {
    assert Pow2(k) == 2 * Pow2(k - 1);
  }

  /** What one wait may last when it is retry `k`. */
  predicate DelayInBounds(k: nat, delay: int, byRetryAfter: bool)
    requires k >= 1
  {
    if byRetryAfter then Backoff(k) <= delay <= MAX_REPLY_RETRY_AFTER
    else Backoff(k) / 2 <= delay <= Backoff(k)
  }

  lemma RetryDelayInBounds(err: Error, k: nat, draw: nat)
    requires k >= 1 && draw < DRAWS
    ensures var (delay, byRetryAfter) := RetryDelay(err, Backoff(k), draw);
            DelayInBounds(k, delay, byRetryAfter) && 0 <= delay <= MAX_REPLY_RETRY_AFTER
  {
    BackoffDoubles(k);
  }

  /** `date` is the Retry-After instant minus now, when the value is an HTTP date. */
  function ParseRetryAfter(header: bytes, date: Option<int>): int {
    var value := TrimSpace(header);
    if value == [] then 0
    else
      var seconds := ParseInt64(value);
      if seconds.Some? then
        if seconds.value <= 0 then 0
        else if seconds.value > MAX_DURATION / SECOND then MAX_DURATION
        else seconds.value * SECOND
      else if AllDigits(value) then MAX_DURATION
      else if date.None? || date.value <= 0 then 0
      else date.value
  }

  lemma DigitsAreTrimmed(value: bytes)
    requires AllDigits(value)
    ensures TrimSpace(value) == value
  {
    TrimSpaceTrims(value);
  }

  /** Section 10.2.3 of RFC 9110: delay-seconds of any length never overflow, they saturate. */
  lemma DelaySecondsSaturate(value: bytes, date: Option<int>)
    requires value != [] && AllDigits(value)
    ensures ParseRetryAfter(value, date) == Min(DigitsValue(value) * SECOND, MAX_DURATION)
  {
    DigitsAreTrimmed(value);
    assert IsDigit(value[0]);
  }
}
