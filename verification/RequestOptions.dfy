/** The options of a request that bound its retries: internal/core/reqctx/reqctxs.go. */
module RequestOptions {
  import opened Wrappers

  const MAX_ATTEMPTS := 30

  /** In milliseconds. */
  const MAX_TIMEOUT := 300_000

  const MILLISECOND := 1_000_000

  /** Go's integer division, toward zero. */
  function Quotient(a: int, b: nat): int
    requires b > 0
  {
    if a >= 0 then a / b else -((-a) / b)
  }

  /** Go's int64. */
  function Wrap64(x: int): int {
    (x + 0x8000_0000_0000_0000) % 0x1_0000_0000_0000_0000 - 0x8000_0000_0000_0000
  }

  function Least(x: int, y: int): int {
    if x < y then x else y
  }

  /** An argument is `None` when it is absent or not a number. */
  function Attempts(attempts: Option<int>, maxRetryCount: Option<int>): (n: nat)
    ensures 1 <= n <= MAX_ATTEMPTS
  {
    if attempts.Some? && attempts.value > 0 then Least(attempts.value, MAX_ATTEMPTS)
    else if maxRetryCount.Some? && maxRetryCount.value > 0 then Least(maxRetryCount.value, MAX_ATTEMPTS)
    else 3
  }

  /** Milliseconds. The product with a millisecond is an int64, so a huge argument wraps around. */
  function Timeout(timeout: Option<int>): (t: int)
    ensures t <= MAX_TIMEOUT
  {
    if timeout.None? then 30_000
    else
      var duration := Wrap64(timeout.value * MILLISECOND);
      if duration < MAX_TIMEOUT * MILLISECOND then Quotient(duration, MILLISECOND) else MAX_TIMEOUT
  }

  /** A positive `attempts` counts, else a positive `maxRetryCount`, each up to 30; otherwise three. */
  lemma AttemptsExactly(attempts: Option<int>, maxRetryCount: Option<int>)
    ensures forall v: int :: attempts == Some(v) && 1 <= v <= 30 ==> Attempts(attempts, maxRetryCount) == v
    ensures forall v: int :: attempts == Some(v) && v > 30 ==> Attempts(attempts, maxRetryCount) == 30
    ensures (attempts == None || attempts.value <= 0) ==>
      && (forall v: int :: maxRetryCount == Some(v) && 1 <= v <= 30 ==> Attempts(attempts, maxRetryCount) == v)
      && (forall v: int :: maxRetryCount == Some(v) && v > 30 ==> Attempts(attempts, maxRetryCount) == 30)
      && (maxRetryCount == None || maxRetryCount.value <= 0 ==> Attempts(attempts, maxRetryCount) == 3)
  {
  }

  predicate Fits(v: int) {
    -9_223_372_036_854 <= v <= 9_223_372_036_854
  }

  /** The timeout is the argument capped at five minutes exactly when its duration fits in an int64, or
      wraps around to one of five minutes or more. */
  lemma TimeoutExactly(v: int)
    ensures Timeout(Some(v)) == Least(v, MAX_TIMEOUT) <==>
      Fits(v) || (v > 0 && Wrap64(v * MILLISECOND) >= MAX_TIMEOUT * MILLISECOND)
    ensures Timeout(None) == 30_000
  {
    if Fits(v) {
      assert Wrap64(v * MILLISECOND) == v * MILLISECOND;
    }
  }

  /** An argument for which it does not: about 585 years become no time at all. */
  lemma HugeTimeoutWraps()
    ensures Timeout(Some(18_446_744_073_710)) == 0
  {
  }
}
