/** Waiting times: the exponential delays of stream/session.go and exchange/executor.go, the
    Retry-After headers both read, and the bounds of a session's reconnect delay. Durations are
    Go's int64 nanoseconds. */
module Backoff {
  import opened Integers
  import opened Results

  const SECOND := 1_000_000_000

  function Pow2(n: nat): (p: nat)
    ensures p > 0
  {
    if n == 0 then 1 else 2 * Pow2(n - 1)
  }

  /** The delay of the given attempt, doubled each time and capped. */
  function Exponential(minimum: nat, maximum: nat, attempt: nat): int
    requires attempt >= 1
  {
    Min(maximum, minimum * Pow2(attempt - 1))
  }

  lemma DoublingStays(minimum: nat, maximum: nat, n: nat)
    requires minimum * Pow2(n) >= maximum
    ensures forall m | m >= n :: minimum * Pow2(m) >= maximum
  {
    forall m | m >= n ensures minimum * Pow2(m) >= maximum {
      PowersRise(minimum, n, m);
    }
  }

  lemma {:induction false} PowersRise(minimum: nat, n: nat, m: nat)
    requires n <= m
    ensures minimum * Pow2(n) <= minimum * Pow2(m)
    decreases m
  {
    if n < m {
      PowersRise(minimum, n, m - 1);
      OneDoubling(minimum, m - 1);
    }
  }

  lemma OneDoubling(minimum: nat, n: nat)
    ensures minimum * Pow2(n + 1) == 2 * (minimum * Pow2(n))
  {
    assert Pow2(n + 1) == 2 * Pow2(n);
  }

  /** The session's `ExponentialBackoff`: no configuration and no attempt, however high, makes
      the doubling leave the range of a duration. */
  method ExponentialBackoff(minimum: int64, maximum: int64, attempt: int) returns (delay: int64)
    ensures delay as int == if minimum <= 0 || maximum < minimum then 0
                            else Exponential(minimum as int, maximum as int, Max(attempt, 1))
  {
    if minimum <= 0 || maximum < minimum {
      return 0;
    }
    var counted := if attempt < 1 then 1 else attempt;
    delay := minimum;
    var index := 1;
    assert Pow2(0) == 1;
    while index < counted && delay < maximum
      invariant 1 <= index <= counted && 0 < delay <= maximum
      invariant delay as int == minimum as int * Pow2(index - 1)
      decreases counted - index
    {
      OneDoubling(minimum as int, index - 1);
      if delay > maximum / 2 {
        DoublingStays(minimum as int, maximum as int, index);
        return maximum;
      }
      delay := delay * 2;
      index := index + 1;
    }
    if delay == maximum {
      DoublingStays(minimum as int, maximum as int, index - 1);
    }
    if delay > maximum {
      return maximum;
    }
  }

  /** The ceiling computed by the executor's `waitBeforeRetry`, for a policy it accepts. */
  method RetryCeiling(baseDelay: int64, maxDelay: int64, attempt: nat) returns (delay: int64)
    requires 0 <= baseDelay <= maxDelay && attempt >= 1
    ensures delay as int == Exponential(baseDelay as int, maxDelay as int, attempt)
  {
    delay := baseDelay;
    var retry := 1;
    assert Pow2(0) == 1;
    while retry < attempt && delay < maxDelay
      invariant 1 <= retry <= attempt && 0 <= delay <= maxDelay
      invariant delay as int == baseDelay as int * Pow2(retry - 1)
      decreases attempt - retry
    {
      OneDoubling(baseDelay as int, retry - 1);
      if delay > maxDelay / 2 {
        DoublingStays(baseDelay as int, maxDelay as int, retry);
        delay := maxDelay;
        break;
      }
      delay := delay * 2;
      retry := retry + 1;
    }
    if delay == maxDelay {
      assert baseDelay as int * Pow2(attempt - 1) >= maxDelay as int by {
        if retry < attempt {
          ReachedStays(baseDelay as int, maxDelay as int, retry, attempt, delay as int);
        }
      }
    }
    if delay > maxDelay {
      delay := maxDelay;
    }
  }

  lemma ReachedStays(minimum: nat, maximum: nat, retry: nat, attempt: nat, delay: int)
    requires 1 <= retry < attempt
    requires minimum * Pow2(retry) >= maximum || minimum * Pow2(retry - 1) >= maximum
    ensures minimum * Pow2(attempt - 1) >= maximum
  {
    PowersRise(minimum, retry - 1, retry);
    DoublingStays(minimum, maximum, retry);
  }

  // ---------- Jitter ----------

  /** `rand.Int64N(n)`: some number below n, which the seed selects; None where it panics. */
  function Int64N(n: int64, seed: nat): (r: Option<int64>)
    ensures r.None? <==> n <= 0
    ensures r.Some? ==> 0 <= r.value < n
  {
    if n <= 0 then None else Some((seed % n as int) as int64)
  }

  lemma SmallModulo(x: nat, n: nat)
    requires x < n
    ensures x % n == x
  {
  }

  /** Every number below n comes of some seed. */
  lemma EveryNumberIsDrawn(n: int64, x: nat)
    requires x < n as int
    ensures Int64N(n, x) == Some(x as int64)
  {
    SmallModulo(x, n as int);
  }

  /** The sum `ceiling + 1` as a 64-bit number. */
  function AddOne(ceiling: int64): int64 {
    Wrap64(ceiling as int + 1) as int64
  }

  lemma AddOneMeans(ceiling: int64)
    requires ceiling >= 0
    ensures AddOne(ceiling) > 0 <==> ceiling as int < MAX_INT64
    ensures ceiling as int < MAX_INT64 ==> AddOne(ceiling) == ceiling + 1
  {
  }

  /** The session's `FullJitterBackoff`. It panics for a maximum of the largest duration once the
      doubling has reached it, and draws a delay up to the exponential one otherwise. */
  method FullJitterBackoff(minimum: int64, maximum: int64, attempt: int, seed: nat)
    returns (delay: Option<int64>)
    ensures delay.None? <==> 0 < minimum <= maximum && maximum as int == MAX_INT64
                             && minimum as int * Pow2(Max(attempt, 1) - 1) >= MAX_INT64
    ensures delay.Some? ==>
              0 <= delay.value as int <= if minimum <= 0 || maximum < minimum then 0
                                         else Exponential(minimum as int, maximum as int, Max(attempt, 1))
  {
    var ceiling := ExponentialBackoff(minimum, maximum, attempt);
    if ceiling <= 0 {
      return Some(0);
    }
    AddOneMeans(ceiling);
    delay := Int64N(AddOne(ceiling), seed);
  }

  datatype ReadRetryPolicy = ReadRetryPolicy(maxAttempts: int, baseDelay: int64, maxDelay: int64)

  /** The policies `validate` accepts. */
  predicate Accepted(policy: ReadRetryPolicy) {
    1 <= policy.maxAttempts <= 5 && 0 <= policy.baseDelay <= policy.maxDelay
  }

  /** How long the executor's `waitBeforeRetry` waits after the given attempt; it panics under the
      same condition. */
  method RetryDelay(policy: ReadRetryPolicy, attempt: nat, seed: nat) returns (delay: Option<int64>)
    requires Accepted(policy) && attempt >= 1
    ensures delay.None? <==> policy.maxDelay as int == MAX_INT64
                             && policy.baseDelay as int * Pow2(attempt - 1) >= MAX_INT64
    ensures delay.Some? ==>
              0 <= delay.value as int <= Exponential(policy.baseDelay as int, policy.maxDelay as int, attempt)
  {
    var ceiling := RetryCeiling(policy.baseDelay, policy.maxDelay, attempt);
    ghost var doubled := policy.baseDelay as int * Pow2(attempt - 1);
    assert ceiling as int == Min(policy.maxDelay as int, doubled);
    if ceiling > 0 {
      AddOneMeans(ceiling);
      delay := Int64N(AddOne(ceiling), seed);
    } else {
      delay := Some(0);
    }
  }

  /** None of the delays before attempt `last` is the largest duration. */
  ghost predicate DrawsBefore(minimum: nat, maximum: nat, last: int) {
    forall attempt: nat | 1 <= attempt < last :: Exponential(minimum, maximum, attempt) < MAX_INT64
  }

  /** The executor draws after every attempt but the last; none of these draws panics. */
  ghost predicate AlwaysWaits(policy: ReadRetryPolicy)
    requires Accepted(policy)
  {
    DrawsBefore(policy.baseDelay as int, policy.maxDelay as int, policy.maxAttempts)
  }

  lemma {:induction false} PowersMultiply(n: nat, m: nat)
    ensures Pow2(n + m) == Pow2(n) * Pow2(m)
  {
    if n > 0 {
      PowersMultiply(n - 1, m);
      assert Pow2(n + m) == 2 * Pow2(n - 1 + m);
      assert 2 * (Pow2(n - 1) * Pow2(m)) == (2 * Pow2(n - 1)) * Pow2(m);
    }
  }

  lemma Doubled(n: nat, power: nat)
    requires Pow2(n) == power
    ensures Pow2(2 * n) == power * power && Pow2(2 * n + 1) == 2 * (power * power)
  {
    PowersMultiply(n, n);
  }

  lemma PowersReachTheLargest()
    ensures Pow2(62) == 0x4000_0000_0000_0000 && Pow2(63) == MAX_INT64 + 1
  {
    Doubled(0, 1);
    Doubled(1, 2);
    Doubled(3, 0x8);
    Doubled(7, 0x80);
    Doubled(15, 0x8000);
    Doubled(31, 0x8000_0000);
  }

  /** A session draws at every attempt exactly when its maximum is below the largest duration. */
  lemma SessionAlwaysDrawsIff(minimum: nat, maximum: nat)
    requires 1 <= minimum <= maximum <= MAX_INT64
    ensures (forall attempt: nat | attempt >= 1 :: Exponential(minimum, maximum, attempt) < MAX_INT64)
       <==> maximum < MAX_INT64
  {
    PowersReachTheLargest();
    assert minimum * Pow2(63) >= Pow2(63);
    assert Exponential(minimum, maximum, 64) == maximum;
  }

  /** From one nanosecond to the largest duration: the 64th attempt in a row is the first whose
      draw panics. */
  lemma SixtyFourthAttemptPanics()
    ensures Exponential(1, MAX_INT64, 64) == MAX_INT64
    ensures forall attempt: nat | 1 <= attempt < 64 :: Exponential(1, MAX_INT64, attempt) < MAX_INT64
  {
    PowersReachTheLargest();
    forall attempt: nat | 1 <= attempt < 64 ensures Exponential(1, MAX_INT64, attempt) < MAX_INT64 {
      PowersRise(1, attempt - 1, 62);
    }
  }

  lemma DrawsBeforeIff(minimum: nat, maximum: nat, last: nat)
    requires minimum <= maximum <= MAX_INT64 && last >= 2
    ensures DrawsBefore(minimum, maximum, last) <==> maximum < MAX_INT64 || minimum * Pow2(last - 2) < MAX_INT64
  {
    forall attempt: nat | 1 <= attempt < last
      ensures Exponential(minimum, maximum, attempt) <= Exponential(minimum, maximum, last - 1)
    {
      PowersRise(minimum, attempt - 1, last - 2);
    }
    assert Exponential(minimum, maximum, last - 1) == Min(maximum, minimum * Pow2(last - 2));
  }

  /** No wait of an accepted policy panics exactly when its maximum is below the largest duration,
      it never waits, or its base does not reach the largest duration by the last wait. */
  lemma PolicyAlwaysWaitsIff(policy: ReadRetryPolicy)
    requires Accepted(policy)
    ensures AlwaysWaits(policy) <==>
              || policy.maxDelay as int < MAX_INT64
              || policy.maxAttempts == 1
              || policy.baseDelay as int * Pow2(policy.maxAttempts - 2) < MAX_INT64
  {
    if policy.maxAttempts > 1 {
      DrawsBeforeIff(policy.baseDelay as int, policy.maxDelay as int, policy.maxAttempts);
    }
  }

  /** An accepted policy whose first wait panics. */
  lemma LargestPolicyPanics()
    ensures var policy := ReadRetryPolicy(2, MAX_INT64 as int64, MAX_INT64 as int64);
            Accepted(policy) && !AlwaysWaits(policy)
  {
    PolicyAlwaysWaitsIff(ReadRetryPolicy(2, MAX_INT64 as int64, MAX_INT64 as int64));
    assert Pow2(0) == 1;
  }

  // ---------- Retry-After ----------

  /** The header as the code reads it: a number of seconds, a date, or neither. */
  datatype RetryAfter = Seconds(count: int64) | Date(instant: int) | Unreadable

  function Saturate(x: int): (r: int)
    ensures -MAX_INT64 - 1 <= r <= MAX_INT64
  {
    Max(-MAX_INT64 - 1, Min(MAX_INT64, x))
  }

  /** What the header asks for, or the fallback when it asks for nothing. The product of seconds
      and nanoseconds wraps; the difference of two times saturates. */
  function RetryDuration(value: RetryAfter, now: int, fallback: int64): (d: int64) {
    match value
    case Seconds(count) => if count > 0 then Wrap64(count as int * SECOND) as int64 else fallback
    case Date(instant) => if instant > now then Saturate(instant - now) as int64 else fallback
    case Unreadable => fallback
  }

  lemma EvenWraps(x: int)
    requires x % 2 == 0
    ensures Wrap64(x) % 2 == 0
  {
    var k := (x - Wrap64(x)) / 0x1_0000_0000_0000_0000;
    assert x - Wrap64(x) == k * 0x1_0000_0000_0000_0000;
    assert Wrap64(x) == x - 2 * (k * 0x8000_0000_0000_0000);
  }

  // ---------- The reconnect delay ----------

  /** `waitToReconnect`: the longer of the backoff and what the server asks for, capped. */
  function ReconnectDelay(backoff: int64, retryDelay: int64, maxDelay: int64): int64 {
    var longer := if retryDelay > backoff then retryDelay else backoff;
    var capped := if longer > maxDelay then maxDelay else longer;
    if capped < 0 then 0 else capped
  }

  /** It never exceeds the maximum, and respects the shorter of the maximum and either wish. */
  lemma DelayBounds(backoff: int64, retryDelay: int64, maxDelay: int64)
    requires maxDelay > 0
    ensures 0 <= ReconnectDelay(backoff, retryDelay, maxDelay) <= maxDelay
    ensures ReconnectDelay(backoff, retryDelay, maxDelay) as int >= Min(retryDelay as int, maxDelay as int)
    ensures ReconnectDelay(backoff, retryDelay, maxDelay) as int >= Min(backoff as int, maxDelay as int)
    ensures ReconnectDelay(backoff, retryDelay, maxDelay) as int
         <= Max(0, Max(retryDelay as int, backoff as int))
  {
  }

  /** Whether the session waits as long as a header of so many seconds asks, up to its own
      maximum. */
  ghost predicate WaitsAsAsked(seconds: int64, backoff: int64, maxDelay: int64) {
    ReconnectDelay(backoff, RetryDuration(Seconds(seconds), 0, 0), maxDelay) as int
      >= Min(seconds as int * SECOND, maxDelay as int)
  }

  /** It does so in every configuration exactly when the seconds fit a duration; the code has no
      guard for more. */
  lemma WaitsAsAskedIff(seconds: int64)
    requires seconds > 0
    ensures (forall backoff: int64, maxDelay: int64 | maxDelay > 0 :: WaitsAsAsked(seconds, backoff, maxDelay))
       <==> seconds as int * SECOND <= MAX_INT64
  {
    if seconds as int * SECOND <= MAX_INT64 {
      forall backoff: int64, maxDelay: int64 | maxDelay > 0 ensures WaitsAsAsked(seconds, backoff, maxDelay) {
        DelayBounds(backoff, RetryDuration(Seconds(seconds), 0, 0), maxDelay);
      }
    } else {
      var largest := MAX_INT64 as int64;
      EvenWraps(seconds as int * SECOND);
      assert !WaitsAsAsked(seconds, 0, largest);
    }
  }

  /** A date ahead is waited for up to the maximum, and counts for nothing once it has passed or when
      neither form can be read: then only the backoff is waited. */
  lemma DateIsWaitedFor(instant: int, now: int, backoff: int64, maxDelay: int64)
    requires maxDelay > 0 && 0 <= backoff <= maxDelay
    ensures var wait := ReconnectDelay(backoff, RetryDuration(Date(instant), now, 0), maxDelay) as int;
            && (instant > now ==> wait == Min(maxDelay as int, Max(backoff as int, instant - now)))
            && (instant <= now ==> wait == backoff as int)
    ensures ReconnectDelay(backoff, RetryDuration(Unreadable, now, 0), maxDelay) == backoff
  {
  }

  /** How long a rate-limit answer holds the executor's keys back: the positive seconds it names as
      long as they fit, the time to its date, or one second. */
  lemma BlockDuration(header: RetryAfter, now: int)
    ensures var d := RetryDuration(header, now, SECOND as int64) as int;
            match header
            case Seconds(count) =>
              && (count <= 0 ==> d == SECOND)
              && (0 < count as int * SECOND <= MAX_INT64 ==> d == count as int * SECOND)
            case Date(instant) => d == if instant <= now then SECOND else Min(MAX_INT64, instant - now)
            case Unreadable => d == SECOND
  {
  }

  /** 9223372037 seconds wrap to a negative duration: the session then waits only its backoff. */
  lemma LongHeaderIsIgnored(backoff: int64, maxDelay: int64)
    requires 0 <= backoff <= maxDelay && maxDelay > 0
    ensures RetryDuration(Seconds(9_223_372_037), 0, 0) < 0
    ensures ReconnectDelay(backoff, RetryDuration(Seconds(9_223_372_037), 0, 0), maxDelay) == backoff
  {
  }
}
