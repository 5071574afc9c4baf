/** The retry executor: exponential backoff with full jitter.

    An operation is called repeatedly. A success or a permanent error ends the
    loop at once; a transient error is retried after a random delay drawn from
    `[0, min(base_delay * 2^attempt_count, max_delay))`, until `max_attempts`
    calls have been made, after which the last transient error is returned.

    The operation is modelled as `op: nat -> Result<U, E>`, the response to its
    k-th call (counted from 0); the sleep is modelled by recording the chosen
    delay; durations are whole milliseconds. */
module Retrying {
  import opened Wrappers

  /** Number of calls made before giving up, by default. */
  const DefaultMaxRetryAttempts: nat := 30
  /** Base delay in milliseconds, outside test builds and in test builds. */
  const DefaultBaseDelayMs: nat := 250
  const TestBaseDelayMs: nat := 50
  /** Cap on the backoff ceiling in milliseconds, outside and in test builds. */
  const DefaultMaxDelayMs: nat := 20000
  const TestMaxDelayMs: nat := 1000

  /** An error tagged with its retry classification. */
  datatype Retry<E> = Transient(error: E) | Permanent(error: E)

  /** The wrapped error, whatever the tag. */
  function IntoInner<E>(r: Retry<E>): (e: E)
    ensures r == Transient(e) || r == Permanent(e)
  {
    match r
    case Transient(error) => error
    case Permanent(error) => error
  }

  /** The `Retryable` capability of a tagged error. */
  predicate IsRetryable<E>(r: Retry<E>): (b: bool)
    ensures b <==> r == Transient(IntoInner(r))
  {
    match r
    case Transient(_) => true
    case Permanent(_) => false
  }

  /** A tagged error is retryable exactly when it is transient. */
  lemma RetryableExactlyTransient<E>(r: Retry<E>)
    ensures IsRetryable(r) <==> r.Transient?
    ensures IsRetryable(r) <==> r == Transient(IntoInner(r))
  {
  }

  /** The `Retryable` capability an error type gets when it does not override it. */
  predicate NeverRetryable<E>(e: E): (b: bool)
    ensures !b
  {
    false
  }

  /** Tags an error according to its own classification. */
  function From<E>(e: E, retryable: E -> bool): (r: Retry<E>)
    ensures IsRetryable(r) == retryable(e)
    ensures IntoInner(r) == e
  {
    if retryable(e) then Transient(e) else Permanent(e)
  }

  /** Tagging the inner error of a tagged error by its original tag gives it back. */
  lemma TagRoundTrip<E>(r: Retry<E>, retryable: E -> bool)
    requires retryable(IntoInner(r)) == IsRetryable(r)
    ensures From(IntoInner(r), retryable) == r
  {
  }

  /** Parameters of the backoff; delays are in milliseconds. */
  datatype RetryParams = RetryParams(baseDelayMs: nat, maxDelayMs: nat, maxAttempts: nat)

  /** Jitter can only be drawn from a non-empty range: both delays are positive. */
  predicate JitterDefined(p: RetryParams) {
    p.baseDelayMs > 0 && p.maxDelayMs > 0
  }

  /** The default parameters; `testBuild` selects the accelerated test values. */
  function DefaultParams(testBuild: bool): (p: RetryParams)
    ensures JitterDefined(p)
    ensures p.maxAttempts >= 1
    ensures p.baseDelayMs <= p.maxDelayMs
  {
    RetryParams(
      if testBuild then TestBaseDelayMs else DefaultBaseDelayMs,
      if testBuild then TestMaxDelayMs else DefaultMaxDelayMs,
      DefaultMaxRetryAttempts)
  }

  function Pow2(k: nat): (r: nat)
    ensures r >= 1
  {
    if k == 0 then 1 else 2 * Pow2(k - 1)
  }

  /** The upper bound (exclusive) of the jitter drawn after the attempt-th call. */
  function Ceiling(p: RetryParams, attempt: nat): (c: nat)
    ensures c <= p.maxDelayMs
    ensures c <= p.baseDelayMs * Pow2(attempt)
    ensures c == p.maxDelayMs || c == p.baseDelayMs * Pow2(attempt)
    ensures JitterDefined(p) ==> c > 0
  {
    var exponential := p.baseDelayMs * Pow2(attempt);
    if exponential <= p.maxDelayMs then exponential else p.maxDelayMs
  }

  /** The ceiling never shrinks from one attempt to the next. */
  lemma CeilingMonotone(p: RetryParams, k: nat, l: nat)
    requires k <= l
    ensures Ceiling(p, k) <= Ceiling(p, l)
  {
    Pow2Monotone(k, l);
    MulMonotone(p.baseDelayMs, Pow2(k), Pow2(l));
  }

  lemma {:induction false} Pow2Monotone(k: nat, l: nat)
    requires k <= l
    ensures Pow2(k) <= Pow2(l)
    decreases l
  {
    if k < l {
      Pow2Monotone(k, l - 1);
    }
  }

  lemma MulMonotone(a: nat, x: nat, y: nat)
    requires x <= y
    ensures a * x <= a * y
  {
  }

  /** Until it reaches the cap, the ceiling doubles with every attempt. */
  lemma CeilingDoubles(p: RetryParams, k: nat)
    requires p.baseDelayMs * Pow2(k + 1) <= p.maxDelayMs
    ensures Ceiling(p, k + 1) == 2 * Ceiling(p, k)
  {
    assert p.baseDelayMs * Pow2(k + 1) == 2 * (p.baseDelayMs * Pow2(k));
  }

  /** With the production defaults the ceiling is 500, 1000, ..., 16000 ms
      after calls 1 to 6 and stays at 20000 ms from call 7 on. */
  lemma DefaultCeilingSchedule(k: nat)
    ensures DefaultParams(false) == RetryParams(250, 20000, 30)
    ensures DefaultParams(true) == RetryParams(50, 1000, 30)
    ensures 1 <= k <= 6 ==> Ceiling(DefaultParams(false), k) == 250 * Pow2(k)
    ensures k >= 7 ==> Ceiling(DefaultParams(false), k) == 20000
  {
    var p := DefaultParams(false);
    assert Pow2(6) == 64;
    assert Pow2(7) == 128;
    if k >= 7 {
      Pow2Monotone(7, k);
      MulMonotone(250, Pow2(7), Pow2(k));
    } else if k >= 1 {
      Pow2Monotone(k, 6);
      MulMonotone(250, Pow2(k), Pow2(6));
    }
  }

  /** Whether the loop returns after the response to its attempt_count-th call. */
  predicate Stops<U, E>(p: RetryParams, retryable: E -> bool, response: Result<U, E>, attemptCount: nat) {
    response.Ok? || !retryable(response.error) || attemptCount >= p.maxAttempts
  }

  /** What the executor returns, and how many calls it made. */
  datatype Outcome<U, E> = Outcome(result: Result<U, E>, calls: nat)

  /** The loop, entered after `attemptCount` calls have all failed transiently.
      Its outcome is the first response after which the loop stops. */
  function RunFrom<U, E>(p: RetryParams, retryable: E -> bool, op: nat -> Result<U, E>, attemptCount: nat): (o: Outcome<U, E>)
    ensures attemptCount < o.calls
    ensures o.calls <= attemptCount + 1 || o.calls <= p.maxAttempts
    ensures o.result == op(o.calls - 1)
    ensures Stops(p, retryable, o.result, o.calls)
    ensures forall k :: attemptCount <= k < o.calls - 1 ==> !Stops(p, retryable, op(k), k + 1)
    decreases p.maxAttempts - attemptCount
  {
    var response := op(attemptCount);
    var count := attemptCount + 1;
    if Stops(p, retryable, response, count) then Outcome(response, count)
    else RunFrom(p, retryable, op, count)
  }

  /** The executor: the outcome of the whole attempt loop. */
  function Run<U, E>(p: RetryParams, retryable: E -> bool, op: nat -> Result<U, E>): (o: Outcome<U, E>)
    ensures 1 <= o.calls
    ensures o.calls <= p.maxAttempts || o.calls == 1
    ensures o.result == op(o.calls - 1)
    ensures o.result.Err? ==> !retryable(o.result.error) || o.calls == p.maxAttempts || (o.calls == 1 && p.maxAttempts == 0)
    ensures forall k :: 0 <= k < o.calls - 1 ==> op(k).Err? && retryable(op(k).error)
  {
    RunFrom(p, retryable, op, 0)
  }

  /** The loop stops at the first response it may stop at, and only there. */
  lemma RunIsFirstStop<U, E>(p: RetryParams, retryable: E -> bool, op: nat -> Result<U, E>, n: nat)
    requires n >= 1
    requires Stops(p, retryable, op(n - 1), n)
    requires forall k :: 0 <= k < n - 1 ==> !Stops(p, retryable, op(k), k + 1)
    ensures Run(p, retryable, op) == Outcome(op(n - 1), n)
  {
    var o := RunFrom(p, retryable, op, 0);
    var m := o.calls - 1;
    assert Stops(p, retryable, op(m), m + 1);
  }

  /** A first success is returned after exactly one call. */
  lemma SuccessShortCircuits<U, E>(p: RetryParams, retryable: E -> bool, op: nat -> Result<U, E>)
    requires op(0).Ok?
    ensures Run(p, retryable, op) == Outcome(op(0), 1)
  {
    RunIsFirstStop(p, retryable, op, 1);
  }

  /** Transient errors on the first k-1 calls and a permanent one on the k-th:
      k calls are made and the permanent error is returned. */
  lemma PermanentStopsRetrying<U, E>(p: RetryParams, retryable: E -> bool, op: nat -> Result<U, E>, k: nat)
    requires 1 <= k <= p.maxAttempts
    requires forall i :: 0 <= i < k - 1 ==> op(i).Err? && retryable(op(i).error)
    requires op(k - 1).Err? && !retryable(op(k - 1).error)
    ensures Run(p, retryable, op) == Outcome(op(k - 1), k)
  {
    RunIsFirstStop(p, retryable, op, k);
  }

  /** max_attempts transient errors in a row: exactly max_attempts calls are
      made and the last of those errors is returned, whatever would follow. */
  lemma ExhaustionReturnsLastError<U, E>(p: RetryParams, retryable: E -> bool, op: nat -> Result<U, E>)
    requires p.maxAttempts >= 1
    requires forall i :: 0 <= i < p.maxAttempts ==> op(i).Err? && retryable(op(i).error)
    ensures Run(p, retryable, op) == Outcome(op(p.maxAttempts - 1), p.maxAttempts)
  {
    RunIsFirstStop(p, retryable, op, p.maxAttempts);
  }

  /** max_attempts - 1 transient errors followed by a success: the success is
      returned after max_attempts calls. */
  lemma LastAttemptCanSucceed<U, E>(p: RetryParams, retryable: E -> bool, op: nat -> Result<U, E>)
    requires p.maxAttempts >= 1
    requires forall i :: 0 <= i < p.maxAttempts - 1 ==> op(i).Err? && retryable(op(i).error)
    requires op(p.maxAttempts - 1).Ok?
    ensures Run(p, retryable, op) == Outcome(op(p.maxAttempts - 1), p.maxAttempts)
    ensures Run(p, retryable, op).result.Ok?
  {
    RunIsFirstStop(p, retryable, op, p.maxAttempts);
  }

  /** An error type that keeps the default classification is never retried. */
  lemma DefaultClassificationNeverRetries<U, E>(p: RetryParams, op: nat -> Result<U, E>)
    ensures Run(p, NeverRetryable, op).calls == 1
  {
  }

  /** Responses to calls the loop never makes do not influence its outcome. */
  lemma {:induction false} RunFromIgnoresUnconsumed<U, E>(p: RetryParams, retryable: E -> bool, op: nat -> Result<U, E>, op': nat -> Result<U, E>, attemptCount: nat)
    requires forall k :: attemptCount <= k < RunFrom(p, retryable, op, attemptCount).calls ==> op(k) == op'(k)
    ensures RunFrom(p, retryable, op', attemptCount) == RunFrom(p, retryable, op, attemptCount)
    decreases p.maxAttempts - attemptCount
  {
    assert op(attemptCount) == op'(attemptCount);
    if !Stops(p, retryable, op(attemptCount), attemptCount + 1) {
      RunFromIgnoresUnconsumed(p, retryable, op, op', attemptCount + 1);
    }
  }

  lemma RunIgnoresUnconsumed<U, E>(p: RetryParams, retryable: E -> bool, op: nat -> Result<U, E>, op': nat -> Result<U, E>)
    requires forall k :: 0 <= k < Run(p, retryable, op).calls ==> op(k) == op'(k)
    ensures Run(p, retryable, op') == Run(p, retryable, op)
  {
    RunFromIgnoresUnconsumed(p, retryable, op, op', 0);
  }

  /** The attempt loop with the sleep recorded: `delays[k]` is the jitter slept
      after the (k+1)-th call, drawn arbitrarily below that call's ceiling. */
  method RetryWithMockableTime<U, E>(p: RetryParams, retryable: E -> bool, op: nat -> Result<U, E>)
    returns (result: Result<U, E>, calls: nat, delays: seq<nat>)
    requires JitterDefined(p)
    ensures Outcome(result, calls) == Run(p, retryable, op)
    ensures |delays| == calls - 1
    ensures forall k :: 0 <= k < |delays| ==> delays[k] < Ceiling(p, k + 1)
  {
    var attemptCount: nat := 0;
    delays := [];
    while true
      invariant attemptCount == 0 || attemptCount < p.maxAttempts
      invariant RunFrom(p, retryable, op, attemptCount) == Run(p, retryable, op)
      invariant |delays| == attemptCount
      invariant forall k :: 0 <= k < |delays| ==> delays[k] < Ceiling(p, k + 1)
      decreases p.maxAttempts - attemptCount
    {
      var response := op(attemptCount);
      attemptCount := attemptCount + 1;
      match response
      case Ok(value) =>
        return Ok(value), attemptCount, delays;
      case Err(error) =>
        if !retryable(error) {
          return Err(error), attemptCount, delays;
        }
        if attemptCount >= p.maxAttempts {
          return Err(error), attemptCount, delays;
        }
        var ceiling := Ceiling(p, attemptCount);
        var delay: nat :| delay < ceiling;
        delays := delays + [delay];
    }
  }

  /** The scripted responses of the executor's tests: the first `|script|`
      calls answer from the script; the script is never exhausted there. */
  function Scripted<U, E>(script: seq<Result<U, Retry<E>>>, k: nat): Result<U, Retry<E>>
    requires |script| > 0
  {
    if k < |script| then script[k] else script[|script| - 1]
  }

  /** Thirty transient errors numbered 0 to 29 followed by a success, with the
      test defaults: thirty calls, and the error numbered 29 comes back. */
  lemma RetriesAtMostMaxAttemptsTimes()
    ensures var script := seq(30, i => Err(Transient(i))) + [Ok(())];
            Run(DefaultParams(true), IsRetryable, k => Scripted(script, k))
              == Outcome(Err(Transient(29)), 30)
  {
    var script: seq<Result<(), Retry<nat>>> := seq(30, i => Err(Transient(i))) + [Ok(())];
    var op := k => Scripted(script, k);
    ExhaustionReturnsLastError(DefaultParams(true), IsRetryable, op);
  }

  /** Twenty-nine transient errors followed by a success: the success comes back. */
  lemma RetriesUpToMaxAttemptsTimes()
    ensures var script := seq(29, i => Err(Transient(i))) + [Ok(())];
            Run(DefaultParams(true), IsRetryable, k => Scripted(script, k))
              == Outcome(Ok(()), 30)
  {
    var script: seq<Result<(), Retry<nat>>> := seq(29, i => Err(Transient(i))) + [Ok(())];
    var op := k => Scripted(script, k);
    LastAttemptCanSucceed(DefaultParams(true), IsRetryable, op);
  }

  /** A permanent error followed by a success: the permanent error, one call. */
  lemma StopsRetryingOnNonRetryableError()
    ensures var script := [Err(Permanent(1)), Ok(())];
            Run(DefaultParams(true), IsRetryable, k => Scripted(script, k))
              == Outcome(Err(Permanent(1)), 1)
  {
    var script: seq<Result<(), Retry<nat>>> := [Err(Permanent(1)), Ok(())];
    PermanentStopsRetrying(DefaultParams(true), IsRetryable, k => Scripted(script, k), 1);
  }

  /** A transient error followed by a success: the success, two calls. */
  lemma DoesRetry()
    ensures var script := [Err(Transient(1)), Ok(())];
            Run(DefaultParams(true), IsRetryable, k => Scripted(script, k))
              == Outcome(Ok(()), 2)
  {
    var script: seq<Result<(), Retry<nat>>> := [Err(Transient(1)), Ok(())];
    RunIsFirstStop(DefaultParams(true), IsRetryable, k => Scripted(script, k), 2);
  }
}
