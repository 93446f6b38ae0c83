/**
 * Retry policy (`src/util/retries.rs`). An error type that can be retried
 * supplies a retry bound, an initial delay, a log level and, per error, an
 * optional custom policy; errors without one back off exponentially. The
 * retry loop itself belongs to the `tryhard` crate, which is not part of
 * this model beyond the contract stated for `RetryFn`.
 */
module Retries {
  import opened Wrappers
  import opened Text
  import Observe

  type Duration = Observe.Duration

  /** What to do after a failed attempt (`tryhard::RetryPolicy`). */
  datatype RetryPolicy = Repeat | Delay(delay: Duration) | Break

  datatype Level = Error | Warn | Info | Debug | Trace

  /** The `Retryable` trait, as the values an error type supplies. */
  datatype RetryableSpec<!E> = RetryableSpec(
    maxRetries: U32,
    defaultInitialDelay: Duration,
    logLevel: Option<Level>,
    customRetryPolicy: E -> Option<RetryPolicy>)

  function Pow2(k: nat): (p: nat)
    ensures p >= 1
  {
    if k == 0 then 1 else 2 * Pow2(k - 1)
  }

  /** `ErrorBackoff`: the delay to hand out on the next error that has no
      custom policy. Its delay is always the initial one doubled once per
      such error so far. */
  class ErrorBackoff<!E> {
    var delay: Duration
    const customRetryPolicy: E -> Option<RetryPolicy>
    ghost const initial: Duration
    ghost var doublings: nat

    ghost predicate Valid()
      reads this
    {
      delay == initial * Pow2(doublings)
    }

    /** `Retryable::new_backoff`: starts from the default initial delay. */
    constructor (spec: RetryableSpec<E>)
      ensures Valid() && doublings == 0
      ensures delay == initial == spec.defaultInitialDelay
      ensures customRetryPolicy == spec.customRetryPolicy
    {
      delay := spec.defaultInitialDelay;
      customRetryPolicy := spec.customRetryPolicy;
      initial := spec.defaultInitialDelay;
      doublings := 0;
    }

    /** `BackoffStrategy::delay`: an error's custom policy is returned as it
        is and leaves the delay alone; otherwise the current delay is
        returned and the stored one doubles, so the `k`-th error without a
        custom policy waits `initial * 2^k`. */
    method NextDelay(attempt: U32, error: E) returns (p: RetryPolicy)
      requires Valid()
      modifies this
      ensures Valid()
      ensures customRetryPolicy(error).Some? ==>
        p == customRetryPolicy(error).value && delay == old(delay) && doublings == old(doublings)
      ensures customRetryPolicy(error).None? ==>
        && p == Delay(initial * Pow2(old(doublings)))
        && delay == 2 * old(delay) && doublings == old(doublings) + 1
    {
      match customRetryPolicy(error) {
        case Some(custom) =>
          p := custom;
        case None =>
          var prevDelay := delay;
          delay := delay * 2;
          doublings := doublings + 1;
          p := Delay(prevDelay);
      }
    }
  }

  /** What `LogOnRetry` asks to be logged before a retry. */
  datatype RetryMessage = RetryMessage(attempts: U32, delay: Duration, previousError: string)

  /** `LogOnRetry`. */
  datatype LogOnRetry = LogOnRetry(level: Option<Level>)

  /** The outcome of polling a `LogFuture`: ready, with the record it logged
      if any, or the panic of a second poll that finds the message gone. */
  datatype PollOutcome = Ready(logged: Option<(Level, RetryMessage)>) | PolledAfterCompletion

  /** `LogFuture`: logs its message once, at its level. */
  class LogFuture {
    var level: Option<Level>
    var message: Option<RetryMessage>

    constructor (level: Option<Level>, message: Option<RetryMessage>)
      ensures this.level == level && this.message == message
    {
      this.level := level;
      this.message := message;
    }

    /** `Future::poll`: with no level, completes without logging; with a
        level, takes the message and logs it, which leaves none for a later
        poll. */
    method Poll() returns (r: PollOutcome)
      modifies this
      ensures level == old(level)
      ensures old(level).None? ==> r == Ready(None) && message == old(message)
      ensures old(level).Some? && old(message).Some? ==>
        r == Ready(Some((old(level).value, old(message).value))) && message.None?
      ensures old(level).Some? && old(message).None? ==> r == PolledAfterCompletion
    {
      match level {
        case None =>
          r := Ready(None);
        case Some(l) =>
          match message {
            case Some(m) =>
              message := None;
              r := Ready(Some((l, m)));
            case None =>
              r := PolledAfterCompletion;
          }
      }
    }
  }

  /** `OnRetry::on_retry`: a future that will log exactly when there is a
      next delay and a level is set. */
  method OnRetry(onRetry: LogOnRetry, attempts: U32, nextDelay: Option<Duration>, previousError: string)
    returns (f: LogFuture)
    ensures fresh(f)
    ensures f.level == (if nextDelay.Some? then onRetry.level else None)
    ensures f.message.Some? <==> nextDelay.Some? && onRetry.level.Some?
    ensures f.message.Some? ==> f.message.value == RetryMessage(attempts, nextDelay.value, previousError)
  {
    match nextDelay {
      case Some(delay) =>
        var message := if onRetry.level.None? then None
                       else Some(RetryMessage(attempts, delay, previousError));
        f := new LogFuture(onRetry.level, message);
      case None =>
        f := new LogFuture(None, None);
    }
  }

  /** A future from `on_retry` logs on its first poll exactly when it was
      given a delay and a level, and never on a later poll. */
  method OnRetryLogsOnce(onRetry: LogOnRetry, attempts: U32, nextDelay: Option<Duration>, previousError: string)
    returns (first: PollOutcome, second: PollOutcome)
    ensures first.Ready? && (first.logged.Some? <==> nextDelay.Some? && onRetry.level.Some?)
    ensures second.PolledAfterCompletion? || second == Ready(None)
  {
    var f := OnRetry(onRetry, attempts, nextDelay, previousError);
    first := f.Poll();
    second := f.Poll();
  }

  /** `RetryFutureConfig`. */
  datatype RetryConfig<!E> = RetryConfig(maxRetries: U32, onRetry: LogOnRetry, backoff: ErrorBackoff<E>)

  /** `Retryable::retry_config`: the retry bound and log level of the error
      type, and a fresh backoff from its initial delay. */
  method NewRetryConfig<E>(spec: RetryableSpec<E>) returns (c: RetryConfig<E>)
    ensures c.maxRetries == spec.maxRetries && c.onRetry == LogOnRetry(spec.logLevel)
    ensures fresh(c.backoff) && c.backoff.Valid() && c.backoff.doublings == 0
    ensures c.backoff.delay == spec.defaultInitialDelay
    ensures c.backoff.customRetryPolicy == spec.customRetryPolicy
  {
    var backoff := new ErrorBackoff(spec);
    c := RetryConfig(spec.maxRetries, LogOnRetry(spec.logLevel), backoff);
  }

  /** `retry_future`, with the retry loop's contract: attempt `i` (from 0)
      yields `attempt(i)`; the loop stops at the first success, at a `Break`
      policy, or once `maxRetries` retries have failed, and returns the last
      outcome. Every attempt before the last failed with an error whose
      policy is not `Break`. */
  method RetryFn<T, E>(spec: RetryableSpec<E>, attempt: nat -> Result<T, E>)
    returns (r: Result<T, E>, attempts: nat)
    ensures 1 <= attempts <= spec.maxRetries + 1
    ensures r == attempt(attempts - 1)
    ensures forall i :: 0 <= i < attempts - 1 ==>
      attempt(i).Failure? && spec.customRetryPolicy(attempt(i).error) != Some(Break)
    ensures r.Failure? && attempts <= spec.maxRetries ==> spec.customRetryPolicy(r.error) == Some(Break)
  {
    var config := NewRetryConfig(spec);
    attempts := 1;
    r := attempt(0);
    while r.Failure? && attempts <= config.maxRetries
      invariant 1 <= attempts <= spec.maxRetries + 1
      invariant r == attempt(attempts - 1)
      invariant forall i :: 0 <= i < attempts - 1 ==>
        attempt(i).Failure? && spec.customRetryPolicy(attempt(i).error) != Some(Break)
      invariant config.backoff.customRetryPolicy == spec.customRetryPolicy
      invariant config.backoff.Valid()
      decreases spec.maxRetries + 1 - attempts
    {
      var policy := config.backoff.NextDelay(attempts, r.error);
      if policy.Break? {
        return;
      }
      attempts := attempts + 1;
      r := attempt(attempts - 1);
    }
  }
}
