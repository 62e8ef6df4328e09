/** Retry with exponential backoff. The wrapped operation is an explicit
    input: `attempt(k)` is what the k-th call (from 0) returns or raises.
    Sleeping is recorded as the sequence of delays instead of performed;
    delays are real numbers of seconds. */
module RetryHandler {

  /** What one call of the wrapped operation does: return a value, raise an
      `Exception`, or raise a `BaseException` that is not an `Exception`
      (`KeyboardInterrupt`, `SystemExit`), which no handler here catches. */
  datatype Outcome<T, E> = Success(value: T) | Failure(error: E) | Interrupted(error: E)

  datatype Policy = Policy(maxRetries: nat, initialDelay: real, backoffFactor: real, maxDelay: real)

  /** `max_retries=3, initial_delay=1.0, backoff_factor=2.0, max_delay=60.0` */
  const DefaultPolicy: Policy := Policy(3, 1.0, 2.0, 60.0)

  /** What the wrapper returned or raised, how many calls it made, and the
      delays it slept, in order. */
  datatype Run<T, E> = Run(outcome: Outcome<T, E>, calls: nat, delays: seq<real>)

  function Min(a: real, b: real): real {
    if a <= b then a else b
  }

  /** The delay slept after the k-th failed call: the initial delay, then
      each one the previous times the factor, capped at the maximum. */
  function Delay(p: Policy, k: nat): (d: real)
    ensures k == 0 ==> d == p.initialDelay
    ensures k > 0 ==> d <= p.maxDelay
  {
    if k == 0 then p.initialDelay else NextDelay(p, Delay(p, k - 1))
  }

  /** `delay = min(delay * backoff_factor, max_delay)` */
  function NextDelay(p: Policy, delay: real): (d: real)
    ensures d <= p.maxDelay && d <= delay * p.backoffFactor
    ensures d == p.maxDelay || d == delay * p.backoffFactor
  {
    Min(delay * p.backoffFactor, p.maxDelay)
  }

  /** The wrapper loop. It returns the first success and lets an interrupt
      through at once; a failure is followed by a sleep only while retries
      remain; when every call fails it raises the error of the last call,
      unchanged. */
  method RetryWithBackoff<T, E>(p: Policy, attempt: nat -> Outcome<T, E>) returns (run: Run<T, E>)
    ensures 1 <= run.calls <= p.maxRetries + 1
    ensures forall k :: 0 <= k < run.calls - 1 ==> attempt(k).Failure?
    ensures run.outcome == attempt(run.calls - 1)
    ensures run.outcome.Failure? ==> run.calls == p.maxRetries + 1
    ensures attempt(0).Interrupted? ==> run.calls == 1 && run.delays == []
    ensures |run.delays| == run.calls - 1
    ensures forall k :: 0 <= k < |run.delays| ==> run.delays[k] == Delay(p, k)
  {
    var delay := p.initialDelay;
    var delays: seq<real> := [];
    var i := 0;
    while i < p.maxRetries + 1
      invariant 0 <= i <= p.maxRetries + 1
      invariant forall k :: 0 <= k < i ==> attempt(k).Failure?
      invariant i <= p.maxRetries ==> |delays| == i
      invariant i == p.maxRetries + 1 ==> |delays| == p.maxRetries
      invariant forall k :: 0 <= k < |delays| ==> delays[k] == Delay(p, k)
      invariant delay == Delay(p, |delays|)
    {
      var outcome := attempt(i);
      if !outcome.Failure? {
        return Run(outcome, i + 1, delays);
      }
      if i < p.maxRetries {
        delays := delays + [delay];
        delay := NextDelay(p, delay);
      }
      i := i + 1;
    }
    run := Run(attempt(i - 1), i, delays);
  }

  /** Every delay after the first is capped by `max_delay`; the first is the
      initial delay as given, which may exceed it. */
  lemma DelayCapped(p: Policy, k: nat)
    requires k > 0
    ensures Delay(p, k) <= p.maxDelay
  {
  }

  /** With a factor of at least one and a first delay within the cap, the
      delays never shrink. */
  lemma {:induction false} DelaysNonDecreasing(p: Policy, k: nat)
    requires p.backoffFactor >= 1.0 && 0.0 <= p.initialDelay <= p.maxDelay
    ensures 0.0 <= Delay(p, k) <= Delay(p, k + 1) <= p.maxDelay
  {
    if k > 0 {
      DelaysNonDecreasing(p, k - 1);
    }
    NextDelayGrows(p, Delay(p, k));
  }

  lemma NextDelayGrows(p: Policy, d: real)
    requires p.backoffFactor >= 1.0 && 0.0 <= d <= p.maxDelay
    ensures d <= NextDelay(p, d) <= p.maxDelay
  {
    assert d * p.backoffFactor == d + d * (p.backoffFactor - 1.0);
    assert d * (p.backoffFactor - 1.0) >= 0.0;
  }

  /** Under the default policy the delays are 1, 2 and 4 seconds. */
  lemma DefaultDelays()
    ensures Delay(DefaultPolicy, 0) == 1.0 && Delay(DefaultPolicy, 1) == 2.0 && Delay(DefaultPolicy, 2) == 4.0
  {
  }
}

/** The circuit breaker as a step function: one protected call takes the
    breaker's state, the clock, and what the wrapped operation would do if
    invoked, to the next state and the caller's response. */
module CircuitBreaker {
  import opened Wrappers
  import opened RetryHandler

  datatype State = Closed | Open | HalfOpen

  datatype Config = Config(failureThreshold: int, recoveryTimeout: int)

  /** `failure_threshold=5, recovery_timeout=60` */
  const DefaultConfig: Config := Config(5, 60)

  datatype Breaker = Breaker(state: State, failureCount: int, lastFailureTime: Option<int>)

  const Initial: Breaker := Breaker(Closed, 0, None)

  /** The caller sees the operation's value or error, the "circuit breaker
      is open" rejection, or, for an open breaker that never recorded a
      failure time, the error of subtracting from `None`. */
  datatype Response<T, E> = Returned(value: T) | Raised(error: E) | Rejected | NoFailureTime

  /** The breaker after the call, what the caller sees, and whether the
      wrapped operation was invoked. */
  datatype Step<T, E> = Step(breaker: Breaker, response: Response<T, E>, invoked: bool)

  /** `CircuitBreaker.call`. Only a half-open success resets the failure
      count; a success while closed leaves it as it is. An interrupt skips
      the failure bookkeeping, so a probing breaker stays half-open. */
  function Call<T, E>(c: Config, b: Breaker, now: int, outcome: Outcome<T, E>): (s: Step<T, E>)
    ensures b.state == Open && b.lastFailureTime.Some? && now - b.lastFailureTime.value <= c.recoveryTimeout ==>
      s == Step(b, Rejected, false)
    ensures s.invoked <==> b.state != Open || (b.lastFailureTime.Some? && now - b.lastFailureTime.value > c.recoveryTimeout)
    ensures s.invoked && outcome.Success? ==>
      && s.response == Returned(outcome.value)
      && s.breaker.lastFailureTime == b.lastFailureTime
      && (b.state == Closed ==> s.breaker == b)
      && (b.state != Closed ==> s.breaker.state == Closed && s.breaker.failureCount == 0)
    ensures b.state == Open && b.lastFailureTime.None? ==> s == Step(b, NoFailureTime, false)
    ensures s.invoked && outcome.Failure? ==>
      && s.response == Raised(outcome.error)
      && s.breaker.failureCount == b.failureCount + 1
      && s.breaker.lastFailureTime == Some(now)
      && s.breaker.state == (if b.failureCount + 1 >= c.failureThreshold then Open
                             else if b.state == Open then HalfOpen else b.state)
    ensures s.invoked && outcome.Interrupted? ==>
      && s.response == Raised(outcome.error)
      && s.breaker == (if b.state == Open then b.(state := HalfOpen) else b)
  {
    if b.state == Open && b.lastFailureTime.None? then
      Step(b, NoFailureTime, false)
    else if b.state == Open && now - b.lastFailureTime.value <= c.recoveryTimeout then
      Step(b, Rejected, false)
    else
      var probing := if b.state == Open then HalfOpen else b.state;
      match outcome
      case Success(v) =>
        if probing == Closed then Step(b, Returned(v), true)
        else Step(Breaker(Closed, 0, b.lastFailureTime), Returned(v), true)
      case Failure(e) =>
        var n := b.failureCount + 1;
        Step(Breaker(if n >= c.failureThreshold then Open else probing, n, Some(now)), Raised(e), true)
      case Interrupted(e) =>
        Step(b.(state := probing), Raised(e), true)
  }

  /** What holds of the breaker between calls: the failure count is never
      negative, and a breaker that is not closed has reached the threshold
      and recorded when it last failed. Only an interrupted probe leaves it
      half-open. */
  predicate Valid(c: Config, b: Breaker) {
    && b.failureCount >= 0
    && (b.state != Closed ==> b.failureCount >= c.failureThreshold && b.lastFailureTime.Some?)
  }

  /** Every call from a valid breaker leaves a valid breaker and never hits
      the missing-failure-time error. */
  lemma CallPreservesValid<T, E>(c: Config, b: Breaker, now: int, outcome: Outcome<T, E>)
    requires Valid(c, b)
    ensures Valid(c, Call(c, b, now, outcome).breaker)
    ensures !Call(c, b, now, outcome).response.NoFailureTime?
  {
  }

  /** A call that leaves the breaker half-open was an interrupted probe:
      the breaker was open, the timeout had passed, and the operation raised
      an error no handler catches. */
  lemma OnlyInterruptsLeaveHalfOpen<T, E>(c: Config, b: Breaker, now: int, outcome: Outcome<T, E>)
    requires Valid(c, b) && b.state != HalfOpen
    requires Call(c, b, now, outcome).breaker.state == HalfOpen
    ensures b.state == Open && outcome.Interrupted?
  {
  }

  /** An interrupted probe leaves an opened default breaker half-open with
      its count and failure time as they were; the next call then runs the
      operation whatever the clock says, and a success closes the breaker. */
  lemma InterruptedProbe<T, E>(t: int, later: int, stop: Outcome<T, E>, ok: Outcome<T, E>)
    requires stop.Interrupted? && ok.Success?
    ensures var open := Breaker(Open, 5, Some(t));
            var s := Call(DefaultConfig, open, t + 61, stop);
            && s == Step(Breaker(HalfOpen, 5, Some(t)), Raised(stop.error), true)
            && Call(DefaultConfig, s.breaker, later, ok) == Step(Breaker(Closed, 0, Some(t)), Returned(ok.value), true)
  {
  }

  /** One call of a sequence: the clock reading and the operation's outcome. */
  datatype Request<T, E> = Request(now: int, outcome: Outcome<T, E>)

  /** The breaker after a sequence of calls. */
  function Replay<T, E>(c: Config, b: Breaker, requests: seq<Request<T, E>>): Breaker
    decreases |requests|
  {
    if requests == [] then b
    else Replay(c, Call(c, b, requests[0].now, requests[0].outcome).breaker, requests[1..])
  }

  /** The initial breaker is valid, and validity survives any sequence of
      calls. */
  lemma {:induction false} ReplayPreservesValid<T, E>(c: Config, b: Breaker, requests: seq<Request<T, E>>)
    requires Valid(c, b)
    ensures Valid(c, Replay(c, b, requests))
    decreases |requests|
  {
    if requests != [] {
      CallPreservesValid(c, b, requests[0].now, requests[0].outcome);
      ReplayPreservesValid(c, Call(c, b, requests[0].now, requests[0].outcome).breaker, requests[1..]);
    }
  }

  lemma InitialIsValid(c: Config)
    ensures Valid(c, Initial)
  {
  }

  /** Five failures in a row open a default breaker; a call right after is
      rejected without invoking the operation; once the recovery timeout has
      passed, a successful probe closes it with the count back at zero. */
  lemma TripAndRecover<T, E>(t: int, fail: Outcome<T, E>, ok: Outcome<T, E>)
    requires fail.Failure? && ok.Success?
    ensures var b := Replay(DefaultConfig, Initial,
                            [Request(t, fail), Request(t, fail), Request(t, fail),
                             Request(t, fail), Request(t, fail)]);
            && b == Breaker(Open, 5, Some(t))
            && Call(DefaultConfig, b, t + 60, ok) == Step(b, Rejected, false)
            && Call(DefaultConfig, b, t + 61, ok) == Step(Breaker(Closed, 0, Some(t)), Returned(ok.value), true)
  {
    var f := Request(t, fail);
    var rs := [f, f, f, f, f];
    assert rs[1..] == [f, f, f, f] && rs[2..] == [f, f, f] && rs[3..] == [f, f] && rs[4..] == [f];
    assert Replay(DefaultConfig, Breaker(Closed, 4, Some(t)), [f]) == Breaker(Open, 5, Some(t));
    assert Replay(DefaultConfig, Breaker(Closed, 3, Some(t)), [f, f]) == Breaker(Open, 5, Some(t));
    assert Replay(DefaultConfig, Breaker(Closed, 2, Some(t)), [f, f, f]) == Breaker(Open, 5, Some(t));
    assert Replay(DefaultConfig, Breaker(Closed, 1, Some(t)), [f, f, f, f]) == Breaker(Open, 5, Some(t));
  }

  /** Because a success while closed does not reset the count, failures
      that are not consecutive still open the breaker: four failures, a
      success, then one more failure. */
  lemma ScatteredFailuresTrip<T, E>(t: int, fail: Outcome<T, E>, ok: Outcome<T, E>)
    requires fail.Failure? && ok.Success?
    ensures Replay(DefaultConfig, Initial,
                   [Request(t, fail), Request(t, fail), Request(t, fail),
                    Request(t, fail), Request(t, ok), Request(t, fail)]).state == Open
  {
    var f := Request(t, fail);
    var g := Request(t, ok);
    var rs := [f, f, f, f, g, f];
    assert rs[1..] == [f, f, f, g, f] && rs[2..] == [f, f, g, f] && rs[3..] == [f, g, f];
    assert rs[4..] == [g, f] && rs[5..] == [f];
    assert Replay(DefaultConfig, Breaker(Closed, 4, Some(t)), [f]) == Breaker(Open, 5, Some(t));
    assert Replay(DefaultConfig, Breaker(Closed, 4, Some(t)), [g, f]) == Breaker(Open, 5, Some(t));
    assert Replay(DefaultConfig, Breaker(Closed, 3, Some(t)), [f, g, f]) == Breaker(Open, 5, Some(t));
    assert Replay(DefaultConfig, Breaker(Closed, 2, Some(t)), [f, f, g, f]) == Breaker(Open, 5, Some(t));
    assert Replay(DefaultConfig, Breaker(Closed, 1, Some(t)), [f, f, f, g, f]) == Breaker(Open, 5, Some(t));
  }
}
