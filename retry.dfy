/**
  Model of `simple_retry`: one remote call, repeated with exponential backoff
  while the service answers with a transient status code.

  The remote call `cmd` is an oracle: `cmd(i)` is the response to the i-th call
  (counting from 0). `time.sleep` is not run; each sleep is recorded, in order
  with the calls, as an event of the returned trace. The raised
  "Retry timeout exceeded" exception is the outcome `RetryTimeoutExceeded`.
 */
module Retry {

  /** A response of the remote service; only its status code steers the retry. */
  datatype Response = Response(statusCode: int, content: seq<bv8>)

  /** The status codes `simple_retry` treats as transient: 429, 500 and 504. */
  const RetryableCodes: set<int> := {429, 500, 504}

  predicate Retryable(code: int) {
    code in RetryableCodes
  }

  /** What one run of `simple_retry` does, in order: calls and sleeps. */
  datatype Event = Call(index: nat) | Sleep(seconds: int)

  /** How a run ends: the response it returns, or the raised timeout. */
  datatype Outcome = Returned(response: Response) | RetryTimeoutExceeded

  datatype Trace = Trace(outcome: Outcome, events: seq<Event>)

  function Pow2(n: nat): nat {
    if n == 0 then 1 else 2 * Pow2(n - 1)
  }

  /**
    One level of the recursion of `simple_retry`: make call number `index`
    while the current wait is `curTimeout`. A transient code doubles the
    wait; if the doubled wait exceeds `maxTimeout` the run raises without
    sleeping, otherwise it sleeps the current wait and recurses.
   */
  function Attempt(cmd: nat -> Response, maxTimeout: int, curTimeout: int, index: nat): (t: Trace)
    requires curTimeout >= 1
    ensures |t.events| % 2 == 1 && t.events[0] == Call(index)
    decreases maxTimeout - curTimeout
  {
    var response := cmd(index);
    if Retryable(response.statusCode) then
      var newWait := curTimeout * 2;
      if newWait > maxTimeout then
        Trace(RetryTimeoutExceeded, [Call(index)])
      else
        var rest := Attempt(cmd, maxTimeout, newWait, index + 1);
        Trace(rest.outcome, [Call(index), Sleep(curTimeout)] + rest.events)
    else
      Trace(Returned(response), [Call(index)])
  }

  /**
    `simple_retry(cmd, max_timeout=2, _cur_timeout=1)`, starting at the
    oracle's first call. The first call is always made, and a response that
    is returned is the last call's, without a transient code, passed through
    unchanged.
   */
  function SimpleRetry(cmd: nat -> Response, maxTimeout: int := 2, curTimeout: int := 1): (t: Trace)
    requires curTimeout >= 1
    ensures |t.events| % 2 == 1 && t.events[0] == Call(0)
    ensures t.outcome.Returned? ==>
      !Retryable(t.outcome.response.statusCode) && t.outcome.response == cmd(Calls(t) - 1)
  {
    AttemptOutcome(cmd, maxTimeout, curTimeout, 0);
    Attempt(cmd, maxTimeout, curTimeout, 0)
  }

  /** Number of calls a trace records (the events alternate call, sleep, call, ...). */
  function Calls(t: Trace): nat {
    |t.events| / 2 + 1
  }

  /** Sum of the durations of all sleeps of a trace. */
  function TotalSlept(events: seq<Event>): int {
    if events == [] then 0
    else (if events[0].Sleep? then events[0].seconds else 0) + TotalSlept(events[1..])
  }

  /**
    The shape of every run: calls `first`, `first + 1`, ... at the even
    positions, and between two consecutive calls exactly one sleep, the k-th
    of which lasts `wait * 2^k`. The run begins and ends with a call.
   */
  ghost predicate Backoff(events: seq<Event>, first: nat, wait: int) {
    && |events| % 2 == 1
    && forall k :: 0 <= k < |events| ==>
         events[k] == if k % 2 == 0 then Call(first + k / 2) else Sleep(wait * Pow2(k / 2))
  }

  /** `n` is the least number of calls n >= 1 with `wait * 2^n > maxTimeout`. */
  ghost predicate LeastExceeding(n: nat, maxTimeout: int, wait: int) {
    && n >= 1
    && wait * Pow2(n) > maxTimeout
    && forall m: nat :: 1 <= m < n ==> wait * Pow2(m) <= maxTimeout
  }

  lemma ScaledPow2(c: int, m: nat)
    ensures (2 * c) * Pow2(m) == c * Pow2(m + 1)
  {
  }

  /** The calls and sleeps of a run follow the doubling schedule. */
  lemma {:induction false} AttemptFollowsBackoff(cmd: nat -> Response, maxTimeout: int, curTimeout: int, index: nat)
    requires curTimeout >= 1
    ensures Backoff(Attempt(cmd, maxTimeout, curTimeout, index).events, index, curTimeout)
    decreases maxTimeout - curTimeout
  {
    var response := cmd(index);
    if Retryable(response.statusCode) && curTimeout * 2 <= maxTimeout {
      var rest := Attempt(cmd, maxTimeout, curTimeout * 2, index + 1);
      AttemptFollowsBackoff(cmd, maxTimeout, curTimeout * 2, index + 1);
      var events := Attempt(cmd, maxTimeout, curTimeout, index).events;
      assert events == [Call(index), Sleep(curTimeout)] + rest.events;
      forall k | 2 <= k < |events|
        ensures events[k] == if k % 2 == 0 then Call(index + k / 2) else Sleep(curTimeout * Pow2(k / 2))
      {
        assert events[k] == rest.events[k - 2];
        ScaledPow2(curTimeout, (k - 2) / 2);
      }
    }
  }

  /**
    Which response a run returns and when it raises: every call but the last
    saw a transient code; the last one decides; the run raises exactly when
    the last code is transient, and then the doubled wait exceeds the limit;
    before the last call the wait never exceeded the limit.
   */
  lemma {:induction false} AttemptOutcome(cmd: nat -> Response, maxTimeout: int, curTimeout: int, index: nat)
    requires curTimeout >= 1
    ensures var t := Attempt(cmd, maxTimeout, curTimeout, index);
      && (forall i: nat :: index <= i < index + Calls(t) - 1 ==> Retryable(cmd(i).statusCode))
      && (forall m: nat :: 1 <= m < Calls(t) ==> curTimeout * Pow2(m) <= maxTimeout)
      && (t.outcome.RetryTimeoutExceeded? <==> Retryable(cmd(index + Calls(t) - 1).statusCode))
      && (t.outcome.RetryTimeoutExceeded? ==> curTimeout * Pow2(Calls(t)) > maxTimeout)
      && (t.outcome.Returned? ==> t.outcome.response == cmd(index + Calls(t) - 1))
    decreases maxTimeout - curTimeout
  {
    var t := Attempt(cmd, maxTimeout, curTimeout, index);
    var response := cmd(index);
    if Retryable(response.statusCode) && curTimeout * 2 <= maxTimeout {
      var rest := Attempt(cmd, maxTimeout, curTimeout * 2, index + 1);
      AttemptOutcome(cmd, maxTimeout, curTimeout * 2, index + 1);
      assert Calls(t) == Calls(rest) + 1;
      forall m: nat | 1 <= m < Calls(t)
        ensures curTimeout * Pow2(m) <= maxTimeout
      {
        if m > 1 {
          ScaledPow2(curTimeout, m - 1);
        }
      }
      ScaledPow2(curTimeout, Calls(rest));
    }
  }

  /**
    The time slept in one run: `wait * (2^(n-1) - 1)` for n calls, which is
    at most `maxTimeout - curTimeout` whenever the run slept at all.
   */
  lemma {:induction false} AttemptTotalSlept(cmd: nat -> Response, maxTimeout: int, curTimeout: int, index: nat)
    requires curTimeout >= 1
    ensures var t := Attempt(cmd, maxTimeout, curTimeout, index);
      && TotalSlept(t.events) == curTimeout * (Pow2(Calls(t) - 1) - 1)
      && (Calls(t) >= 2 ==> TotalSlept(t.events) <= maxTimeout - curTimeout)
    decreases maxTimeout - curTimeout
  {
    var t := Attempt(cmd, maxTimeout, curTimeout, index);
    var response := cmd(index);
    if Retryable(response.statusCode) && curTimeout * 2 <= maxTimeout {
      var rest := Attempt(cmd, maxTimeout, curTimeout * 2, index + 1);
      AttemptTotalSlept(cmd, maxTimeout, curTimeout * 2, index + 1);
      assert t.events == [Call(index), Sleep(curTimeout)] + rest.events;
      assert t.events[1..][1..] == rest.events;
      assert TotalSlept(t.events) == curTimeout + TotalSlept(rest.events);
      var n := Calls(rest);
      assert Calls(t) == n + 1;
      ScaledPow2(curTimeout, n - 1);
      assert TotalSlept(t.events) == curTimeout * (Pow2(n) - 1);
    }
  }

  /** A first call with a non-transient code is returned at once: one call, no sleep. */
  lemma FirstCallPassesThrough(cmd: nat -> Response, maxTimeout: int, curTimeout: int)
    requires curTimeout >= 1
    requires !Retryable(cmd(0).statusCode)
    ensures SimpleRetry(cmd, maxTimeout, curTimeout) == Trace(Returned(cmd(0)), [Call(0)])
  {
  }

  /**
    A returned response never has a transient code; it is the response of the
    last call, passed through unchanged, and it is the first non-transient
    response the oracle gives.
   */
  lemma ReturnedIsFirstNonRetryable(cmd: nat -> Response, maxTimeout: int, curTimeout: int)
    requires curTimeout >= 1
    ensures var t := SimpleRetry(cmd, maxTimeout, curTimeout);
      t.outcome.Returned? ==>
        && t.outcome.response == cmd(Calls(t) - 1)
        && !Retryable(t.outcome.response.statusCode)
        && forall i: nat :: i < Calls(t) - 1 ==> Retryable(cmd(i).statusCode)
  {
    AttemptOutcome(cmd, maxTimeout, curTimeout, 0);
  }

  lemma {:induction false} Pow2Mono(a: nat, b: nat)
    requires a <= b
    ensures Pow2(a) <= Pow2(b)
    decreases b
  {
    if a < b {
      Pow2Mono(a, b - 1);
    }
  }

  /** After more doublings a positive wait is never shorter. */
  lemma WaitMono(wait: int, a: nat, b: nat)
    requires wait >= 1 && a <= b
    ensures wait * Pow2(a) <= wait * Pow2(b)
  {
    Pow2Mono(a, b);
  }

  /**
    The converse of `ReturnedIsFirstNonRetryable`: when the first `f` codes
    are transient, code `f` is not, and the wait after `f` doublings stays
    within `maxTimeout`, the run returns `cmd(f)` after exactly `f + 1` calls.
   */
  lemma FailuresThenSuccess(cmd: nat -> Response, maxTimeout: int, curTimeout: int, f: nat)
    requires curTimeout >= 1
    requires forall i: nat :: i < f ==> Retryable(cmd(i).statusCode)
    requires !Retryable(cmd(f).statusCode)
    requires curTimeout * Pow2(f) <= maxTimeout
    ensures var t := SimpleRetry(cmd, maxTimeout, curTimeout);
      t.outcome == Returned(cmd(f)) && Calls(t) == f + 1
  {
    var t := Attempt(cmd, maxTimeout, curTimeout, 0);
    AttemptOutcome(cmd, maxTimeout, curTimeout, 0);
    var n := Calls(t);
    if n <= f {
      WaitMono(curTimeout, n, f);
      assert false;
    } else if n > f + 1 {
      assert false;
    }
  }

  /**
    The timeout is raised exactly when a transient code is seen and doubling
    the current wait would exceed `maxTimeout`; it is raised right after a
    call, without sleeping; and the first call is always made.
   */
  lemma TimeoutRaisedWithoutSleeping(cmd: nat -> Response, maxTimeout: int, curTimeout: int)
    requires curTimeout >= 1
    ensures var t := SimpleRetry(cmd, maxTimeout, curTimeout);
      && t.events[0] == Call(0)
      && t.events[|t.events| - 1] == Call(Calls(t) - 1)
      && (t.outcome.RetryTimeoutExceeded? <==>
            Retryable(cmd(Calls(t) - 1).statusCode) && 2 * (curTimeout * Pow2(Calls(t) - 1)) > maxTimeout)
  {
    var t := SimpleRetry(cmd, maxTimeout, curTimeout);
    AttemptFollowsBackoff(cmd, maxTimeout, curTimeout, 0);
    AttemptOutcome(cmd, maxTimeout, curTimeout, 0);
    assert t.events[|t.events| - 1] == Call((|t.events| - 1) / 2);
    ScaledPow2(curTimeout, Calls(t) - 1);
  }

  /** The k-th sleep (from 0) lasts `curTimeout * 2^k` and sits between calls k and k + 1. */
  lemma SleepsDouble(cmd: nat -> Response, maxTimeout: int, curTimeout: int, k: nat)
    requires curTimeout >= 1
    requires k < Calls(SimpleRetry(cmd, maxTimeout, curTimeout)) - 1
    ensures var events := SimpleRetry(cmd, maxTimeout, curTimeout).events;
      && events[2 * k] == Call(k)
      && events[2 * k + 1] == Sleep(curTimeout * Pow2(k))
      && events[2 * k + 2] == Call(k + 1)
  {
    AttemptFollowsBackoff(cmd, maxTimeout, curTimeout, 0);
  }

  /**
    When every call fails with a transient code, the run raises after the
    least number of calls n >= 1 with `curTimeout * 2^n > maxTimeout`.
   */
  lemma AllRetryableCallCount(cmd: nat -> Response, maxTimeout: int, curTimeout: int)
    requires curTimeout >= 1
    requires forall i: nat :: Retryable(cmd(i).statusCode)
    ensures var t := SimpleRetry(cmd, maxTimeout, curTimeout);
      t.outcome == RetryTimeoutExceeded && LeastExceeding(Calls(t), maxTimeout, curTimeout)
  {
    AttemptOutcome(cmd, maxTimeout, curTimeout, 0);
  }

  /** With the defaults (2 and 1) a run that always fails makes two calls and one 1-second sleep. */
  lemma DefaultsAllRetryable(cmd: nat -> Response)
    requires forall i: nat :: Retryable(cmd(i).statusCode)
    ensures SimpleRetry(cmd) == Trace(RetryTimeoutExceeded, [Call(0), Sleep(1), Call(1)])
  {
  }

  /**
    The run ends, and the total time slept is zero after a single call and at
    most `maxTimeout - curTimeout` (so below `maxTimeout`) otherwise.
   */
  lemma SleepBounded(cmd: nat -> Response, maxTimeout: int, curTimeout: int)
    requires curTimeout >= 1
    ensures var t := SimpleRetry(cmd, maxTimeout, curTimeout);
      && (Calls(t) == 1 ==> TotalSlept(t.events) == 0)
      && (Calls(t) >= 2 ==> TotalSlept(t.events) <= maxTimeout - curTimeout < maxTimeout)
  {
    AttemptTotalSlept(cmd, maxTimeout, curTimeout, 0);
  }
}
