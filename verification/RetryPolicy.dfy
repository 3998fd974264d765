/** What the retry loop of gateway/app/proxy/executor.py decides after each attempt. */
module RetryPolicy {
  import opened Common
  import opened CircuitBreaker

  /** How the awaited upstream request ends. `UnhandledException` is any exception that is
      neither an `httpx.RequestError` nor a cancellation. */
  datatype Reply =
    | Response(statusCode: int)
    | Failed(error: TransportError)
    | CancelledInFlight
    | UnhandledException

  /** One round of the loop; the flag says that a cancellation hits the backoff sleep. */
  datatype Attempt = Attempt(reply: Reply, cancelledInBackoff: bool)

  datatype ExecutionResult =
    | Returned(statusCode: int, attempts: nat)
    | RaisedLookupError
    | RaisedCircuitOpen(retryAfterSeconds: int)
    | RaisedTransportError(error: TransportError)
    | RaisedCancelled
    | RaisedUnhandled

  /** Attempts are numbered from one. */
  type AttemptNumber = n: nat | n >= 1 witness 1

  function Pow2(n: nat): (p: nat)
    ensures p >= 1
  {
    if n == 0 then 1 else 2 * Pow2(n - 1)
  }

  function RetryDelay(cfg: Settings, failedAttempt: AttemptNumber): real {
    MinReal(cfg.retryBaseDelay * Pow2(failedAttempt - 1) as real, 2.0)
  }

  function AttemptLimit(cfg: Settings, permit: Permit): nat {
    if permit.halfOpenProbe then 1 else cfg.maxAttempts
  }

  /** The failure came before a connection to the upstream existed. */
  predicate NeverConnected(reply: Reply) {
    reply.Failed? && (reply.error.ConnectError? || reply.error.ConnectTimeout?)
  }

  predicate ShouldRetry(limit: nat, attempts: nat, upperMethod: string, reply: Reply): (retry: bool)
    ensures retry ==> NeverConnected(reply) && MethodIsRetryable(upperMethod)
  {
    attempts < limit && reply.Failed? && TransportErrorIsRetryable(upperMethod, reply.error)
  }

  /** The `record_*` call with which a reply that is not retried ends the call;
      an unhandled exception passes both handlers and records nothing. */
  function Verdict(reply: Reply): Option<Outcome> {
    match reply
    case Response(status) => Some(if ResponseCountsForCircuitFailure(status) then Failure else Success)
    case Failed(error) => Some(if TransportErrorCountsForCircuit(error) then Failure else Neutral)
    case CancelledInFlight => Some(Neutral)
    case UnhandledException => None
  }

  function ResultOf(reply: Reply, attempts: nat): (result: ExecutionResult)
    ensures !result.RaisedLookupError? && !result.RaisedCircuitOpen?
  {
    match reply
    case Response(status) => Returned(status, attempts)
    case Failed(error) => RaisedTransportError(error)
    case CancelledInFlight => RaisedCancelled
    case UnhandledException => RaisedUnhandled
  }

  /** The sleeps before attempts 2 to n. */
  function TotalBackoff(cfg: Settings, attempts: nat): real {
    if attempts <= 1 then 0.0 else TotalBackoff(cfg, attempts - 1) + RetryDelay(cfg, attempts - 1)
  }

  lemma DelaysDouble(base: real, p: nat, q: nat)
    requires q == 2 * p
    ensures base * (q - 1) as real == base * (p - 1) as real + base * p as real
  {
    assert (q - 1) as real == (p - 1) as real + p as real;
  }

  lemma DelayBound(cfg: Settings, failedAttempt: AttemptNumber)
    ensures 0.0 <= RetryDelay(cfg, failedAttempt) <= 2.0
    ensures RetryDelay(cfg, failedAttempt) <= cfg.retryBaseDelay * Pow2(failedAttempt - 1) as real
  {
    assert cfg.retryBaseDelay * Pow2(failedAttempt - 1) as real >= 0.0;
  }

  lemma {:induction false} BackoffIsCapped(cfg: Settings, attempts: nat)
    requires attempts >= 1
    ensures 0.0 <= TotalBackoff(cfg, attempts) <= 2.0 * (attempts - 1) as real
  {
    if attempts > 1 {
      BackoffIsCapped(cfg, attempts - 1);
      DelayBound(cfg, attempts - 1);
    }
  }

  lemma {:induction false} BackoffDoubles(cfg: Settings, attempts: nat)
    requires attempts >= 1
    ensures TotalBackoff(cfg, attempts) <= cfg.retryBaseDelay * (Pow2(attempts - 1) - 1) as real
  {
    if attempts == 1 {
      assert Pow2(0) == 1;
    } else {
      var p, q := Pow2(attempts - 2), Pow2(attempts - 1);
      BackoffDoubles(cfg, attempts - 1);
      DelayBound(cfg, attempts - 1);
      DelaysDouble(cfg.retryBaseDelay, p, q);
    }
  }

  lemma BackoffBound(cfg: Settings, attempts: nat)
    requires attempts >= 1
    ensures 0.0 <= TotalBackoff(cfg, attempts) <= 2.0 * (attempts - 1) as real
    ensures TotalBackoff(cfg, attempts) <= cfg.retryBaseDelay * (Pow2(attempts - 1) - 1) as real
  {
    BackoffIsCapped(cfg, attempts);
    BackoffDoubles(cfg, attempts);
  }

  lemma FirstDelay(cfg: Settings)
    ensures RetryDelay(cfg, 1) == MinReal(cfg.retryBaseDelay, 2.0)
  {
    assert Pow2(0) == 1;
    assert cfg.retryBaseDelay * 1.0 == cfg.retryBaseDelay;
  }

  lemma CapDoubled(x: real, y: real)
    requires y == 2.0 * x
    ensures MinReal(y, 2.0) == MinReal(2.0 * MinReal(x, 2.0), 2.0)
  {
  }

  lemma NextDelay(cfg: Settings, failedAttempt: AttemptNumber)
    ensures RetryDelay(cfg, failedAttempt + 1) == MinReal(2.0 * RetryDelay(cfg, failedAttempt), 2.0)
  {
    var x, y := cfg.retryBaseDelay * Pow2(failedAttempt - 1) as real, cfg.retryBaseDelay * Pow2(failedAttempt) as real;
    Doubled(cfg.retryBaseDelay, Pow2(failedAttempt - 1), Pow2(failedAttempt));
    CapDoubled(x, y);
  }

  /** The delays in plain numbers: the base, then doubled each time, and never above two seconds. */
  lemma DelaysInWords(cfg: Settings, failedAttempt: AttemptNumber)
    ensures RetryDelay(cfg, 1) == if cfg.retryBaseDelay > 2.0 then 2.0 else cfg.retryBaseDelay
    ensures
      var doubled := 2.0 * RetryDelay(cfg, failedAttempt);
      RetryDelay(cfg, failedAttempt + 1) == if doubled > 2.0 then 2.0 else doubled
  {
    FirstDelay(cfg);
    NextDelay(cfg, failedAttempt);
  }

  lemma Doubled(base: real, p: nat, q: nat)
    requires q == 2 * p
    ensures base * q as real == 2.0 * (base * p as real)
  {
    assert q as real == 2.0 * p as real;
  }

  /** All the backoff that the settings allow: they permit at most three attempts. */
  lemma BackoffInWords(cfg: Settings)
    ensures
      var first := if cfg.retryBaseDelay > 2.0 then 2.0 else cfg.retryBaseDelay;
      var second := if 2.0 * cfg.retryBaseDelay > 2.0 then 2.0 else 2.0 * cfg.retryBaseDelay;
      && TotalBackoff(cfg, 1) == 0.0
      && TotalBackoff(cfg, 2) == first
      && TotalBackoff(cfg, 3) == first + second
  {
    DelaysInWords(cfg, 1);
    assert TotalBackoff(cfg, 2) == TotalBackoff(cfg, 1) + RetryDelay(cfg, 1);
    assert TotalBackoff(cfg, 3) == TotalBackoff(cfg, 2) + RetryDelay(cfg, 2);
  }

  // ---- A whole call, from its attempts ---------------------------------------------

  /** Attempt number `attempts` failed in a way the loop repeats, and its backoff sleep,
      if there is one, completed. */
  predicate Repeats(cfg: Settings, limit: nat, attempts: AttemptNumber, upperMethod: string, a: Attempt) {
    && ShouldRetry(limit, attempts, upperMethod, a.reply)
    && !(RetryDelay(cfg, attempts) > 0.0 && a.cancelledInBackoff)
  }

  /** The first n attempts were all repeated. */
  ghost predicate AllRepeat(cfg: Settings, limit: nat, n: nat, upperMethod: string, upstream: seq<Attempt>) {
    n <= |upstream| && forall i :: 0 <= i < n ==> Repeats(cfg, limit, i + 1, upperMethod, upstream[i])
  }

  lemma OneMoreRepeats(cfg: Settings, limit: nat, n: nat, upperMethod: string, upstream: seq<Attempt>)
    requires AllRepeat(cfg, limit, n, upperMethod, upstream)
    requires n < |upstream| && Repeats(cfg, limit, n + 1, upperMethod, upstream[n])
    ensures AllRepeat(cfg, limit, n + 1, upperMethod, upstream)
  {
  }

  /** How the last attempt ends the call: a cancelled sleep counts as a cancellation. */
  function FinalReply(limit: nat, attempts: nat, upperMethod: string, a: Attempt): Reply {
    if ShouldRetry(limit, attempts, upperMethod, a.reply) then CancelledInFlight else a.reply
  }

  /** The call made exactly these attempts: each but the last was repeated, and the last
      one gave the result and the completion. */
  ghost predicate Outline(cfg: Settings, permit: Permit, upperMethod: string, upstream: seq<Attempt>,
                          attempts: nat, result: ExecutionResult, recorded: Option<Outcome>)
  {
    var limit := AttemptLimit(cfg, permit);
    && 1 <= attempts <= limit && attempts <= |upstream|
    && AllRepeat(cfg, limit, attempts - 1, upperMethod, upstream)
    && !Repeats(cfg, limit, attempts, upperMethod, upstream[attempts - 1])
    && var last := FinalReply(limit, attempts, upperMethod, upstream[attempts - 1]);
       result == ResultOf(last, attempts) && recorded == Verdict(last)
  }

  lemma LastAttemptEndsCall(cfg: Settings, permit: Permit, upperMethod: string, upstream: seq<Attempt>,
                            attempts: AttemptNumber, last: Reply)
    requires attempts <= AttemptLimit(cfg, permit) && attempts <= |upstream|
    requires AllRepeat(cfg, AttemptLimit(cfg, permit), attempts - 1, upperMethod, upstream)
    requires !Repeats(cfg, AttemptLimit(cfg, permit), attempts, upperMethod, upstream[attempts - 1])
    requires last == FinalReply(AttemptLimit(cfg, permit), attempts, upperMethod, upstream[attempts - 1])
    ensures Outline(cfg, permit, upperMethod, upstream, attempts, ResultOf(last, attempts), Verdict(last))
  {
  }

  /** A reply after which the code tries a safe method again: no connection came about. */
  predicate ConnectFailed(reply: Reply) {
    reply == Failed(ConnectError) || reply == Failed(ConnectTimeout)
  }

  /** How a call ends, in plain terms: with its last reply, or cancelled in the sleep after a
      connection failure that would have been repeated. It would have been exactly for an
      ordinary call with a safe method below the limit. */
  lemma OutlineInWords(cfg: Settings, permit: Permit, upperMethod: string, upstream: seq<Attempt>,
                       attempts: nat, result: ExecutionResult, recorded: Option<Outcome>)
    requires Outline(cfg, permit, upperMethod, upstream, attempts, result, recorded)
    ensures
      var last := upstream[attempts - 1];
      var again := && !permit.halfOpenProbe && attempts < cfg.maxAttempts
                   && (upperMethod == "GET" || upperMethod == "HEAD" || upperMethod == "OPTIONS")
                   && ConnectFailed(last.reply);
      && (again ==> result.RaisedCancelled? && last.cancelledInBackoff && cfg.retryBaseDelay > 0.0)
      && (!again ==>
            match last.reply
            case Response(status) => result == Returned(status, attempts)
            case Failed(error) => result == RaisedTransportError(error)
            case CancelledInFlight => result.RaisedCancelled?
            case UnhandledException => result.RaisedUnhandled?)
    ensures recorded == match result
                        case Returned(status, _) => Some(if 500 <= status <= 599 then Failure else Success)
                        case RaisedTransportError(error) => Some(if error == PoolTimeout then Neutral else Failure)
                        case RaisedCancelled => Some(Neutral)
                        case _ => None
    ensures !result.RaisedLookupError? && !result.RaisedCircuitOpen?
  {
  }

  /** Bounded, at-most-once delivery: only connection failures of safe methods are followed
      by another attempt, never for a probe; a completion is missing exactly when an
      unhandled exception escaped; and the attempts determine the outline. */
  lemma DeliveryIsBounded(cfg: Settings, permit: Permit, upperMethod: string, upstream: seq<Attempt>,
                          attempts: nat, result: ExecutionResult, recorded: Option<Outcome>)
    requires Outline(cfg, permit, upperMethod, upstream, attempts, result, recorded)
    ensures attempts <= cfg.maxAttempts <= 3
    ensures forall i :: 0 <= i < attempts - 1 ==> NeverConnected(upstream[i].reply)
    ensures permit.halfOpenProbe || upperMethod !in {"GET", "HEAD", "OPTIONS"} ==> attempts == 1
    ensures recorded.None? <==> result.RaisedUnhandled?
    ensures recorded == Some(Success) <==> result.Returned? && !(500 <= result.statusCode <= 599)
    ensures recorded == Some(Failure) <==>
              || (result.Returned? && 500 <= result.statusCode <= 599)
              || (result.RaisedTransportError? && result.error != PoolTimeout)
    ensures recorded == Some(Neutral) <==> result.RaisedCancelled? || result == RaisedTransportError(PoolTimeout)
    ensures result.Returned? ==>
              upstream[attempts - 1].reply == Response(result.statusCode) && result.attempts == attempts
    ensures TotalBackoff(cfg, attempts)
            <= MinReal(2.0 * (attempts - 1) as real, cfg.retryBaseDelay * (Pow2(attempts - 1) - 1) as real)
    ensures forall n: nat, r, o :: Outline(cfg, permit, upperMethod, upstream, n, r, o) ==>
                                     n == attempts && r == result && o == recorded
  {
    BackoffBound(cfg, attempts);
    OutlineInWords(cfg, permit, upperMethod, upstream, attempts, result, recorded);
    var limit := AttemptLimit(cfg, permit);
    if attempts > 1 {
      assert Repeats(cfg, limit, 1, upperMethod, upstream[0]);
    }
  }
}
