/**
 The CLOSED / OPEN / HALF_OPEN machine as a value, one function per lock section
 of gateway/app/proxy/resilience.py, and the outcome classifiers of that file.
 Instants are exact reals, in seconds.
 */
module CircuitBreaker {
  import opened Common

  datatype CircuitState = Closed | Open | HalfOpen

  datatype RawSettings = Settings(
    maxAttempts: int,
    retryBaseDelay: real,
    failureThreshold: int,
    recoveryTimeout: real)
  {
    predicate Valid() {
      && 1 <= maxAttempts <= 3
      && 0.0 <= retryBaseDelay <= 2.0
      && 1 <= failureThreshold <= 20
      && 1.0 <= recoveryTimeout <= 300.0
    }
  }

  /** Settings that passed the constructor checks; the witness holds the defaults. */
  type Settings = s: RawSettings | s.Valid() witness Settings(2, 0.1, 3, 10.0)

  /** Admission token of one logical upstream call. */
  datatype Permit = Permit(generation: int, halfOpenProbe: bool)

  datatype Circuit = Circuit(
    state: CircuitState,
    consecutiveFailures: int,
    openedAt: Option<real>,
    probeInFlight: bool,
    generation: int)

  /** What `before_request` does: return a permit, or raise `CircuitOpenError`. */
  datatype Admission = Admitted(permit: Permit) | Rejected(retryAfterSeconds: int)

  /** Which of the three `record_*` methods finishes a call. */
  datatype Outcome = Success | Failure | Neutral

  /** The transitions the executor reports to its observer. */
  datatype Event = CircuitOpened | CircuitRecovered

  const Initial := Circuit(Closed, 0, None, false, 0)

  function RetryAfter(cfg: Settings, openedAt: Option<real>, now: real): int {
    match openedAt
    case None => 0
    case Some(t) =>
      var remaining := cfg.recoveryTimeout - (now - t);
      if remaining <= 0.0 then 0 else Max(1, Ceil(remaining))
  }

  function BeforeRequest(cfg: Settings, c: Circuit, now: real): (Circuit, Admission) {
    if c.state.Closed? then
      (c, Admitted(Permit(c.generation, false)))
    else if c.state.Open? then
      var retryAfter := RetryAfter(cfg, c.openedAt, now);
      if retryAfter > 0 then
        (c, Rejected(Max(1, retryAfter)))
      else
        (c.(state := HalfOpen, probeInFlight := true, generation := c.generation + 1),
         Admitted(Permit(c.generation + 1, true)))
    else if c.probeInFlight then
      (c, Rejected(1))
    else
      (c.(probeInFlight := true), Admitted(Permit(c.generation, true)))
  }

  function RecordSuccess(c: Circuit, permit: Permit): (Circuit, bool) {
    if permit.generation != c.generation then
      (c, false)
    else if permit.halfOpenProbe then
      if !c.state.HalfOpen? || !c.probeInFlight then
        (c, false)
      else
        (Circuit(Closed, 0, None, false, c.generation + 1), true)
    else if !c.state.Closed? then
      (c, false)
    else
      (c.(consecutiveFailures := 0, openedAt := None), false)
  }

  function RecordFailure(cfg: Settings, c: Circuit, permit: Permit, now: real): (Circuit, bool) {
    if permit.generation != c.generation then
      (c, false)
    else if permit.halfOpenProbe then
      if !c.state.HalfOpen? || !c.probeInFlight then
        (c, false)
      else
        (Circuit(Open, cfg.failureThreshold, Some(now), false, c.generation + 1), true)
    else if !c.state.Closed? then
      (c, false)
    else
      var failures := c.consecutiveFailures + 1;
      if failures >= cfg.failureThreshold then
        (Circuit(Open, failures, Some(now), false, c.generation + 1), true)
      else
        (c.(consecutiveFailures := failures), false)
  }

  function RecordNeutral(c: Circuit, permit: Permit, now: real): (Circuit, bool) {
    if permit.generation != c.generation then
      (c, false)
    else if permit.halfOpenProbe && c.state.HalfOpen? && c.probeInFlight then
      (c.(state := Open, openedAt := Some(now), probeInFlight := false, generation := c.generation + 1), true)
    else
      (c, false)
  }

  function Record(cfg: Settings, c: Circuit, permit: Permit, outcome: Outcome, now: real): (Circuit, bool) {
    match outcome
    case Success => RecordSuccess(c, permit)
    case Failure => RecordFailure(cfg, c, permit, now)
    case Neutral => RecordNeutral(c, permit, now)
  }

  // ---- A breaker without the guards behind the generation check ----------------

  function LeanBeforeRequest(cfg: Settings, c: Circuit, now: real): (Circuit, Admission) {
    if c.state.Closed? then
      (c, Admitted(Permit(c.generation, false)))
    else if c.state.HalfOpen? then
      (c, Rejected(1))
    else
      var retryAfter := RetryAfter(cfg, c.openedAt, now);
      if retryAfter > 0 then
        (c, Rejected(retryAfter))
      else
        (c.(state := HalfOpen, probeInFlight := true, generation := c.generation + 1),
         Admitted(Permit(c.generation + 1, true)))
  }

  /** Only the generation is compared; state and probe flag are never consulted. */
  function LeanRecord(cfg: Settings, c: Circuit, permit: Permit, outcome: Outcome, now: real): (Circuit, bool) {
    if permit.generation != c.generation then
      (c, false)
    else if permit.halfOpenProbe then
      (if outcome.Success? then Circuit(Closed, 0, None, false, c.generation + 1)
       else Circuit(Open, cfg.failureThreshold, Some(now), false, c.generation + 1),
       true)
    else match outcome
      case Neutral => (c, false)
      case Success => (c.(consecutiveFailures := 0), false)
      case Failure =>
        var failures := c.consecutiveFailures + 1;
        if failures >= cfg.failureThreshold then
          (Circuit(Open, failures, Some(now), false, c.generation + 1), true)
        else
          (c.(consecutiveFailures := failures), false)
  }

  // ---- Classifiers --------------------------------------------------------------

  /** The `httpx.RequestError` kinds the code tells apart. */
  datatype TransportError = ConnectError | ConnectTimeout | PoolTimeout | OtherRequestError

  /** `upperMethod` is the method name after `str.upper`. */
  predicate MethodIsRetryable(upperMethod: string) {
    upperMethod in {"GET", "HEAD", "OPTIONS"}
  }

  predicate TransportErrorIsRetryable(upperMethod: string, error: TransportError) {
    MethodIsRetryable(upperMethod) && (error.ConnectError? || error.ConnectTimeout?)
  }

  predicate TransportErrorCountsForCircuit(error: TransportError) {
    !error.PoolTimeout?
  }

  predicate ResponseCountsForCircuitFailure(statusCode: int) {
    500 <= statusCode <= 599
  }
}
