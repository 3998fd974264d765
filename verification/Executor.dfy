/** The retry loop around the breaker, as the method that runs one logical call. */
module Executor {
  import opened Common
  import opened CircuitBreaker
  import opened RetryPolicy
  import opened ServiceBreaker
  import opened Registry
  import opened BreakerHistory
  import CallSystem

  /** The breaker's histories when the request of an attempt ends, and when its backoff sleep
      does: what the other calls have done to the breaker by then, and the time. */
  datatype Meanwhile = Meanwhile(afterRequest: History, afterSleep: History)

  /** The other calls take any operations of the breaker while this call is suspended. */
  ghost predicate Interference(cfg: Settings, start: History, others: seq<Meanwhile>) {
    && (others != [] ==> Onward(cfg, start, others[0].afterRequest))
    && (forall i :: 0 <= i < |others| ==> Onward(cfg, others[i].afterRequest, others[i].afterSleep))
    && (forall i :: 1 <= i < |others| ==> Onward(cfg, others[i - 1].afterSleep, others[i].afterRequest))
  }

  /** The history that the last attempt finds when the call ends: a failure that would be
      repeated ends the call only in its sleep. */
  function Found(limit: nat, attempts: nat, upperMethod: string, a: Attempt, m: Meanwhile): History {
    if ShouldRetry(limit, attempts, upperMethod, a.reply) then m.afterSleep else m.afterRequest
  }

  /** The history after the one completion of a call, if it has one. */
  function Told(cfg: Settings, h: History, token: Permit, recorded: Option<Outcome>): History {
    match recorded
    case None => h
    case Some(outcome) => Complete(cfg, h, token, outcome)
  }

  /** A suspension point, after which the other calls have brought the breaker to `next`. */
  method Await(breaker: ServiceCircuitBreaker, next: History)
    requires breaker.Valid()
    requires Onward(breaker.settings, Advance(breaker.history, breaker.clock.now), next)
    modifies breaker, breaker.clock
    ensures breaker.Valid() && breaker.history == next && breaker.clock.now == next.clock
    ensures old(breaker.history.issued) <= next.issued && old(breaker.clock.now) <= next.clock
  {
    OnwardReachable(breaker.settings, breaker.history, breaker.clock.now, next);
    OnwardGrows(breaker.settings, Advance(breaker.history, breaker.clock.now), next);
    breaker.state, breaker.consecutiveFailures := next.circuit.state, next.circuit.consecutiveFailures;
    breaker.openedAt, breaker.halfOpenProbeInFlight := next.circuit.openedAt, next.circuit.probeInFlight;
    breaker.generation := next.circuit.generation;
    breaker.history, breaker.clock.now := next, next.clock;
  }

  /** The backoff sleep; a delay of zero does not suspend. `further` is where the other calls
      bring the breaker next. */
  method Sleep(breaker: ServiceCircuitBreaker, delay: real, next: History, ghost further: History)
    requires breaker.Valid() && breaker.history.clock == breaker.clock.now
    requires Onward(breaker.settings, breaker.history, next) && Onward(breaker.settings, next, further)
    modifies breaker, breaker.clock
    ensures breaker.Valid() && breaker.history == if delay > 0.0 then next else old(breaker.history)
    ensures breaker.clock.now == breaker.history.clock >= old(breaker.clock.now)
    ensures old(breaker.history.issued) <= breaker.history.issued
    ensures Onward(breaker.settings, breaker.history, further)
  {
    OnwardTransitive(breaker.settings, breaker.history, next, further);
    if delay > 0.0 {
      assert Advance(breaker.history, breaker.clock.now) == breaker.history;
      Await(breaker, next);
    }
  }

  class ResilientUpstreamExecutor {
    const circuits: CircuitBreakerRegistry
    const settings: Settings

    constructor (circuits: CircuitBreakerRegistry, settings: Settings)
      ensures this.circuits == circuits && this.settings == settings
    {
      this.circuits, this.settings := circuits, settings;
    }

    /** `token` can no longer act as a current probe. */
    ghost predicate Spent(breaker: ServiceCircuitBreaker, token: Permit)
      reads breaker
    {
      token.halfOpenProbe ==> token.generation < breaker.generation
    }

    method RecordFailure(breaker: ServiceCircuitBreaker, token: Permit)
      requires breaker.Valid() && token in breaker.history.issued
      modifies breaker
      ensures breaker.Valid() && Spent(breaker, token)
      ensures breaker.history
              == Complete(breaker.settings, Advance(old(breaker.history), breaker.clock.now), token, Failure)
    {
      var _ := breaker.RecordFailure(token);
    }

    method RecordNeutral(breaker: ServiceCircuitBreaker, token: Permit)
      requires breaker.Valid() && token in breaker.history.issued
      modifies breaker
      ensures breaker.Valid() && Spent(breaker, token)
      ensures breaker.history
              == Complete(breaker.settings, Advance(old(breaker.history), breaker.clock.now), token, Neutral)
    {
      var _ := breaker.RecordNeutral(token);
    }

    method RecordSuccess(breaker: ServiceCircuitBreaker, token: Permit)
      requires breaker.Valid() && token in breaker.history.issued
      modifies breaker
      ensures breaker.Valid() && Spent(breaker, token)
      ensures breaker.history == Complete(breaker.settings, old(breaker.history), token, Success)
    {
      var _ := breaker.RecordSuccess(token);
    }

    /** A reply that is not retried ends the call: the breaker is told at most once, and the
        response is returned or the exception raised again. */
    method Finish(breaker: ServiceCircuitBreaker, token: Permit, reply: Reply, attempts: nat)
      returns (result: ExecutionResult, ghost recorded: Option<Outcome>)
      requires breaker.Valid() && token in breaker.history.issued && breaker.history.clock == breaker.clock.now
      modifies breaker
      ensures breaker.Valid()
      ensures result == ResultOf(reply, attempts) && recorded == Verdict(reply)
      ensures recorded == match reply
                          case Response(status) => Some(if 500 <= status <= 599 then Failure else Success)
                          case Failed(error) => Some(if error == PoolTimeout then Neutral else Failure)
                          case CancelledInFlight => Some(Neutral)
                          case UnhandledException => None
      ensures result == match reply
                        case Response(status) => Returned(status, attempts)
                        case Failed(error) => RaisedTransportError(error)
                        case CancelledInFlight => RaisedCancelled
                        case UnhandledException => RaisedUnhandled
      ensures breaker.history == Told(breaker.settings, old(breaker.history), token, recorded)
      ensures recorded.Some? ==> Spent(breaker, token)
    {
      recorded := None;
      match reply {
        case Failed(error) =>
          if TransportErrorCountsForCircuit(error) {
            RecordFailure(breaker, token);
            recorded := Some(Failure);
          } else {
            RecordNeutral(breaker, token);
            recorded := Some(Neutral);
          }
          result := RaisedTransportError(error);
        case Response(status) =>
          if ResponseCountsForCircuitFailure(status) {
            RecordFailure(breaker, token);
            recorded := Some(Failure);
          } else {
            RecordSuccess(breaker, token);
            recorded := Some(Success);
          }
          result := Returned(status, attempts);
        case CancelledInFlight =>
          RecordNeutral(breaker, token);
          recorded := Some(Neutral);
          result := RaisedCancelled;
        case UnhandledException =>
          result := RaisedUnhandled;
      }
    }

    /** The loop of `execute`: `upstream[i]` is what happens to attempt i + 1, and `others[i]`
        what the other calls have done by then. Whatever they did, the breaker ends as they
        left it, with the one completion of this call, `recorded`, on top. */
    method Attempts(breaker: ServiceCircuitBreaker, token: Permit, upperMethod: string,
                    upstream: seq<Attempt>, others: seq<Meanwhile>)
      returns (result: ExecutionResult, attempts: nat, backoff: real, ghost recorded: Option<Outcome>)
      requires breaker.Valid() && token in breaker.history.issued
      requires |upstream| >= settings.maxAttempts && |others| >= settings.maxAttempts
      requires Interference(breaker.settings, Advance(breaker.history, breaker.clock.now), others)
      modifies breaker, breaker.clock
      ensures breaker.Valid() && breaker.clock.now >= old(breaker.clock.now)
      ensures Outline(settings, token, upperMethod, upstream, attempts, result, recorded)
      ensures !result.RaisedLookupError? && !result.RaisedCircuitOpen?
      ensures backoff == TotalBackoff(settings, attempts)
      ensures
        var limit := AttemptLimit(settings, token);
        var found := Found(limit, attempts, upperMethod, upstream[attempts - 1], others[attempts - 1]);
        breaker.history == Told(breaker.settings, found, token, recorded) && breaker.clock.now == found.clock
      ensures recorded.Some? ==> Spent(breaker, token)
    {
      var maxAttempts := if token.halfOpenProbe then 1 else settings.maxAttempts;
      attempts, backoff := 0, 0.0;
      while attempts < maxAttempts
        invariant 0 <= attempts < maxAttempts
        invariant breaker.Valid() && token in breaker.history.issued
        invariant breaker.clock.now >= old(breaker.clock.now)
        invariant Onward(breaker.settings, Advance(breaker.history, breaker.clock.now), others[attempts].afterRequest)
        invariant backoff == TotalBackoff(settings, attempts + 1)
        invariant AllRepeat(settings, maxAttempts, attempts, upperMethod, upstream)
        decreases maxAttempts - attempts
      {
        var a, m := upstream[attempts], others[attempts];
        attempts := attempts + 1;
        Await(breaker, m.afterRequest);
        if ShouldRetry(maxAttempts, attempts, upperMethod, a.reply) {
          var delay := RetryDelay(settings, attempts);
          Sleep(breaker, delay, m.afterSleep, others[attempts].afterRequest);
          if delay > 0.0 && a.cancelledInBackoff {
            LastAttemptEndsCall(settings, token, upperMethod, upstream, attempts, CancelledInFlight);
            result, recorded := Finish(breaker, token, CancelledInFlight, attempts);
            return;
          }
          OneMoreRepeats(settings, maxAttempts, attempts - 1, upperMethod, upstream);
          backoff := backoff + delay;
        } else {
          LastAttemptEndsCall(settings, token, upperMethod, upstream, attempts, a.reply);
          result, recorded := Finish(breaker, token, a.reply, attempts);
          return;
        }
      }
      assert false;  // the loop never exits without a result
    }

    /** The history of a registered service's breaker once this call was admitted or rejected. */
    ghost function Asked(serviceName: string): History
      requires serviceName in circuits.breakers
      reads circuits, circuits.clock, circuits.breakers[serviceName]
    {
      Admit(circuits.settings, Advance(circuits.breakers[serviceName].history, circuits.clock.now))
    }

    /** `permit` is the permit the call was admitted with. A call without one sends and
        records nothing; any other follows its outline and leaves the breaker as the other
        calls left it, with its own completion, if it has one, on top. */
    method Execute(serviceName: string, upperMethod: string, upstream: seq<Attempt>, others: seq<Meanwhile>)
      returns (result: ExecutionResult, attempts: nat, backoff: real,
               ghost permit: Option<Permit>, ghost recorded: Option<Outcome>)
      requires circuits.Valid() && |upstream| >= settings.maxAttempts && |others| >= settings.maxAttempts
      requires serviceName in circuits.breakers ==> Interference(circuits.settings, Asked(serviceName), others)
      modifies if serviceName in circuits.breakers then {circuits.breakers[serviceName], circuits.clock} else {}
      ensures circuits.Valid() && circuits.breakers == old(circuits.breakers)
      ensures result.RaisedLookupError? <==> serviceName !in circuits.breakers
      ensures serviceName in old(circuits.breakers) ==>
                var answer := CircuitBreaker.BeforeRequest(
                  circuits.settings, old(circuits.breakers[serviceName].Value()), old(circuits.clock.now)).1;
                if answer.Admitted? then permit == Some(answer.permit)
                else result == RaisedCircuitOpen(answer.retryAfterSeconds)
      ensures permit.None? <==> result.RaisedLookupError? || result.RaisedCircuitOpen?
      ensures permit.None? ==> attempts == 0 && backoff == 0.0 && recorded.None?
      ensures permit.None? && serviceName in old(circuits.breakers) ==>
                && circuits.breakers[serviceName].history == old(Asked(serviceName))
                && circuits.clock.now == old(circuits.clock.now)
      ensures permit.Some? ==>
                && Outline(settings, permit.value, upperMethod, upstream, attempts, result, recorded)
                && backoff == TotalBackoff(settings, attempts)
                && var limit := AttemptLimit(settings, permit.value);
                   var found := Found(limit, attempts, upperMethod, upstream[attempts - 1], others[attempts - 1]);
                   && circuits.breakers[serviceName].history
                      == Told(circuits.settings, found, permit.value, recorded)
                   && circuits.clock.now == found.clock
      ensures permit.Some? && recorded.Some? ==> Spent(circuits.breakers[serviceName], permit.value)
    {
      attempts, backoff, permit, recorded := 0, 0.0, None, None;
      if serviceName !in circuits.breakers {
        result := RaisedLookupError;
        return;
      }
      var breaker := circuits.breakers[serviceName];
      var answer := breaker.BeforeRequest();
      if answer.Rejected? {
        circuits.StaysValid(serviceName);
        result := RaisedCircuitOpen(answer.retryAfterSeconds);
        return;
      }
      permit := Some(answer.permit);
      assert Advance(breaker.history, breaker.clock.now) == breaker.history;
      result, attempts, backoff, recorded := Attempts(breaker, answer.permit, upperMethod, upstream, others);
      circuits.StaysValid(serviceName);
    }
  }

  // ---- The method among the interleaved calls ------------------------------------------------

  /** With no other call there is no interference. */
  lemma AloneIsInterference(cfg: Settings, start: History, n: nat)
    ensures Interference(cfg, start, seq(n, _ => Meanwhile(start, start)))
  {
    StepIsOnward(cfg, start, AdmitCall);
  }

  /** The step is one of call k itself. */
  predicate Own(step: CallSystem.Step, k: nat) {
    (step.ReplyTo? || step.Wake? || step.Cancel?) && step.k == k
  }

  /** While call k is in flight, every step of the interleaved calls does to the breaker what
      the method says: a step of call k tells it the completion that ends the call, and nothing
      before that; what any other step does to it is interference. */
  lemma StepsAreAsInMethod(cfg: CallSystem.Config, s: CallSystem.System, k: nat, step: CallSystem.Step)
    requires CallSystem.SystemInv(cfg, s) && k < |s.calls| && s.calls[k].InFlight()
    ensures
      var s' := CallSystem.Next(cfg, s, step);
      && k < |s'.calls|
      && (if Own(step, k) then
            var recorded := s'.calls[k].recorded;
            s'.history == Told(cfg.breaker, s.history, s.calls[k].permit,
                               if recorded == [] then None else Some(recorded[0]))
          else
            s'.calls[k] == s.calls[k] && Onward(cfg.breaker, s.history, s'.history))
  {
    if Own(step, k) {
      OwnStepTells(cfg, s, k, step);
    } else {
      OtherStepIsOnward(cfg, s, k, step);
    }
  }

  lemma OwnStepTells(cfg: CallSystem.Config, s: CallSystem.System, k: nat, step: CallSystem.Step)
    requires CallSystem.CallsInv(cfg, s) && k < |s.calls| && s.calls[k].InFlight() && Own(step, k)
    ensures
      var s' := CallSystem.Next(cfg, s, step);
      && k < |s'.calls|
      && var recorded := s'.calls[k].recorded;
         s'.history == Told(cfg.breaker, s.history, s.calls[k].permit,
                            if recorded == [] then None else Some(recorded[0]))
  {
    assert CallSystem.CallFits(cfg, s.history, k, s.calls[k]);
  }

  lemma OtherStepIsOnward(cfg: CallSystem.Config, s: CallSystem.System, k: nat, step: CallSystem.Step)
    requires CallSystem.CallsInv(cfg, s) && k < |s.calls| && !Own(step, k)
    ensures
      var s' := CallSystem.Next(cfg, s, step);
      k < |s'.calls| && s'.calls[k] == s.calls[k] && Onward(cfg.breaker, s.history, s'.history)
  {
    StepIsOnward(cfg.breaker, s.history, AdmitCall);
    match step
    case Arrive(_) =>
    case TimePasses(now) => StepIsOnward(cfg.breaker, s.history, BreakerHistory.ClockReaches(now));
    case ReplyTo(i, reply) =>
      if i < |s.calls| { BecomingIsOnward(cfg, s, i, CallSystem.AfterReply(cfg, s.calls[i], reply)); }
    case Wake(i) =>
      if i < |s.calls| { BecomingIsOnward(cfg, s, i, CallSystem.AfterSleep(s.calls[i])); }
    case Cancel(i) =>
      if i < |s.calls| { BecomingIsOnward(cfg, s, i, CallSystem.AfterCancel(cfg, s.calls[i])); }
  }

  lemma BecomingIsOnward(cfg: CallSystem.Config, s: CallSystem.System, i: nat, call: CallSystem.Call)
    requires CallSystem.CallsInv(cfg, s) && i < |s.calls| && call.permit == s.calls[i].permit
    ensures Onward(cfg.breaker, s.history, CallSystem.Becoming(cfg, s, i, call).history)
  {
    StepIsOnward(cfg.breaker, s.history, AdmitCall);
    assert CallSystem.CallFits(cfg, s.history, i, s.calls[i]);
    if |call.recorded| > |s.calls[i].recorded| {
      StepIsOnward(cfg.breaker, s.history, CompleteIssued(i, call.recorded[|call.recorded| - 1]));
    }
  }
}
