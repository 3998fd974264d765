/** The breaker as the object the gateway keeps, its methods written as in the code. */
module ServiceBreaker {
  import opened Common
  import opened CircuitBreaker
  import opened BreakerHistory

  /** The monotonic clock the breakers share; it moves only while a call is suspended. */
  class MonotonicClock {
    var now: real

    constructor (now: real)
      ensures this.now == now
    {
      this.now := now;
    }
  }

  class ServiceCircuitBreaker {
    const settings: Settings
    const clock: MonotonicClock
    var state: CircuitState
    var consecutiveFailures: int
    var openedAt: Option<real>
    var halfOpenProbeInFlight: bool
    var generation: int

    /** Everything that happened to this breaker; the clock has not gone back since. */
    ghost var history: History

    ghost function Value(): Circuit
      reads this
    {
      Circuit(state, consecutiveFailures, openedAt, halfOpenProbeInFlight, generation)
    }

    ghost predicate Valid()
      reads this, clock
    {
      history.circuit == Value() && Reachable(settings, history) && history.clock <= clock.now
    }

    constructor (settings: Settings, clock: MonotonicClock)
      requires clock.now >= 0.0
      ensures Valid() && this.settings == settings && this.clock == clock && history == Fresh
    {
      this.settings, this.clock := settings, clock;
      state, consecutiveFailures, openedAt := Closed, 0, None;
      halfOpenProbeInFlight, generation := false, 0;
      history := Fresh;
      assert Fresh == Run(settings, []);
    }

    method RetryAfterUnlocked() returns (seconds: int)
      ensures seconds == RetryAfter(settings, openedAt, clock.now)
      ensures seconds >= 0
      ensures openedAt.Some? ==> (seconds == 0 <==> clock.now >= openedAt.value + settings.recoveryTimeout)
      ensures openedAt.Some? && seconds > 0 ==>
                seconds as real - 1.0 < openedAt.value + settings.recoveryTimeout - clock.now <= seconds as real
    {
      if openedAt == None {
        return 0;
      }
      var remaining := settings.recoveryTimeout - (clock.now - openedAt.value);
      if remaining <= 0.0 {
        return 0;
      }
      return Max(1, Ceil(remaining));
    }

    method BeforeRequest() returns (answer: Admission)
      requires Valid()
      modifies this
      ensures Valid()
      ensures history == Admit(settings, Advance(old(history), clock.now))
      ensures answer == CircuitBreaker.BeforeRequest(settings, old(Value()), clock.now).1
      ensures answer.Admitted? ==> history.issued == old(history.issued) + [answer.permit]
      ensures answer.Rejected? ==> Value() == old(Value()) && !state.Closed? && answer.retryAfterSeconds >= 1
      ensures answer.Rejected? && state.HalfOpen? ==> answer.retryAfterSeconds == 1
      ensures answer.Rejected? && state.Open? ==>
                openedAt.Some?
                && answer.retryAfterSeconds as real - 1.0 < openedAt.value + settings.recoveryTimeout - clock.now
                && openedAt.value + settings.recoveryTimeout - clock.now <= answer.retryAfterSeconds as real
    {
      ghost var before := Advance(history, clock.now);
      AdmitReachable(settings, history, clock.now);
      IssuedPermit(settings, history, Permit(0, false));
      history := Admit(settings, before);
      if state == Closed {
        return Admitted(Permit(generation, false));
      }
      if state == Open {
        var retryAfter := RetryAfterUnlocked();
        if retryAfter > 0 {
          return Rejected(Max(1, retryAfter));
        }
        state := HalfOpen;
        halfOpenProbeInFlight := true;
        generation := generation + 1;
        return Admitted(Permit(generation, true));
      }
      if halfOpenProbeInFlight {
        return Rejected(Max(1, 1));
      }
      // A HALF_OPEN circuit always has its probe in flight: the code's last branch,
      // which would hand out a second probe, is never taken.
      assert false;
      return Admitted(Permit(generation, true));
    }

    /** True exactly when a current probe closes the circuit again. */
    method RecordSuccess(permit: Permit) returns (recovered: bool)
      requires Valid() && permit in history.issued
      modifies this
      ensures Valid()
      ensures history == Complete(settings, old(history), permit, Success)
      ensures permit.halfOpenProbe ==> permit.generation < generation
      ensures recovered <==> permit == Permit(old(generation), true)
      ensures recovered <==> old(state).HalfOpen? && state.Closed?
    {
      ghost var before := Advance(history, history.clock);
      CompleteReachable(settings, history, history.clock, permit, Success);
      IssuedPermit(settings, history, permit);
      history := Complete(settings, before, permit, Success);
      if permit.generation != generation {
        return false;
      }
      if permit.halfOpenProbe {
        if state != HalfOpen || !halfOpenProbeInFlight {
          return false;
        }
        state := Closed;
        consecutiveFailures := 0;
        openedAt := None;
        halfOpenProbeInFlight := false;
        generation := generation + 1;
        return true;
      }
      if state != Closed {
        return false;
      }
      consecutiveFailures := 0;
      openedAt := None;
      return false;
    }

    /** True exactly when this completion moves the circuit to OPEN. */
    method RecordFailure(permit: Permit) returns (tripped: bool)
      requires Valid() && permit in history.issued
      modifies this
      ensures Valid()
      ensures history == Complete(settings, Advance(old(history), clock.now), permit, Failure)
      ensures permit.halfOpenProbe ==> permit.generation < generation
      ensures tripped <==> !old(state).Open? && state.Open?
      ensures tripped ==> openedAt == Some(clock.now) && permit.generation == old(generation)
    {
      ghost var before := Advance(history, clock.now);
      CompleteReachable(settings, history, clock.now, permit, Failure);
      IssuedPermit(settings, history, permit);
      history := Complete(settings, before, permit, Failure);
      if permit.generation != generation {
        return false;
      }
      if permit.halfOpenProbe {
        if state != HalfOpen || !halfOpenProbeInFlight {
          return false;
        }
        state := Open;
        openedAt := Some(clock.now);
        consecutiveFailures := settings.failureThreshold;
        halfOpenProbeInFlight := false;
        generation := generation + 1;
        return true;
      }
      if state != Closed {
        return false;
      }
      consecutiveFailures := consecutiveFailures + 1;
      if consecutiveFailures >= settings.failureThreshold {
        state := Open;
        openedAt := Some(clock.now);
        halfOpenProbeInFlight := false;
        generation := generation + 1;
        return true;
      }
      return false;
    }

    /** True exactly when a current probe is handed back; the counter never moves. */
    method RecordNeutral(permit: Permit) returns (reopened: bool)
      requires Valid() && permit in history.issued
      modifies this
      ensures Valid()
      ensures history == Complete(settings, Advance(old(history), clock.now), permit, Neutral)
      ensures permit.halfOpenProbe ==> permit.generation < generation
      ensures reopened <==> permit == Permit(old(generation), true)
      ensures reopened <==> old(state).HalfOpen? && state.Open?
      ensures consecutiveFailures == old(consecutiveFailures)
    {
      ghost var before := Advance(history, clock.now);
      CompleteReachable(settings, history, clock.now, permit, Neutral);
      IssuedPermit(settings, history, permit);
      history := Complete(settings, before, permit, Neutral);
      if permit.generation != generation {
        return false;
      }
      if permit.halfOpenProbe && state == HalfOpen && halfOpenProbeInFlight {
        state := Open;
        openedAt := Some(clock.now);
        halfOpenProbeInFlight := false;
        generation := generation + 1;
        return true;
      }
      return false;
    }
  }
}
