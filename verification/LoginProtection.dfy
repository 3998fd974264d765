/** The login protection service of one account, and one run of `issue_access_token`. */
module LoginProtection {
  import opened Common
  import opened LoginScripts
  import opened LoginLog
  import opened LoginProtocol

  datatype Decision = Decision(locked: bool, failures: int, retryAfterSeconds: int)
  {
    /** The checks of the decision's constructor. */
    predicate Valid() {
      failures >= 0 && retryAfterSeconds >= 0 && (!locked ==> retryAfterSeconds == 0)
    }
  }

  datatype ProtectionError =
    | BackendUnavailable
    | InvalidLockState
    | InvalidMeasurements
    | InconsistentResponse
    | InvalidResetResult
    | ScriptFailed(error: ScriptError)

  function ParseDecision(reply: Reply): Result<Decision, ProtectionError> {
    if reply.locked != 0 && reply.locked != 1 then Err(InvalidLockState)
    else if reply.failures < 0 || reply.retryAfterMs < 0 then Err(InvalidMeasurements)
    else if reply.locked == 0 && reply.retryAfterMs != 0 then Err(InconsistentResponse)
    else
      Ok(Decision(reply.locked == 1, reply.failures,
                  if reply.locked == 1 then CeilSeconds(reply.retryAfterMs) else 0))
  }

  /** Which answers the parser refuses, and what it makes of the others. */
  lemma ParserInWords(reply: Reply)
    ensures
      var parsed := ParseDecision(reply);
      && (parsed == Err(InvalidLockState) <==> reply.locked < 0 || reply.locked > 1)
      && (parsed == Err(InvalidMeasurements) <==>
            0 <= reply.locked <= 1 && (reply.failures < 0 || reply.retryAfterMs < 0))
      && (parsed == Err(InconsistentResponse) <==>
            reply.locked == 0 && reply.failures >= 0 && reply.retryAfterMs > 0)
      && (parsed.Ok? <==>
            && reply.failures >= 0
            && ((reply.locked == 0 && reply.retryAfterMs == 0) || (reply.locked == 1 && reply.retryAfterMs >= 0)))
      && (parsed.Ok? ==>
            && (parsed.value.locked <==> reply.locked == 1)
            && parsed.value.failures == reply.failures
            && var seconds := parsed.value.retryAfterSeconds;
               1000 * (seconds - 1) < reply.retryAfterMs <= 1000 * seconds)
  {
  }

  /** Every answer of the scripts is accepted; a locked one tells a positive number of whole
      seconds, the least that reaches the end of the lock, and the lock ends exactly then. */
  lemma AnswersParseAndTellLockEnd(p: Policy, log: seq<Entry>, op: Op, now: nat, later: nat)
    requires WellFormed(p, log) && !op.Reset? && later >= now
    ensures
      var reply := LogReply(p, log, op, now);
      var parsed := ParseDecision(reply);
      && parsed.Ok?
      && parsed.value.Valid()
      && parsed.value.failures == reply.failures <= p.failureThreshold
      && (parsed.value.locked <==> Locked(p, Observe(p, log, op, now), now))
      && (parsed.value.locked ==>
            && parsed.value.retryAfterSeconds >= 1
            && 1000 * (parsed.value.retryAfterSeconds - 1) < reply.retryAfterMs <= 1000 * parsed.value.retryAfterSeconds
            && (Locked(p, Observe(p, log, op, now), later) <==> later < now + reply.retryAfterMs))
  {
    CountBelowThreshold(p, log, now);
  }

  /** The account is locked, and `seconds` is the least number of whole seconds to the end of
      the lock: it is over then, and still running one second earlier. */
  predicate LockEndsIn(p: Policy, log: seq<Entry>, now: nat, seconds: int) {
    && seconds >= 1
    && Locked(p, log, now)
    && Locked(p, log, now + 1000 * (seconds - 1))
    && !Locked(p, log, now + 1000 * seconds)
  }

  /** The decision that is made of an answer tells whether the account is now locked, and until when. */
  lemma DecisionTellsLock(p: Policy, log: seq<Entry>, op: Op, now: nat)
    requires WellFormed(p, log) && !op.Reset?
    ensures
      var parsed := ParseDecision(LogReply(p, log, op, now));
      && parsed.Ok?
      && (parsed.value.locked <==> Locked(p, Observe(p, log, op, now), now))
      && (if parsed.value.locked then LockEndsIn(p, Observe(p, log, op, now), now, parsed.value.retryAfterSeconds)
          else parsed.value.retryAfterSeconds == 0)
  {
    AnswersParseAndTellLockEnd(p, log, op, now, now);
    var parsed := ParseDecision(LogReply(p, log, op, now));
    if parsed.value.locked {
      AnswersParseAndTellLockEnd(p, log, op, now, now + 1000 * (parsed.value.retryAfterSeconds - 1));
      AnswersParseAndTellLockEnd(p, log, op, now, now + 1000 * parsed.value.retryAfterSeconds);
    }
  }

  /** The failure that starts a lock tells the lockout seconds of the policy. */
  lemma TripTellsLockout(p: Policy, log: seq<Entry>, now: nat)
    requires WellFormed(p, log)
    ensures
      var parsed := ParseDecision(LogReply(p, log, Failure, now));
      parsed.Ok? && Observe(p, log, Failure, now) == log + [Fail(now, true)] ==>
        parsed.value.retryAfterSeconds == p.lockoutSeconds
  {
    if Locked(p, log, now) {
      assert Observe(p, log, Failure, now) == log;
    } else {
      FailureInWords(p, log, now);
      assert (log + [Fail(now, true)])[|log|] != Fail(now, false);
    }
  }

  /** The clock that the gateway and Redis share. */
  class WallClock {
    var now: nat

    constructor (now: nat)
      ensures this.now == now
    {
      this.now := now;
    }
  }

  class RedisLoginProtection {
    const policy: Policy
    const key: LoginKey
    const clock: WallClock

    /** The failures counted on this account, and its resets. */
    ghost var log: seq<Entry>

    ghost function Value(): Store
      reads this, key, clock
    {
      Store(key.Value(), log, clock.now)
    }

    ghost predicate Valid()
      reads this, key, clock
    {
      StoreInv(policy, Value())
    }

    constructor (policy: Policy, clock: WallClock)
      ensures Valid() && this.policy == policy && this.clock == clock && log == [] && fresh(key)
    {
      this.policy, this.clock, this.log := policy, clock, [];
      this.key := new LoginKey();
    }

    /** `drop` is Redis's choice about an ended lock; see `Live`. */
    method CheckLock(drop: bool, backend: Backend) returns (result: Result<Decision, ProtectionError>)
      requires Valid()
      modifies key
      ensures Valid() && Value() == Reaching(policy, old(Value()), Check, drop, backend)
      ensures backend.Down? ==> result == Err(BackendUnavailable)
      ensures backend.Up? ==>
                && result == ParseDecision(LogReply(policy, log, Check, clock.now))
                && result.Ok?
                && (result.value.locked <==> AnsweredLocked(policy, old(Value()), Check, drop))
                && (result.value.locked <==> Locked(policy, log, clock.now))
                && (result.value.locked ==> LockEndsIn(policy, log, clock.now, result.value.retryAfterSeconds))
    {
      var now := clock.now;
      EvaluateKeepsStore(policy, Value(), Check, drop);
      DecisionTellsLock(policy, log, Check, now);
      if backend.Down? && !backend.applied {
        return Err(BackendUnavailable);
      }
      key.Access(now, drop);
      var raw := key.LockStatusScript(now);
      if backend.Down? {
        return Err(BackendUnavailable);
      }
      result := ParseDecision(raw.value);
    }

    method RecordFailure(drop: bool, backend: Backend) returns (result: Result<Decision, ProtectionError>)
      requires Valid()
      modifies key, this
      ensures Valid() && Value() == Reaching(policy, old(Value()), Failure, drop, backend)
      ensures backend.Down? ==> result == Err(BackendUnavailable)
      ensures backend.Up? ==>
                && result == ParseDecision(LogReply(policy, old(log), Failure, clock.now))
                && result.Ok?
                && (result.value.locked <==> AnsweredLocked(policy, old(Value()), Failure, drop))
                && (result.value.locked <==> Locked(policy, log, clock.now))
                && (result.value.locked ==> LockEndsIn(policy, log, clock.now, result.value.retryAfterSeconds))
                && (log == old(log) + [Fail(clock.now, true)] ==>
                      result.value.retryAfterSeconds == policy.lockoutSeconds)
    {
      var now := clock.now;
      EvaluateKeepsStore(policy, Value(), Failure, drop);
      DecisionTellsLock(policy, log, Failure, now);
      TripTellsLockout(policy, log, now);
      if backend.Down? && !backend.applied {
        return Err(BackendUnavailable);
      }
      key.Access(now, drop);
      var raw := key.FailureScript(policy.failureThreshold, now, policy.WindowMs(), policy.LockoutMs());
      log := Observe(policy, log, Failure, now);
      if backend.Down? {
        return Err(BackendUnavailable);
      }
      result := ParseDecision(raw.value);
    }

    /** True exactly if there was a record to delete. */
    method ResetRecord(drop: bool, backend: Backend) returns (result: Result<bool, ProtectionError>)
      requires Valid()
      modifies key, this
      ensures Valid() && Value() == Reaching(policy, old(Value()), Reset, drop, backend)
      ensures result.Ok? <==> backend.Up?
      ensures backend.Down? ==> result == Err(BackendUnavailable)
      ensures result.Ok? ==> result.value == ResetReply(old(key.Value()), clock.now, drop)
      ensures backend.Up? ==> key.Value() == None && log == old(log) + [Cleared(clock.now)]
    {
      EvaluateKeepsStore(policy, Value(), Reset, drop);
      if backend.Down? && !backend.applied {
        return Err(BackendUnavailable);
      }
      key.Access(clock.now, drop);
      var deleted := key.ResetScript();
      log := Observe(policy, log, Reset, clock.now);
      if backend.Down? {
        return Err(BackendUnavailable);
      }
      if deleted != 0 && deleted != 1 {
        return Err(InvalidResetResult);
      }
      return Ok(deleted == 1);
    }
  }

  /** A suspension point, after which the other attempts and the clock have brought the
      account to `next`. */
  method Await(protection: RedisLoginProtection, next: Store)
    requires protection.Valid() && StoreInv(protection.policy, next) && Later(protection.Value(), next)
    modifies protection, protection.key, protection.clock
    ensures protection.Valid() && protection.Value() == next
  {
    protection.key.present := next.record.Some?;
    if next.record.Some? {
      var r := next.record.value;
      protection.key.failuresField, protection.key.lockedUntilField := r.failures, r.lockedUntil;
      protection.key.deadline := r.expiresAt;
    }
    protection.log, protection.clock.now := next.log, next.clock;
  }

  datatype HttpResponse = Ok200 | Unauthorized401 | TooMany429(retryAfterSeconds: int) | Unavailable503

  /** The store after the script call that follows a verification, if there is one. */
  function Concluded(p: Policy, s: Store, verification: Verification, drop: bool, failure: Backend, reset: Backend)
    : Store
  {
    match verification
    case RepositoryDown => s
    case Rejected => Reaching(p, s, Failure, drop, failure)
    case Verified => Reaching(p, s, Reset, drop, reset)
  }

  /** The response to an attempt whose check passed, from the store that its verification
      finds: 401 exactly for a counted failure that starts no lock and meets none. */
  function ResponseTo(p: Policy, s: Store, verification: Verification, drop: bool, failure: Backend, reset: Backend)
    : HttpResponse
  {
    match verification
    case RepositoryDown => Unavailable503
    case Verified => if reset.Up? then Ok200 else Unavailable503
    case Rejected =>
      var reply := LogReply(p, s.log, Failure, s.clock);
      if failure.Down? then Unavailable503
      else if reply.locked == 1 then TooMany429(CeilSeconds(reply.retryAfterMs))
      else Unauthorized401
  }

  /** How the protocol of all attempts sees a response; `entry` is where the log ended. */
  function Answer(response: HttpResponse, entry: nat): Stage {
    Done(match response
         case Ok200 => Token(entry)
         case Unauthorized401 => LoginProtocol.Unauthorized(entry)
         case TooMany429(_) => TooManyAttempts
         case Unavailable503 => Unavailable)
  }

  /** The part of `issue_access_token` after a check that passed. */
  method Conclude(protection: RedisLoginProtection, verification: Verification,
                  drop: bool, failure: Backend, reset: Backend)
    returns (response: HttpResponse)
    requires protection.Valid()
    modifies protection, protection.key
    ensures protection.Valid()
    ensures protection.Value()
            == Concluded(protection.policy, old(protection.Value()), verification, drop, failure, reset)
    ensures response == ResponseTo(protection.policy, old(protection.Value()), verification, drop, failure, reset)
    ensures response.Ok200? <==> verification.Verified? && reset.Up?
    ensures response.Unauthorized401? <==>
              verification.Rejected? && failure.Up? && !Locked(protection.policy, protection.log, protection.clock.now)
    ensures response.TooMany429? <==>
              verification.Rejected? && failure.Up? && Locked(protection.policy, protection.log, protection.clock.now)
    ensures response.TooMany429? ==>
              LockEndsIn(protection.policy, protection.log, protection.clock.now, response.retryAfterSeconds)
  {
    ghost var policy, met := protection.policy, protection.Value();
    match verification {
      case RepositoryDown =>
        return Unavailable503;
      case Rejected =>
        AnswersParseAndTellLockEnd(policy, met.log, Failure, met.clock, met.clock);
        EvaluateKeepsStore(policy, met, Failure, drop);
        var decision := protection.RecordFailure(drop, failure);
        if decision.Err? {
          return Unavailable503;
        }
        if decision.value.locked {
          return TooMany429(decision.value.retryAfterSeconds);
        }
        return Unauthorized401;
      case Verified =>
        var cleared := protection.ResetRecord(drop, reset);
        if cleared.Err? {
          return Unavailable503;
        }
        return Ok200;
    }
  }

  /** The response and the store of one run of `issue_access_token` that starts from `start`
      and whose verification, if its check passes, finds `met`. */
  function Issued(p: Policy, start: Store, met: Store, verification: Verification,
                  drop: bool, check: Backend, failure: Backend, reset: Backend): (HttpResponse, Store)
  {
    var reply := LogReply(p, start.log, Check, start.clock);
    if check.Down? then (Unavailable503, Reaching(p, start, Check, drop, check))
    else if reply.locked == 1 then
      (TooMany429(CeilSeconds(reply.retryAfterMs)), Reaching(p, start, Check, drop, check))
    else
      (ResponseTo(p, met, verification, drop, failure, reset), Concluded(p, met, verification, drop, failure, reset))
  }

  /** One run of `issue_access_token`. `met` is what other attempts have made of the account
      when its verification ends, if its check passes. */
  method IssueAccessToken(protection: RedisLoginProtection, met: Store, verification: Verification,
                          drop: bool, check: Backend, failure: Backend, reset: Backend)
    returns (response: HttpResponse)
    requires protection.Valid() && StoreInv(protection.policy, met)
    requires Later(Reaching(protection.policy, protection.Value(), Check, drop, check), met)
    modifies protection, protection.key, protection.clock
    ensures protection.Valid()
    ensures (response, protection.Value())
            == Issued(protection.policy, old(protection.Value()), met, verification, drop, check, failure, reset)
    ensures
      var passed := check.Up? && !Locked(protection.policy, old(protection.log), old(protection.clock.now));
      var lockedAfter := Locked(protection.policy, protection.log, protection.clock.now);
      && (response.Ok200? <==> passed && verification.Verified? && reset.Up?)
      && (response.Unauthorized401? <==> passed && verification.Rejected? && failure.Up? && !lockedAfter)
      && (response.TooMany429? <==>
            (check.Up? && !passed) || (passed && verification.Rejected? && failure.Up? && lockedAfter))
    ensures response.TooMany429? ==>
              LockEndsIn(protection.policy, protection.log, protection.clock.now, response.retryAfterSeconds)
    ensures response.Ok200? ==> verification.Verified? && protection.log == met.log + [Cleared(met.clock)]
    ensures response.Unauthorized401? ==>
              verification.Rejected? && protection.log == met.log + [Fail(met.clock, false)]
  {
    ghost var policy, start := protection.policy, protection.Value();
    AnswersParseAndTellLockEnd(policy, start.log, Check, start.clock, start.clock);
    EvaluateKeepsStore(policy, start, Check, drop);
    var lockDecision := protection.CheckLock(drop, check);
    if lockDecision.Err? {
      return Unavailable503;
    }
    if lockDecision.value.locked {
      return TooMany429(lockDecision.value.retryAfterSeconds);
    }
    Await(protection, met);
    response := Conclude(protection, verification, drop, failure, reset);
  }

  // ---- The method is an attempt of the protocol ------------------------------------------

  /** The script call that follows a verification, if there is one. */
  function Finally(p: Policy, s: System, k: nat, verification: Verification,
                   drop: bool, failure: Backend, reset: Backend): System
  {
    match verification
    case RepositoryDown => s
    case Rejected => Next(p, s, CountFailure(k, drop, failure))
    case Verified => Next(p, s, Clear(k, reset))
  }

  /** A step of another attempt, or of the clock. */
  predicate Elsewhere(step: Step, k: nat) {
    match step
    case Arrive => true
    case TimePasses(_) => true
    case CheckLock(i, _, _) => i != k
    case Verify(i, _) => i != k
    case CountFailure(i, _, _) => i != k
    case Clear(i, _) => i != k
    case Abandon(i) => i != k
  }

  lemma StepGoesForward(p: Policy, s: System, k: nat, step: Step)
    requires Inv(p, s) && k < |s.attempts| && Elsewhere(step, k)
    ensures Later(s.store, Next(p, s, step).store)
    ensures k < |Next(p, s, step).attempts| && Next(p, s, step).attempts[k] == s.attempts[k]
  {
  }

  lemma LaterTransitive(s: Store, t: Store, u: Store)
    requires Later(s, t) && Later(t, u)
    ensures Later(s, u)
  {
    forall i | |s.log| <= i < |u.log|
      ensures u.log[i].at >= s.clock
    {
      assert i < |t.log| ==> u.log[i] == t.log[i];
    }
  }

  /** Whatever other attempts do meets the contract of a suspension point, and leaves this
      attempt where it is. */
  lemma {:induction false} OthersGoForward(p: Policy, s: System, k: nat, others: seq<Step>)
    requires Inv(p, s) && k < |s.attempts|
    requires forall step <- others :: Elsewhere(step, k)
    ensures
      var t := RunFrom(p, s, others);
      Inv(p, t) && Later(s.store, t.store) && k < |t.attempts| && t.attempts[k] == s.attempts[k]
  {
    if others != [] {
      var init, last := others[..|others| - 1], others[|others| - 1];
      OthersGoForward(p, s, k, init);
      var t := RunFrom(p, s, init);
      assert last in others;
      StepGoesForward(p, t, k, last);
      NextKeepsInv(p, t, last);
      LaterTransitive(s.store, t.store, Next(p, t, last).store);
    }
  }

  lemma FinallyConcludes(p: Policy, s: System, k: nat, verification: Verification,
                         drop: bool, failure: Backend, reset: Backend)
    requires StoreInv(p, s.store)
    requires At(s, k, AfterVerification(verification))
    ensures
      Finally(p, s, k, verification, drop, failure, reset)
      == var stage := Answer(ResponseTo(p, s.store, verification, drop, failure, reset), |s.store.log|);
         Move(s, Concluded(p, s.store, verification, drop, failure, reset), k, stage)
  {
    match verification
    case RepositoryDown => assert s.attempts[k := s.attempts[k]] == s.attempts;
    case Rejected =>
      EvaluateKeepsStore(p, s.store, Failure, drop);
      FailureConcludes(p, s, k, drop, failure, reset);
    case Verified => ResetConcludes(p, s, k, drop, failure, reset);
  }

  lemma FailureAnswer(p: Policy, s: Store, drop: bool, failure: Backend, reset: Backend)
    requires ScriptReply(p, s.record, Call(Failure, s.clock, drop)) == LogReply(p, s.log, Failure, s.clock)
    ensures Answer(ResponseTo(p, s, Rejected, drop, failure, reset), |s.log|)
            == Done(if failure.Down? then Unavailable
                    else if AnsweredLocked(p, s, Failure, drop) then TooManyAttempts
                    else LoginProtocol.Unauthorized(|s.log|))
  {
  }

  lemma FailureConcludes(p: Policy, s: System, k: nat, drop: bool, failure: Backend, reset: Backend)
    requires At(s, k, RecordingFailure)
    requires ScriptReply(p, s.store.record, Call(Failure, s.store.clock, drop))
             == LogReply(p, s.store.log, Failure, s.store.clock)
    ensures
      Next(p, s, CountFailure(k, drop, failure))
      == var stage := Answer(ResponseTo(p, s.store, Rejected, drop, failure, reset), |s.store.log|);
         Move(s, Concluded(p, s.store, Rejected, drop, failure, reset), k, stage)
  {
    FailureAnswer(p, s.store, drop, failure, reset);
  }

  lemma ResetConcludes(p: Policy, s: System, k: nat, drop: bool, failure: Backend, reset: Backend)
    requires At(s, k, Resetting)
    ensures
      Next(p, s, Clear(k, reset))
      == var stage := Answer(ResponseTo(p, s.store, Verified, drop, failure, reset), |s.store.log|);
         Move(s, Concluded(p, s.store, Verified, drop, failure, reset), k, stage)
  {
  }

  lemma CheckDecides(p: Policy, s: Store, met: Store, verification: Verification,
                     drop: bool, check: Backend, failure: Backend, reset: Backend)
    requires StoreInv(p, s)
    ensures
      var (response, store) := Issued(p, s, met, verification, drop, check, failure, reset);
      if AfterCheck(p, s, drop, check).stage.Verifying? then
        && response == ResponseTo(p, met, verification, drop, failure, reset)
        && store == Concluded(p, met, verification, drop, failure, reset)
      else
        && AfterCheck(p, s, drop, check) == Attempt(Answer(response, 0), None)
        && store == Reaching(p, s, Check, drop, check)
  {
    EvaluateKeepsStore(p, s, Check, drop);
  }

  /** `IssueAccessToken` is one attempt of the protocol. Attempt k checks, verifies and goes on
      to its last script call, and others take any steps in between: with what they made of the
      account by then as `met`, which is one that the method accepts, the protocol has exactly
      the response and the store that the method's contract fixes. */
  lemma MethodIsAttempt(p: Policy, s: System, k: nat, others: seq<Step>, later: seq<Step>, verification: Verification,
                        drop: bool, check: Backend, failure: Backend, reset: Backend)
    requires Inv(p, s) && At(s, k, Arrived)
    requires forall step <- others + later :: Elsewhere(step, k)
    ensures
      var checked := Next(p, s, CheckLock(k, drop, check));
      var verified := Next(p, RunFrom(p, checked, others), Verify(k, verification));
      var met := RunFrom(p, verified, later);
      var end := Finally(p, met, k, verification, drop, failure, reset);
      var (response, store) := Issued(p, s.store, met.store, verification, drop, check, failure, reset);
      && checked.store == Reaching(p, s.store, Check, drop, check)
      && StoreInv(p, met.store) && Later(checked.store, met.store)
      && k < |met.attempts|
      && (if AfterCheck(p, s.store, drop, check).stage.Verifying? then
            && end.store == store
            && end.attempts == met.attempts[k := Attempt(Answer(response, |met.store.log|),
                                                         Some(Seen(|s.store.log|, s.store.clock)))]
          else
            && checked.store == store
            && end == met
            && end.attempts[k] == Attempt(Answer(response, 0), None))
  {
    var checked := Next(p, s, CheckLock(k, drop, check));
    CheckKeepsInv(p, s, k, drop, check);
    var verified := OthersThenVerify(p, checked, k, others, later, verification);
    OthersGoForward(p, verified, k, later);
    var met := RunFrom(p, verified, later);
    LaterTransitive(checked.store, verified.store, met.store);
    CheckDecides(p, s.store, met.store, verification, drop, check, failure, reset);
    if checked.attempts[k].stage.Verifying? {
      FinallyConcludes(p, met, k, verification, drop, failure, reset);
    } else {
      FinallyIsOver(p, met, k, verification, drop, failure, reset);
    }
  }

  lemma FinallyIsOver(p: Policy, s: System, k: nat, verification: Verification,
                      drop: bool, failure: Backend, reset: Backend)
    requires k < |s.attempts| && s.attempts[k].stage.Done?
    ensures Finally(p, s, k, verification, drop, failure, reset) == s
  {
  }

  /** A verification moves its own attempt, and only if that has passed its check. */
  lemma OthersThenVerify(p: Policy, s: System, k: nat, others: seq<Step>, later: seq<Step>, verification: Verification)
    returns (verified: System)
    requires Inv(p, s) && k < |s.attempts|
    requires forall step <- others + later :: Elsewhere(step, k)
    ensures verified == Next(p, RunFrom(p, s, others), Verify(k, verification))
    ensures Inv(p, verified) && Later(s.store, verified.store) && k < |verified.attempts|
    ensures verified.attempts[k]
            == if s.attempts[k].stage.Verifying? then s.attempts[k].(stage := AfterVerification(verification))
               else s.attempts[k]
    ensures forall step <- later :: Elsewhere(step, k)
  {
    assert forall step <- others :: step in others + later;
    assert forall step <- later :: step in others + later;
    OthersGoForward(p, s, k, others);
    verified := Next(p, RunFrom(p, s, others), Verify(k, verification));
    NextKeepsInv(p, RunFrom(p, s, others), Verify(k, verification));
  }
}
