/**
 Unboundedly many login attempts on one account. Each script call, with the branch it
 leads to, is one step of `issue_access_token`; password verification and the audit
 writes lie between the steps, and everything may interleave there.
 */
module LoginProtocol {
  import opened Common
  import opened LoginScripts
  import opened LoginLog

  /** The account's record, with the log it refines. */
  datatype Store = Store(record: Option<Record>, log: seq<Entry>, clock: nat)

  datatype Verification = Verified | Rejected | RepositoryDown

  /** `Unauthorized` points to the log entry of the counted failure behind a 401, `Token` to
      the reset behind a 200. */
  datatype Response = Token(entry: nat) | Unauthorized(entry: nat) | TooManyAttempts | Unavailable | Abandoned

  datatype Stage = Arrived | Verifying | RecordingFailure | Resetting | Done(response: Response)

  /** What the store was when a lock check answered "not locked": how long its log, and when. */
  datatype Seen = Seen(length: nat, at: nat)

  /** `check` is the attempt's own lock check, once that has let the attempt pass. */
  datatype Attempt = Attempt(stage: Stage, check: Option<Seen>)

  datatype System = System(store: Store, attempts: seq<Attempt>)

  datatype Step =
    | Arrive
    | CheckLock(k: nat, drop: bool, backend: Backend)
    | Verify(k: nat, result: Verification)
    | CountFailure(k: nat, drop: bool, backend: Backend)
    | Clear(k: nat, backend: Backend)
    | Abandon(k: nat)
    | TimePasses(now: nat)

  const Idle := System(Store(None, [], 0), [])

  function Evaluate(p: Policy, s: Store, op: Op, drop: bool): Store {
    s.(record := LoginLog.Step(p, s.record, Call(op, s.clock, drop)), log := Observe(p, s.log, op, s.clock))
  }

  /** The store after a script call that may not reach Redis or not be answered. */
  function Reaching(p: Policy, s: Store, op: Op, drop: bool, backend: Backend): Store {
    if backend.Up? || backend.applied then Evaluate(p, s, op, drop) else s
  }

  predicate AnsweredLocked(p: Policy, s: Store, op: Op, drop: bool)
    requires !op.Reset?
  {
    ScriptReply(p, s.record, Call(op, s.clock, drop)).locked == 1
  }

  predicate At(s: System, k: nat, stage: Stage) {
    k < |s.attempts| && s.attempts[k].stage == stage
  }

  function Move(s: System, store: Store, k: nat, stage: Stage): System
    requires k < |s.attempts|
  {
    System(store, s.attempts[k := s.attempts[k].(stage := stage)])
  }

  /** What an attempt becomes with its lock check. */
  function AfterCheck(p: Policy, s: Store, drop: bool, backend: Backend): Attempt {
    if backend.Down? then Attempt(Done(Unavailable), None)
    else if AnsweredLocked(p, s, Check, drop) then Attempt(Done(TooManyAttempts), None)
    else Attempt(Verifying, Some(Seen(|s.log|, s.clock)))
  }

  function AfterVerification(result: Verification): Stage {
    match result
    case Verified => Resetting
    case Rejected => RecordingFailure
    case RepositoryDown => Done(Unavailable)
  }

  /** Steps that are not possible in `s` leave it as it is. */
  function Next(p: Policy, s: System, step: Step): System {
    match step
    case Arrive => s.(attempts := s.attempts + [Attempt(Arrived, None)])
    case TimePasses(now) => s.(store := s.store.(clock := if s.store.clock < now then now else s.store.clock))
    case CheckLock(k, drop, backend) =>
      if !At(s, k, Arrived) then s
      else
        System(Reaching(p, s.store, Check, drop, backend), s.attempts[k := AfterCheck(p, s.store, drop, backend)])
    case Verify(k, result) =>
      if !At(s, k, Verifying) then s
      else
        Move(s, s.store, k, AfterVerification(result))
    case CountFailure(k, drop, backend) =>
      if !At(s, k, RecordingFailure) then s
      else
        Move(s, Reaching(p, s.store, Failure, drop, backend), k,
             Done(if backend.Down? then Unavailable
                  else if AnsweredLocked(p, s.store, Failure, drop) then TooManyAttempts
                  else Unauthorized(|s.store.log|)))
    case Clear(k, backend) =>
      if !At(s, k, Resetting) then s
      else
        Move(s, Reaching(p, s.store, Reset, false, backend), k,
             Done(if backend.Down? then Unavailable else Token(|s.store.log|)))
    case Abandon(k) =>
      if k < |s.attempts| && !s.attempts[k].stage.Done? then Move(s, s.store, k, Done(Abandoned)) else s
  }

  function RunFrom(p: Policy, s: System, steps: seq<Step>): System {
    if steps == [] then s else Next(p, RunFrom(p, s, steps[..|steps| - 1]), steps[|steps| - 1])
  }

  function Run(p: Policy, steps: seq<Step>): System { RunFrom(p, Idle, steps) }

  // ---- The invariant ---------------------------------------------------------------------------

  ghost predicate StoreInv(p: Policy, s: Store) {
    && Represents(p, s.record, s.log, s.clock)
    && WellFormed(p, s.log)
    && (s.log != [] ==> s.log[|s.log| - 1].at <= s.clock)
  }

  lemma EvaluateKeepsStore(p: Policy, s: Store, op: Op, drop: bool)
    requires StoreInv(p, s)
    ensures StoreInv(p, Evaluate(p, s, op, drop))
    ensures !op.Reset? ==>
              ScriptReply(p, s.record, Call(op, s.clock, drop)) == LogReply(p, s.log, op, s.clock)
  {
    StepRefines(p, s.record, s.log, s.clock, Call(op, s.clock, drop));
    ObserveKeepsWellFormed(p, s.log, op, s.clock);
  }

  /** The attempt's own lock check found the account unlocked, and what was logged since then
      happened since then. */
  ghost predicate Checked(p: Policy, s: Store, check: Option<Seen>) {
    && check.Some?
    && var Seen(n, at) := check.value;
       && n <= |s.log|
       && at <= s.clock
       && !Locked(p, s.log[..n], at)
       && forall i :: n <= i < |s.log| ==> s.log[i].at >= at
  }

  /** An attempt that verifies, or got further, has passed its check; and the entry that its
      401 or its token points to was logged after the check. */
  ghost predicate AttemptInv(p: Policy, s: Store, a: Attempt) {
    match a.stage
    case Arrived => a.check.None?
    case Done(response) =>
      response.Token? || response.Unauthorized? ==>
        && Checked(p, s, a.check)
        && a.check.value.length <= response.entry < |s.log|
        && if response.Token? then s.log[response.entry].Cleared?
           else s.log[response.entry].Fail? && !s.log[response.entry].tripped
    case _ => Checked(p, s, a.check)
  }

  predicate Is401(a: Attempt) { a.stage.Done? && a.stage.response.Unauthorized? }

  predicate IsToken(a: Attempt) { a.stage.Done? && a.stage.response.Token? }

  predicate HasEntry(a: Attempt) { Is401(a) || IsToken(a) }

  /** No two answers come from the same counted failure, or from the same reset. */
  ghost predicate DistinctEntries(attempts: seq<Attempt>) {
    forall i, j :: 0 <= i < j < |attempts| && HasEntry(attempts[i]) && HasEntry(attempts[j]) ==>
                     attempts[i].stage.response.entry != attempts[j].stage.response.entry
  }

  ghost predicate Inv(p: Policy, s: System) {
    && StoreInv(p, s.store)
    && (forall k :: 0 <= k < |s.attempts| ==> AttemptInv(p, s.store, s.attempts[k]))
    && DistinctEntries(s.attempts)
  }

  /** The store after some more steps: more log, from more time. */
  ghost predicate Later(s: Store, t: Store) {
    && s.log <= t.log
    && s.clock <= t.clock
    && forall i :: |s.log| <= i < |t.log| ==> t.log[i].at >= s.clock
  }

  lemma CheckStays(p: Policy, s: Store, t: Store, check: Option<Seen>)
    requires Later(s, t) && Checked(p, s, check)
    ensures Checked(p, t, check)
  {
    assert t.log[..check.value.length] == s.log[..check.value.length];
  }

  lemma AttemptStays(p: Policy, s: Store, t: Store, a: Attempt)
    requires Later(s, t) && AttemptInv(p, s, a)
    ensures AttemptInv(p, t, a)
  {
    if Checked(p, s, a.check) {
      CheckStays(p, s, t, a.check);
    }
  }

  /** A check that answers "not locked" met an unlocked account. */
  lemma CheckPasses(p: Policy, s: Store, drop: bool, backend: Backend)
    requires StoreInv(p, s)
    ensures AttemptInv(p, s, AfterCheck(p, s, drop, backend))
  {
    EvaluateKeepsStore(p, s, Check, drop);
    assert s.log[..|s.log|] == s.log;
  }

  lemma EvaluateGoesForward(p: Policy, s: Store, op: Op, drop: bool)
    ensures Later(s, Evaluate(p, s, op, drop))
  {
    ObserveAppends(p, s.log, op, s.clock);
  }

  lemma ReachingKeepsStore(p: Policy, s: Store, op: Op, drop: bool, backend: Backend)
    requires StoreInv(p, s)
    ensures StoreInv(p, Reaching(p, s, op, drop, backend)) && Later(s, Reaching(p, s, op, drop, backend))
  {
    if backend.Up? || backend.applied {
      EvaluateKeepsStore(p, s, op, drop);
      EvaluateGoesForward(p, s, op, drop);
    }
  }

  /** Moving one attempt while the store only gets later. */
  lemma MoveKeepsInv(p: Policy, s: System, store: Store, k: nat, a: Attempt)
    requires Inv(p, s) && StoreInv(p, store) && Later(s.store, store) && k < |s.attempts|
    requires AttemptInv(p, store, a)
    requires HasEntry(a) ==> a.stage.response.entry >= |s.store.log|
    ensures Inv(p, System(store, s.attempts[k := a]))
  {
    forall i | 0 <= i < |s.attempts|
      ensures AttemptInv(p, store, s.attempts[i])
    {
      AttemptStays(p, s.store, store, s.attempts[i]);
    }
  }

  lemma CheckKeepsInv(p: Policy, s: System, k: nat, drop: bool, backend: Backend)
    requires Inv(p, s)
    ensures Inv(p, Next(p, s, CheckLock(k, drop, backend)))
  {
    if At(s, k, Arrived) {
      var store := Reaching(p, s.store, Check, drop, backend);
      ReachingKeepsStore(p, s.store, Check, drop, backend);
      CheckPasses(p, s.store, drop, backend);
      AttemptStays(p, s.store, store, AfterCheck(p, s.store, drop, backend));
      MoveKeepsInv(p, s, store, k, AfterCheck(p, s.store, drop, backend));
    }
  }

  lemma RecordKeepsInv(p: Policy, s: System, k: nat, drop: bool, backend: Backend)
    requires Inv(p, s)
    ensures Inv(p, Next(p, s, CountFailure(k, drop, backend)))
  {
    if At(s, k, RecordingFailure) {
      var store := Reaching(p, s.store, Failure, drop, backend);
      ReachingKeepsStore(p, s.store, Failure, drop, backend);
      EvaluateKeepsStore(p, s.store, Failure, drop);
      CheckStays(p, s.store, store, s.attempts[k].check);
      MoveKeepsInv(p, s, store, k, Next(p, s, CountFailure(k, drop, backend)).attempts[k]);
    }
  }

  lemma ClearKeepsInv(p: Policy, s: System, k: nat, backend: Backend)
    requires Inv(p, s)
    ensures Inv(p, Next(p, s, Clear(k, backend)))
  {
    if At(s, k, Resetting) {
      var store := Reaching(p, s.store, Reset, false, backend);
      ReachingKeepsStore(p, s.store, Reset, false, backend);
      CheckStays(p, s.store, store, s.attempts[k].check);
      MoveKeepsInv(p, s, store, k, Next(p, s, Clear(k, backend)).attempts[k]);
    }
  }

  lemma NextKeepsInv(p: Policy, s: System, step: Step)
    requires Inv(p, s)
    ensures Inv(p, Next(p, s, step))
  {
    match step
    case Arrive =>
    case TimePasses(now) =>
      forall k | 0 <= k < |s.attempts|
        ensures AttemptInv(p, Next(p, s, step).store, s.attempts[k])
      {
        AttemptStays(p, s.store, Next(p, s, step).store, s.attempts[k]);
      }
    case CheckLock(k, drop, backend) => CheckKeepsInv(p, s, k, drop, backend);
    case CountFailure(k, drop, backend) => RecordKeepsInv(p, s, k, drop, backend);
    case Clear(k, backend) => ClearKeepsInv(p, s, k, backend);
    case Verify(k, _) =>
      if At(s, k, Verifying) {
        MoveKeepsInv(p, s, s.store, k, Next(p, s, step).attempts[k]);
      }
    case Abandon(k) =>
      if k < |s.attempts| && !s.attempts[k].stage.Done? {
        MoveKeepsInv(p, s, s.store, k, s.attempts[k].(stage := Done(Abandoned)));
      }
  }

  lemma {:induction false} RunKeepsInv(p: Policy, s: System, steps: seq<Step>)
    requires Inv(p, s)
    ensures Inv(p, RunFrom(p, s, steps))
  {
    if steps != [] {
      RunKeepsInv(p, s, steps[..|steps| - 1]);
      NextKeepsInv(p, RunFrom(p, s, steps[..|steps| - 1]), steps[|steps| - 1]);
    }
  }

  // ---- What every interleaving promises -----------------------------------------------------------

  /** Step i of the run is the lock check of attempt k, answered "not locked". */
  ghost predicate CheckedInStep(p: Policy, steps: seq<Step>, k: nat, i: nat, seen: Seen) {
    && i < |steps|
    && steps[i].CheckLock? && steps[i].k == k && steps[i].backend.Up?
    && var s := Run(p, steps[..i]);
       && At(s, k, Arrived)
       && !AnsweredLocked(p, s.store, Check, steps[i].drop)
       && seen == Seen(|s.store.log|, s.store.clock)
  }

  /** Step j of the run is the reset of attempt k, answered by Redis and logged at `entry`. */
  ghost predicate ClearedInStep(p: Policy, steps: seq<Step>, k: nat, j: nat, entry: nat) {
    && j < |steps|
    && steps[j] == Clear(k, Up)
    && var s := Run(p, steps[..j]);
       At(s, k, Resetting) && entry == |s.store.log|
  }

  lemma {:induction false} CheckWasAStep(p: Policy, steps: seq<Step>, k: nat) returns (i: nat)
    requires k < |Run(p, steps).attempts| && Run(p, steps).attempts[k].check.Some?
    ensures CheckedInStep(p, steps, k, i, Run(p, steps).attempts[k].check.value)
  {
    i := |steps| - 1;
    var init, last := steps[..|steps| - 1], steps[|steps| - 1];
    if !(last.CheckLock? && last.k == k && At(Run(p, init), k, Arrived)) {
      i := CheckWasAStep(p, init, k);
      assert init[..i] == steps[..i];
    }
  }

  lemma TokenComesFromClear(p: Policy, s: System, step: Step, k: nat)
    requires k < |Next(p, s, step).attempts| && IsToken(Next(p, s, step).attempts[k])
    ensures k < |s.attempts|
    ensures s.attempts[k] != Next(p, s, step).attempts[k] ==>
              && step == Clear(k, Up)
              && At(s, k, Resetting)
              && Next(p, s, step).attempts[k] == Attempt(Done(Token(|s.store.log|)), s.attempts[k].check)
  {
  }

  lemma {:induction false} TokenTookSteps(p: Policy, steps: seq<Step>, k: nat) returns (i: nat, j: nat)
    requires k < |Run(p, steps).attempts| && IsToken(Run(p, steps).attempts[k])
    ensures i < j
    ensures Run(p, steps).attempts[k].check.Some?
    ensures CheckedInStep(p, steps, k, i, Run(p, steps).attempts[k].check.value)
    ensures ClearedInStep(p, steps, k, j, Run(p, steps).attempts[k].stage.response.entry)
  {
    var init, last := steps[..|steps| - 1], steps[|steps| - 1];
    TokenComesFromClear(p, Run(p, init), last, k);
    if IsToken(Run(p, init).attempts[k]) {
      i, j := TokenTookSteps(p, init, k);
      assert init[..i] == steps[..i] && init[..j] == steps[..j];
    } else {
      RunKeepsInv(p, Idle, init);
      assert AttemptInv(p, Run(p, init).store, Run(p, init).attempts[k]);
      j := |init|;
      i := CheckWasAStep(p, init, k);
      assert init[..i] == steps[..i];
    }
  }

  /** A password verification that runs during a lock belongs to an attempt that did check the
      lock, when the account was not locked, and before the failure that started this lock. */
  lemma VerifiesOnlyOldChecksDuringLock(p: Policy, steps: seq<Step>, k: nat, drop: bool)
    requires At(Run(p, steps), k, Verifying) && AnsweredLocked(p, Run(p, steps).store, Check, drop)
    ensures
      var s := Run(p, steps);
      var trip, check := |s.store.log| - 1, s.attempts[k].check;
      && check.Some?
      && (exists i :: CheckedInStep(p, steps, k, i, check.value))
      && check.value.length <= trip
      && !Locked(p, s.store.log[..check.value.length], check.value.at)
      && s.store.log[trip].Fail? && s.store.log[trip].tripped
      && check.value.at <= s.store.log[trip].at <= s.store.clock < s.store.log[trip].at + 1000 * p.lockoutSeconds
  {
    RunKeepsInv(p, Idle, steps);
    var s := Run(p, steps);
    EvaluateKeepsStore(p, s.store, Check, drop);
    assert AttemptInv(p, s.store, s.attempts[k]);
    assert s.store.log[..|s.store.log|] == s.store.log;
    var _ := CheckWasAStep(p, steps, k);
  }

  /** A token comes from an attempt that first checked the lock, when the account was not
      locked, and then cleared the record with a reset of its own: no other token and no 401
      points to the same log entry. */
  lemma TokenNeedsCheckAndReset(p: Policy, steps: seq<Step>, k: nat)
    requires k < |Run(p, steps).attempts| && IsToken(Run(p, steps).attempts[k])
    ensures
      var s := Run(p, steps);
      var check, entry := s.attempts[k].check, s.attempts[k].stage.response.entry;
      && check.Some?
      && (exists i, j :: i < j && CheckedInStep(p, steps, k, i, check.value) && ClearedInStep(p, steps, k, j, entry))
      && check.value.length <= entry < |s.store.log|
      && !Locked(p, s.store.log[..check.value.length], check.value.at)
      && s.store.log[entry].Cleared? && s.store.log[entry].at >= check.value.at
      && forall other :: 0 <= other < |s.attempts| && other != k && HasEntry(s.attempts[other]) ==>
                           s.attempts[other].stage.response.entry != entry
  {
    RunKeepsInv(p, Idle, steps);
    assert AttemptInv(p, Run(p, steps).store, Run(p, steps).attempts[k]);
    var i, j := TokenTookSteps(p, steps, k);
  }

  lemma RunSnoc(p: Policy, s: System, steps: seq<Step>, last: Step)
    ensures RunFrom(p, s, steps + [last]) == Next(p, RunFrom(p, s, steps), last)
  {
    assert (steps + [last])[..|steps|] == steps;
  }

  /** After any run, an attempt that arrives at a later time and whose check is answered passes
      if and only if no lock is running then; otherwise it is turned away. */
  lemma FreshAttemptPassesUnlessLocked(p: Policy, steps: seq<Step>, now: nat, drop: bool)
    requires now >= Run(p, steps).store.clock
    ensures
      var s, k := Run(p, steps), |Run(p, steps).attempts|;
      var s' := Run(p, steps + [TimePasses(now)] + [Arrive] + [CheckLock(k, drop, Up)]);
      && |s'.attempts| == k + 1
      && s'.store.log == s.store.log && s'.store.clock == now
      && s'.attempts[k] == (if Locked(p, s.store.log, now) then Attempt(Done(TooManyAttempts), None)
                            else Attempt(Verifying, Some(Seen(|s.store.log|, now))))
  {
    var s, k := Run(p, steps), |Run(p, steps).attempts|;
    RunSnoc(p, Idle, steps, TimePasses(now));
    RunSnoc(p, Idle, steps + [TimePasses(now)], Arrive);
    RunSnoc(p, Idle, steps + [TimePasses(now)] + [Arrive], CheckLock(k, drop, Up));
    RunKeepsInv(p, Idle, steps + [TimePasses(now)] + [Arrive]);
    EvaluateKeepsStore(p, Run(p, steps + [TimePasses(now)] + [Arrive]).store, Check, drop);
  }

  lemma StepKeepsLog(p: Policy, s: System, step: Step)
    requires !step.CountFailure? && !step.Clear?
    ensures Next(p, s, step).store.log == s.store.log
    ensures !step.CheckLock? ==> Next(p, s, step).store.record == s.store.record
  {
  }

  /** Only recording a failure and resetting touch the log; a failing user repository, a lock
      check, a cancellation and time leave every later answer of the scripts as it was. */
  lemma OtherStepsKeepLog(p: Policy, steps: seq<Step>, step: Step, op: Op, drop: bool)
    requires !step.CountFailure? && !step.Clear? && !op.Reset?
    ensures
      var s, s' := Run(p, steps), Next(p, Run(p, steps), step);
      && s'.store.log == s.store.log
      && ScriptReply(p, s'.store.record, Call(op, s'.store.clock, drop)) == LogReply(p, s.store.log, op, s'.store.clock)
      && (!step.CheckLock? ==> s'.store.record == s.store.record)
      && (step.Abandon? && step.k < |s.attempts| && !s.attempts[step.k].stage.Done? ==>
            s'.attempts[step.k].stage == Done(Abandoned))
  {
    RunKeepsInv(p, Idle, steps);
    StepKeepsLog(p, Run(p, steps), step);
    var store := Next(p, Run(p, steps), step).store;
    assert StoreInv(p, store) by {
      NextKeepsInv(p, Run(p, steps), step);
    }
    EvaluateKeepsStore(p, store, op, drop);
  }

  /** The attempts that were answered 401 for a failure among the log entries from a up to b. */
  function Unauthorizeds(attempts: seq<Attempt>, a: nat, b: nat): set<nat> {
    set k: nat | k < |attempts| && Is401(attempts[k]) && a <= attempts[k].stage.response.entry < b
  }

  lemma {:induction false} OneEntryPer401(attempts: seq<Attempt>, a: nat, b: nat)
    requires a <= b && DistinctEntries(attempts)
    ensures |Unauthorizeds(attempts, a, b)| <= b - a
  {
    if a == b {
      assert Unauthorizeds(attempts, a, b) == {};
    } else {
      OneEntryPer401(attempts, a, b - 1);
      var all, fewer := Unauthorizeds(attempts, a, b), Unauthorizeds(attempts, a, b - 1);
      if k :| k in all && k !in fewer {
        forall other | other in all && other != k
          ensures other in fewer
        {
          assert attempts[other].stage.response.entry != attempts[k].stage.response.entry;
        }
        assert all == fewer + {k};
      } else {
        assert all == fewer;
      }
    }
  }

  /** An epoch that ends without a lock is shorter than the threshold. */
  lemma EpochIsShort(p: Policy, log: seq<Entry>, a: nat)
    requires WellFormed(p, log) && a < |log| && Epoch(p, log, a, log[|log| - 1].at)
    ensures |log| - a <= if log[|log| - 1].tripped then p.failureThreshold else p.failureThreshold - 1
  {
    CountIsLongestEpoch(p, log, log[|log| - 1].at);
    CountBelowThreshold(p, log, log[|log| - 1].at);
  }

  lemma TripAnswersNo401(p: Policy, s: System, a: nat, b: nat)
    requires a < b <= |s.store.log| && s.store.log[b - 1].Fail? && s.store.log[b - 1].tripped
    requires forall k :: 0 <= k < |s.attempts| ==> AttemptInv(p, s.store, s.attempts[k])
    ensures Unauthorizeds(s.attempts, a, b) == Unauthorizeds(s.attempts, a, b - 1)
  {
    forall k: nat | k < |s.attempts| && Is401(s.attempts[k])
      ensures s.attempts[k].stage.response.entry != b - 1
    {
      assert AttemptInv(p, s.store, s.attempts[k]);
    }
  }

  /** Between two clears of the record at most threshold - 1 attempts are answered 401:
      entries a up to b of the log have no reset, lock end or idle gap between them. */
  lemma FewUnauthorizedBetweenClears(p: Policy, steps: seq<Step>, a: nat, b: nat)
    requires a < b <= |Run(p, steps).store.log|
    requires
      var log := Run(p, steps).store.log[..b];
      Epoch(p, log, a, log[b - 1].at)
    ensures |Unauthorizeds(Run(p, steps).attempts, a, b)| <= p.failureThreshold - 1
  {
    RunKeepsInv(p, Idle, steps);
    var s := Run(p, steps);
    WellFormedPrefix(p, s.store.log, b);
    EpochIsShort(p, s.store.log[..b], a);
    if s.store.log[b - 1].tripped {
      OneEntryPer401(s.attempts, a, b - 1);
      TripAnswersNo401(p, s, a, b);
    } else {
      OneEntryPer401(s.attempts, a, b);
    }
  }
}
