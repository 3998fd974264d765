/**
 How many passwords one lock lets through. A lock check reserves nothing, so whatever passed
 its check before the lock still verifies: that many verifications, and no more, run while
 the account stays locked. No policy bounds their number.
 */
module LoginConcurrency {
  import opened Common
  import opened LoginScripts
  import opened LoginLog
  import opened LoginThroughput
  import opened LoginProtocol

  function VerifyingNow(s: System): set<nat> {
    set k: nat | k < |s.attempts| && s.attempts[k].stage.Verifying?
  }

  predicate IsVerification(s: System, step: Step) {
    step.Verify? && At(s, step.k, Verifying)
  }

  /** How many passwords the run verifies. */
  function Verifications(p: Policy, s: System, steps: seq<Step>): nat {
    if steps == [] then 0
    else
      var init, last := steps[..|steps| - 1], steps[|steps| - 1];
      Verifications(p, s, init) + if IsVerification(RunFrom(p, s, init), last) then 1 else 0
  }

  predicate LockedNow(p: Policy, s: System) { Locked(p, s.store.log, s.store.clock) }

  /** The account is locked before, between and after these steps. */
  predicate StaysLocked(p: Policy, s: System, steps: seq<Step>) {
    LockedNow(p, RunFrom(p, s, steps)) && (steps == [] || StaysLocked(p, s, steps[..|steps| - 1]))
  }

  // ---- No more than had passed their checks -----------------------------------------------

  lemma NoNewVerifications(p: Policy, s: System, step: Step)
    requires Inv(p, s) && LockedNow(p, s)
    ensures VerifyingNow(Next(p, s, step)) <= VerifyingNow(s)
    ensures IsVerification(s, step) ==>
              step.k in VerifyingNow(s) && step.k !in VerifyingNow(Next(p, s, step))
  {
    if step.CheckLock? {
      EvaluateKeepsStore(p, s.store, Check, step.drop);
    }
  }

  lemma SmallerSet(a: set<nat>, b: set<nat>)
    requires a <= b
    ensures |a| <= |b|
  {
    assert b == a + (b - a);
  }

  lemma OneFewer(a: set<nat>, b: set<nat>, k: nat)
    requires a <= b && k in b && k !in a
    ensures |a| + 1 <= |b|
  {
    SmallerSet(a + {k}, b);
  }

  lemma {:induction false} VerifyingAttemptsAreUsedUp(p: Policy, s: System, steps: seq<Step>)
    requires Inv(p, s) && StaysLocked(p, s, steps)
    ensures Verifications(p, s, steps) + |VerifyingNow(RunFrom(p, s, steps))| <= |VerifyingNow(s)|
  {
    if steps != [] {
      var init, last := steps[..|steps| - 1], steps[|steps| - 1];
      VerifyingAttemptsAreUsedUp(p, s, init);
      RunKeepsInv(p, s, init);
      var t := RunFrom(p, s, init);
      NoNewVerifications(p, t, last);
      if IsVerification(t, last) {
        OneFewer(VerifyingNow(Next(p, t, last)), VerifyingNow(t), last.k);
      } else {
        SmallerSet(VerifyingNow(Next(p, t, last)), VerifyingNow(t));
      }
    }
  }

  /** While an account stays locked, at most as many passwords are verified as attempts had
      passed their checks and not yet verified when that began. */
  lemma VerificationsDuringLock(p: Policy, before: seq<Step>, during: seq<Step>)
    requires StaysLocked(p, Run(p, before), during)
    ensures Verifications(p, Run(p, before), during) <= |VerifyingNow(Run(p, before))|
  {
    RunKeepsInv(p, Idle, before);
    VerifyingAttemptsAreUsedUp(p, Run(p, before), during);
  }

  // ---- And that can be any number ------------------------------------------------------------

  lemma TwoMore(p: Policy, s: System, steps: seq<Step>, a: Step, b: Step)
    ensures
      var t := RunFrom(p, s, steps);
      && RunFrom(p, s, steps + [a, b]) == Next(p, Next(p, t, a), b)
      && Verifications(p, s, steps + [a, b])
         == Verifications(p, s, steps) + (if IsVerification(t, a) then 1 else 0)
            + if IsVerification(Next(p, t, a), b) then 1 else 0
  {
    var all := steps + [a, b];
    assert all[..|all| - 1] == steps + [a];
    assert (steps + [a])[..|steps|] == steps;
  }

  lemma OneMore(p: Policy, s: System, steps: seq<Step>, a: Step)
    ensures
      var t := RunFrom(p, s, steps);
      && RunFrom(p, s, steps + [a]) == Next(p, t, a)
      && Verifications(p, s, steps + [a]) == Verifications(p, s, steps) + (if IsVerification(t, a) then 1 else 0)
      && (StaysLocked(p, s, steps + [a]) <==> StaysLocked(p, s, steps) && LockedNow(p, Next(p, t, a)))
  {
    assert (steps + [a])[..|steps|] == steps;
  }

  /** n attempts arrive and pass their checks. */
  lemma {:induction false} ManyPass(p: Policy, n: nat) returns (steps: seq<Step>)
    ensures Run(p, steps) == System(Idle.store, seq(n, _ => Attempt(Verifying, Some(Seen(0, 0)))))
    ensures Verifications(p, Idle, steps) == 0
  {
    steps := [];
    if n > 0 {
      var fewer := ManyPass(p, n - 1);
      TwoMore(p, Idle, fewer, Arrive, CheckLock(n - 1, false, Up));
      steps := fewer + [Arrive, CheckLock(n - 1, false, Up)];
      OnePasses(p, Run(p, fewer), n - 1);
      assert Run(p, steps).attempts == seq(n, _ => Attempt(Verifying, Some(Seen(0, 0))));
    }
  }

  lemma OnePasses(p: Policy, s: System, n: nat)
    requires s.store == Idle.store && |s.attempts| == n
    ensures Next(p, Next(p, s, Arrive), CheckLock(n, false, Up))
            == System(Idle.store, s.attempts + [Attempt(Verifying, Some(Seen(0, 0)))])
  {
  }

  /** Of the attempts, the first n verify, the next j have failed, and the others verify. */
  ghost predicate Failed(p: Policy, s: System, n: nat, j: nat) {
    && s.store.clock == 0
    && s.store.log == [] + BurstEntries(p, 0, j)
    && |s.attempts| == n + p.failureThreshold
    && forall k :: 0 <= k < |s.attempts| && !(n <= k < n + j) ==> s.attempts[k].stage.Verifying?
  }

  lemma OneFails(p: Policy, s: System, n: nat, j: nat)
    requires j < p.failureThreshold && Failed(p, s, n, j)
    ensures
      var s' := Next(p, s, Verify(n + j, Rejected));
      && IsVerification(s, Verify(n + j, Rejected))
      && Failed(p, Next(p, s', CountFailure(n + j, false, Up)), n, j + 1)
  {
    NextInBurst(p, [], 0, j);
  }

  lemma {:induction false} ThresholdFails(p: Policy, n: nat, j: nat) returns (steps: seq<Step>)
    requires j <= p.failureThreshold
    ensures Failed(p, Run(p, steps), n, j)
    ensures Verifications(p, Idle, steps) == j
  {
    if j == 0 {
      steps := ManyPass(p, n + p.failureThreshold);
    } else {
      var fewer := ThresholdFails(p, n, j - 1);
      var k := n + j - 1;
      OneFails(p, Run(p, fewer), n, j - 1);
      TwoMore(p, Idle, fewer, Verify(k, Rejected), CountFailure(k, false, Up));
      steps := fewer + [Verify(k, Rejected), CountFailure(k, false, Up)];
    }
  }

  /** The first n attempts verify, and the account stays as locked as it was. */
  lemma {:induction false} AllVerify(p: Policy, s: System, n: nat) returns (steps: seq<Step>)
    requires LockedNow(p, s) && n <= |s.attempts|
    requires forall k :: 0 <= k < n ==> s.attempts[k].stage.Verifying?
    ensures StaysLocked(p, s, steps) && Verifications(p, s, steps) == n
    ensures RunFrom(p, s, steps).store == s.store
    ensures |RunFrom(p, s, steps).attempts| == |s.attempts|
    ensures forall k :: n <= k < |s.attempts| ==> RunFrom(p, s, steps).attempts[k] == s.attempts[k]
  {
    steps := [];
    if n > 0 {
      var fewer := AllVerify(p, s, n - 1);
      assert s.attempts[n - 1].stage.Verifying?;
      OneMore(p, s, fewer, Verify(n - 1, Verified));
      steps := fewer + [Verify(n - 1, Verified)];
    }
  }

  /** For every policy and every n there is a run in which threshold failures, counted at once
      and without a reset, lock the account, and n more passwords are verified while it stays
      locked. */
  lemma AnyNumberVerifiesDuringLock(p: Policy, n: nat) returns (before: seq<Step>, during: seq<Step>)
    ensures Run(p, before).store.log == BurstEntries(p, 0, p.failureThreshold)
    ensures Verifications(p, Idle, before) == p.failureThreshold
    ensures StaysLocked(p, Run(p, before), during)
    ensures Verifications(p, Run(p, before), during) == n
  {
    before := ThresholdFails(p, n, p.failureThreshold);
    var s := Run(p, before);
    assert s.store.log == BurstEntries(p, 0, p.failureThreshold);
    during := AllVerify(p, s, n);
  }
}
