/**
 Unboundedly many calls in flight on one breaker. A lock section has no suspension
 point, so the admission of a call, and its last reply together with the `record_*`
 call it leads to, are single steps; between steps everything may interleave.
 */
module CallSystem {
  import opened Common
  import opened CircuitBreaker
  import opened BreakerHistory
  import opened RetryPolicy

  /** The breaker and the executor are built with settings of their own. */
  datatype Config = Config(breaker: Settings, executor: Settings)

  datatype Status = Waiting | Sleeping | Finished | Crashed

  /** A call that was admitted: `replies` lists what its attempts met, and `recorded` the
      completions it applied. */
  datatype Call = Call(
    permit: Permit,
    upperMethod: string,
    attempts: AttemptNumber,
    status: Status,
    replies: seq<Attempt>,
    recorded: seq<Outcome>)
  {
    predicate InFlight() { status.Waiting? || status.Sleeping? }
  }

  datatype System = System(history: History, calls: seq<Call>)

  const Idle := System(Fresh, [])

  datatype Step =
    | Arrive(upperMethod: string)
    | ReplyTo(k: nat, reply: Reply)
    | Wake(k: nat)
    | Cancel(k: nat)
    | TimePasses(now: real)

  // ---- One call -----------------------------------------------------------------------

  function NewCall(permit: Permit, upperMethod: string): Call {
    Call(permit, upperMethod, 1, Waiting, [], [])
  }

  function Ended(call: Call, verdict: Option<Outcome>): Call {
    match verdict
    case Some(outcome) => call.(status := Finished, recorded := call.recorded + [outcome])
    case None => call.(status := Crashed)
  }

  /** The awaited request of a waiting call ends. */
  function AfterReply(cfg: Config, call: Call, reply: Reply): Call {
    var heard := call.(replies := call.replies + [Attempt(reply, false)]);
    if ShouldRetry(AttemptLimit(cfg.executor, call.permit), call.attempts, call.upperMethod, reply) then
      if RetryDelay(cfg.executor, call.attempts) > 0.0 then heard.(status := Sleeping)
      else heard.(attempts := call.attempts + 1)
    else Ended(heard, Verdict(reply))
  }

  /** The backoff sleep of a sleeping call ends. */
  function AfterSleep(call: Call): Call {
    call.(status := Waiting, attempts := call.attempts + 1)
  }

  /** A cancellation hits the awaited request, or the backoff sleep. */
  function AfterCancel(cfg: Config, call: Call): Call {
    if call.status.Waiting? || call.replies == [] then AfterReply(cfg, call, CancelledInFlight)
    else
      var last := |call.replies| - 1;
      Ended(call.(replies := call.replies[last := call.replies[last].(cancelledInBackoff := true)]), Some(Neutral))
  }

  // ---- The system ---------------------------------------------------------------------

  function Arriving(cfg: Config, s: System, upperMethod: string): System {
    System(Admit(cfg.breaker, s.history),
           match BeforeRequest(cfg.breaker, s.history.circuit, s.history.clock).1
           case Rejected(_) => s.calls
           case Admitted(permit) => s.calls + [NewCall(permit, upperMethod)])
  }

  /** Call k becomes `call`; a completion it recorded is applied to the breaker in the same step. */
  function Becoming(cfg: Config, s: System, k: nat, call: Call): System
    requires k < |s.calls|
  {
    System(if |call.recorded| <= |s.calls[k].recorded| then s.history
           else Complete(cfg.breaker, s.history, call.permit, call.recorded[|call.recorded| - 1]),
           s.calls[k := call])
  }

  /** Steps that are not possible in `s` leave it as it is. */
  function Next(cfg: Config, s: System, step: Step): System {
    match step
    case Arrive(upperMethod) => Arriving(cfg, s, upperMethod)
    case ReplyTo(k, reply) =>
      if k < |s.calls| && s.calls[k].status.Waiting? then Becoming(cfg, s, k, AfterReply(cfg, s.calls[k], reply)) else s
    case Wake(k) =>
      if k < |s.calls| && s.calls[k].status.Sleeping? then Becoming(cfg, s, k, AfterSleep(s.calls[k])) else s
    case Cancel(k) =>
      if k < |s.calls| && s.calls[k].InFlight() then Becoming(cfg, s, k, AfterCancel(cfg, s.calls[k])) else s
    case TimePasses(now) => s.(history := Advance(s.history, now))
  }

  function RunFrom(cfg: Config, s: System, steps: seq<Step>): System {
    if steps == [] then s else Next(cfg, RunFrom(cfg, s, steps[..|steps| - 1]), steps[|steps| - 1])
  }

  function Run(cfg: Config, steps: seq<Step>): System { RunFrom(cfg, Idle, steps) }

  lemma RunSnoc(cfg: Config, s: System, steps: seq<Step>, last: Step)
    ensures RunFrom(cfg, s, steps + [last]) == Next(cfg, RunFrom(cfg, s, steps), last)
  {
    assert (steps + [last])[..|steps|] == steps;
  }

  // ---- What holds of one call -----------------------------------------------------------

  function ResultOfCall(cfg: Config, call: Call): ExecutionResult
    requires call.attempts <= |call.replies|
  {
    ResultOf(FinalReply(AttemptLimit(cfg.executor, call.permit), call.attempts, call.upperMethod,
                        call.replies[call.attempts - 1]),
             call.attempts)
  }

  /** A call that is over has the outline of its replies, with the completion it recorded. */
  ghost predicate Outlined(cfg: Config, call: Call) {
    && call.attempts <= |call.replies|
    && Outline(cfg.executor, call.permit, call.upperMethod, call.replies, call.attempts, ResultOfCall(cfg, call),
               if call.recorded == [] then None else Some(call.recorded[0]))
  }

  ghost predicate CallInv(cfg: Config, call: Call) {
    var limit := AttemptLimit(cfg.executor, call.permit);
    && call.attempts <= limit
    && |call.recorded| == (if call.status.Finished? then 1 else 0)
    && |call.replies| == (if call.status.Waiting? then call.attempts - 1 else call.attempts)
    && AllRepeat(cfg.executor, limit, call.attempts - 1, call.upperMethod, call.replies)
    && (call.status.Sleeping? ==>
          && ShouldRetry(limit, call.attempts, call.upperMethod, call.replies[call.attempts - 1].reply)
          && RetryDelay(cfg.executor, call.attempts) > 0.0
          && !call.replies[call.attempts - 1].cancelledInBackoff)
    && (call.status.Crashed? ==> call.replies[call.attempts - 1].reply.UnhandledException?)
    && (!call.InFlight() ==> Outlined(cfg, call))
  }

  lemma RetriedReplyKeepsCall(cfg: Config, call: Call, reply: Reply)
    requires CallInv(cfg, call) && call.status.Waiting?
    requires ShouldRetry(AttemptLimit(cfg.executor, call.permit), call.attempts, call.upperMethod, reply)
    ensures CallInv(cfg, AfterReply(cfg, call, reply))
  {
    var replies := AfterReply(cfg, call, reply).replies;
    assert replies[|call.replies|] == Attempt(reply, false);
    assert forall i :: 0 <= i < |call.replies| ==> replies[i] == call.replies[i];
  }

  lemma LastReplyKeepsCall(cfg: Config, call: Call, reply: Reply)
    requires CallInv(cfg, call) && call.status.Waiting?
    requires !ShouldRetry(AttemptLimit(cfg.executor, call.permit), call.attempts, call.upperMethod, reply)
    ensures CallInv(cfg, AfterReply(cfg, call, reply))
  {
    var replies := AfterReply(cfg, call, reply).replies;
    assert replies[|call.replies|] == Attempt(reply, false);
    assert forall i :: 0 <= i < |call.replies| ==> replies[i] == call.replies[i];
  }

  lemma ReplyKeepsCall(cfg: Config, call: Call, reply: Reply)
    requires CallInv(cfg, call) && call.status.Waiting?
    ensures CallInv(cfg, AfterReply(cfg, call, reply))
  {
    if ShouldRetry(AttemptLimit(cfg.executor, call.permit), call.attempts, call.upperMethod, reply) {
      RetriedReplyKeepsCall(cfg, call, reply);
    } else {
      LastReplyKeepsCall(cfg, call, reply);
    }
  }

  lemma SleepKeepsCall(cfg: Config, call: Call)
    requires CallInv(cfg, call) && call.status.Sleeping?
    ensures CallInv(cfg, AfterSleep(call))
  {
  }

  lemma CancelKeepsCall(cfg: Config, call: Call)
    requires CallInv(cfg, call) && call.InFlight()
    ensures CallInv(cfg, AfterCancel(cfg, call))
  {
    if call.status.Waiting? {
      ReplyKeepsCall(cfg, call, CancelledInFlight);
    } else {
      var call', last := AfterCancel(cfg, call), |call.replies| - 1;
      assert call'.replies[last].cancelledInBackoff;
      assert forall i :: 0 <= i < last ==> call'.replies[i] == call.replies[i];
    }
  }

  // ---- What holds of all calls ------------------------------------------------------------

  function Completions(call: Call): multiset<Completion> {
    CompletionsOf(call.permit, call.recorded)
  }

  function CompletionsOf(permit: Permit, recorded: seq<Outcome>): multiset<Completion> {
    if recorded == [] then multiset{}
    else CompletionsOf(permit, recorded[..|recorded| - 1]) + multiset{Completion(permit, recorded[|recorded| - 1])}
  }

  /** All completions that the calls recorded. */
  function AllCompletions(calls: seq<Call>): multiset<Completion> {
    if calls == [] then multiset{} else AllCompletions(calls[..|calls| - 1]) + Completions(calls[|calls| - 1])
  }

  lemma Regroup(a: multiset<Completion>, b: multiset<Completion>, more: multiset<Completion>)
    ensures a + more + b == a + b + more == a + (b + more)
  {
  }

  lemma {:induction false} OneCallChanges(calls: seq<Call>, k: nat, call: Call, more: multiset<Completion>)
    requires k < |calls| && Completions(call) == Completions(calls[k]) + more
    ensures AllCompletions(calls[k := call]) == AllCompletions(calls) + more
  {
    var last, changed := |calls| - 1, calls[k := call];
    Regroup(AllCompletions(calls[..last]), Completions(calls[last]), more);
    if k == last {
      assert changed[..last] == calls[..last];
    } else {
      OneCallChanges(calls[..last], k, call, more);
      assert changed[..last] == calls[..last][k := call];
    }
  }

  /** Call k holds the k-th issued permit; a finished probe's permit is spent; and the breaker
      was told exactly the completions that the calls recorded. */
  ghost predicate CallsInv(cfg: Config, s: System) {
    && |s.calls| == |s.history.issued|
    && CallsFit(cfg, s.history, s.calls)
    && multiset(s.history.completions) == AllCompletions(s.calls)
  }

  ghost predicate CallsFit(cfg: Config, h: History, calls: seq<Call>) {
    forall k :: 0 <= k < |calls| ==> CallFits(cfg, h, k, calls[k])
  }

  ghost predicate CallFits(cfg: Config, h: History, k: nat, call: Call) {
    k < |h.issued| && call.permit == h.issued[k] && CallInv(cfg, call) && Spent(h, call)
  }

  predicate Spent(h: History, call: Call) {
    call.status.Finished? && call.permit.halfOpenProbe ==> call.permit.generation < h.circuit.generation
  }

  ghost predicate SystemInv(cfg: Config, s: System) {
    Inv(cfg.breaker, s.history) && CallsInv(cfg, s)
  }

  /** When one call changes, the others still fit. */
  lemma OtherCallsFit(cfg: Config, s: System, h: History, k: nat, call: Call)
    requires CallsInv(cfg, s) && k < |s.calls| && CallFits(cfg, h, k, call)
    requires h.issued == s.history.issued && s.history.circuit.generation <= h.circuit.generation
    ensures CallsFit(cfg, h, s.calls[k := call])
  {
    var calls := s.calls[k := call];
    forall i | 0 <= i < |calls|
      ensures CallFits(cfg, h, i, calls[i])
    {
      assert CallFits(cfg, s.history, i, s.calls[i]);
    }
  }

  /** Call k goes on without telling the breaker anything. */
  lemma GoingOnKeepsCalls(cfg: Config, s: System, k: nat, call: Call)
    requires CallsInv(cfg, s) && k < |s.calls|
    requires CallInv(cfg, call) && call.permit == s.calls[k].permit
    requires call.recorded == s.calls[k].recorded && !call.status.Finished?
    ensures CallsInv(cfg, System(s.history, s.calls[k := call]))
  {
    assert CallFits(cfg, s.history, k, s.calls[k]);
    OtherCallsFit(cfg, s, s.history, k, call);
    OneCallChanges(s.calls, k, call, multiset{});
  }

  /** Call k finishes with a step of the breaker that appends its completion and spends its permit. */
  lemma FinishKeepsCalls(cfg: Config, s: System, h: History, k: nat, call: Call, outcome: Outcome)
    requires CallsInv(cfg, s) && k < |s.calls|
    requires CallInv(cfg, call) && call.permit == s.calls[k].permit
    requires call.recorded == s.calls[k].recorded + [outcome]
    requires h.issued == s.history.issued && s.history.circuit.generation <= h.circuit.generation
    requires h.completions == s.history.completions + [Completion(call.permit, outcome)]
    requires call.permit.halfOpenProbe ==> call.permit.generation < h.circuit.generation
    ensures CallsInv(cfg, System(h, s.calls[k := call]))
  {
    assert CallFits(cfg, s.history, k, s.calls[k]);
    OtherCallsFit(cfg, s, h, k, call);
    assert call.recorded[..|call.recorded| - 1] == s.calls[k].recorded;
    OneCallChanges(s.calls, k, call, multiset{Completion(call.permit, outcome)});
  }

  /** `call` is what call k becomes in one of its steps. */
  ghost predicate Follows(cfg: Config, before: Call, call: Call) {
    && CallInv(cfg, call)
    && call.permit == before.permit
    && (if call.status.Finished? then exists outcome :: call.recorded == before.recorded + [outcome]
        else call.recorded == before.recorded)
  }

  lemma BecomingKeepsInv(cfg: Config, s: System, k: nat, call: Call)
    requires SystemInv(cfg, s) && k < |s.calls| && Follows(cfg, s.calls[k], call)
    ensures SystemInv(cfg, Becoming(cfg, s, k, call))
  {
    if call.status.Finished? {
      var outcome :| call.recorded == s.calls[k].recorded + [outcome];
      var h := Complete(cfg.breaker, s.history, call.permit, outcome);
      assert call.permit in s.history.issued by {
        assert s.history.issued[k] in s.history.issued;
      }
      CompletionSpendsProbe(cfg.breaker, s.history, call.permit, outcome);
      FinishKeepsCalls(cfg, s, h, k, call, outcome);
      CompleteKeepsInv(cfg.breaker, s.history, call.permit, outcome);
    } else {
      GoingOnKeepsCalls(cfg, s, k, call);
    }
  }

  lemma ReplyFollows(cfg: Config, call: Call, reply: Reply)
    requires CallInv(cfg, call) && call.status.Waiting?
    ensures Follows(cfg, call, AfterReply(cfg, call, reply))
  {
    ReplyKeepsCall(cfg, call, reply);
  }

  lemma SleepFollows(cfg: Config, call: Call)
    requires CallInv(cfg, call) && call.status.Sleeping?
    ensures Follows(cfg, call, AfterSleep(call))
  {
    SleepKeepsCall(cfg, call);
  }

  lemma CancelFollows(cfg: Config, call: Call)
    requires CallInv(cfg, call) && call.InFlight()
    ensures Follows(cfg, call, AfterCancel(cfg, call))
  {
    CancelKeepsCall(cfg, call);
  }

  lemma ArrivalKeepsCalls(cfg: Config, s: System, h: History, call: Call)
    requires CallsInv(cfg, s) && CallInv(cfg, call) && call.recorded == [] && !call.status.Finished?
    requires h.issued == s.history.issued + [call.permit] && h.completions == s.history.completions
    requires s.history.circuit.generation <= h.circuit.generation
    ensures CallsInv(cfg, System(h, s.calls + [call]))
  {
    var calls := s.calls + [call];
    assert calls[..|s.calls|] == s.calls;
    forall k | 0 <= k < |calls|
      ensures CallFits(cfg, h, k, calls[k])
    {
      assert k < |s.calls| ==> CallFits(cfg, s.history, k, s.calls[k]);
    }
  }

  lemma ArrivingKeepsInv(cfg: Config, s: System, upperMethod: string)
    requires SystemInv(cfg, s)
    ensures SystemInv(cfg, Arriving(cfg, s, upperMethod))
  {
    var answer := BeforeRequest(cfg.breaker, s.history.circuit, s.history.clock).1;
    if answer.Admitted? {
      ArrivalKeepsCalls(cfg, s, Admit(cfg.breaker, s.history), NewCall(answer.permit, upperMethod));
    }
    AdmitKeepsInv(cfg.breaker, s.history);
  }

  /** The step moves call k to `call`, or is not possible. */
  ghost predicate Moves(cfg: Config, s: System, k: nat, call: Call, step: Step) {
    Next(cfg, s, step) == s
    || (&& k < |s.calls| && !s.calls[k].status.Finished? && Follows(cfg, s.calls[k], call)
        && Next(cfg, s, step) == Becoming(cfg, s, k, call))
  }

  lemma ReplyMoves(cfg: Config, s: System, k: nat, reply: Reply) returns (call: Call)
    requires CallsFit(cfg, s.history, s.calls)
    ensures Moves(cfg, s, k, call, ReplyTo(k, reply))
  {
    call := NewCall(Permit(0, false), "");
    if k < |s.calls| && s.calls[k].status.Waiting? {
      assert CallFits(cfg, s.history, k, s.calls[k]);
      call := AfterReply(cfg, s.calls[k], reply);
      ReplyFollows(cfg, s.calls[k], reply);
    }
  }

  lemma WakeMoves(cfg: Config, s: System, k: nat) returns (call: Call)
    requires CallsFit(cfg, s.history, s.calls)
    ensures Moves(cfg, s, k, call, Wake(k))
  {
    call := NewCall(Permit(0, false), "");
    if k < |s.calls| && s.calls[k].status.Sleeping? {
      assert CallFits(cfg, s.history, k, s.calls[k]);
      call := AfterSleep(s.calls[k]);
      SleepFollows(cfg, s.calls[k]);
    }
  }

  lemma CancelMoves(cfg: Config, s: System, k: nat) returns (call: Call)
    requires CallsFit(cfg, s.history, s.calls)
    ensures Moves(cfg, s, k, call, Cancel(k))
  {
    call := NewCall(Permit(0, false), "");
    if k < |s.calls| && s.calls[k].InFlight() {
      assert CallFits(cfg, s.history, k, s.calls[k]);
      call := AfterCancel(cfg, s.calls[k]);
      CancelFollows(cfg, s.calls[k]);
    }
  }

  lemma MoveKeepsInv(cfg: Config, s: System, k: nat, call: Call, step: Step)
    requires SystemInv(cfg, s) && Moves(cfg, s, k, call, step)
    ensures SystemInv(cfg, Next(cfg, s, step))
  {
    if Next(cfg, s, step) != s {
      BecomingKeepsInv(cfg, s, k, call);
    }
  }

  lemma TimeKeepsInv(cfg: Config, s: System, now: real)
    requires SystemInv(cfg, s)
    ensures SystemInv(cfg, s.(history := Advance(s.history, now)))
  {
    AdvanceKeepsInv(cfg.breaker, s.history, now);
    assert forall k :: 0 <= k < |s.calls| ==> CallFits(cfg, s.history, k, s.calls[k]);
  }

  lemma NextKeepsInv(cfg: Config, s: System, step: Step)
    requires SystemInv(cfg, s)
    ensures SystemInv(cfg, Next(cfg, s, step))
  {
    match step
    case Arrive(upperMethod) => ArrivingKeepsInv(cfg, s, upperMethod);
    case TimePasses(now) => TimeKeepsInv(cfg, s, now);
    case Wake(k) => var call := WakeMoves(cfg, s, k); MoveKeepsInv(cfg, s, k, call, step);
    case Cancel(k) => var call := CancelMoves(cfg, s, k); MoveKeepsInv(cfg, s, k, call, step);
    case ReplyTo(k, reply) => var call := ReplyMoves(cfg, s, k, reply); MoveKeepsInv(cfg, s, k, call, step);
  }

  lemma {:induction false} RunKeepsInv(cfg: Config, s: System, steps: seq<Step>)
    requires SystemInv(cfg, s)
    ensures SystemInv(cfg, RunFrom(cfg, s, steps))
  {
    if steps != [] {
      RunKeepsInv(cfg, s, steps[..|steps| - 1]);
      NextKeepsInv(cfg, RunFrom(cfg, s, steps[..|steps| - 1]), steps[|steps| - 1]);
    }
  }

  /** What the calls do to the breaker is a run of the breaker, so whatever holds for all
      breaker runs holds under every interleaving of calls. */
  lemma {:induction false} HistoriesAreRuns(cfg: Config, steps: seq<Step>)
    ensures Reachable(cfg.breaker, Run(cfg, steps).history)
  {
    if steps == [] {
      assert Fresh == BreakerHistory.Run(cfg.breaker, []);
    } else {
      HistoriesAreRuns(cfg, steps[..|steps| - 1]);
      RunKeepsInv(cfg, Idle, steps[..|steps| - 1]);
      NextIsBreakerStep(cfg, Run(cfg, steps[..|steps| - 1]), steps[|steps| - 1]);
    }
  }

  lemma BecomingIsBreakerStep(cfg: Config, s: System, k: nat, call: Call)
    requires Reachable(cfg.breaker, s.history)
    requires k < |s.calls| == |s.history.issued| && call.permit == s.history.issued[k]
    ensures Reachable(cfg.breaker, Becoming(cfg, s, k, call).history)
  {
    if |call.recorded| > |s.calls[k].recorded| {
      StepKeepsReachable(cfg.breaker, s.history, CompleteIssued(k, call.recorded[|call.recorded| - 1]));
    }
  }

  lemma NextIsBreakerStep(cfg: Config, s: System, step: Step)
    requires Reachable(cfg.breaker, s.history) && CallsInv(cfg, s)
    ensures Reachable(cfg.breaker, Next(cfg, s, step).history)
  {
    match step
    case Arrive(_) => StepKeepsReachable(cfg.breaker, s.history, AdmitCall);
    case TimePasses(now) => StepKeepsReachable(cfg.breaker, s.history, ClockReaches(now));
    case Wake(k) => if k < |s.calls| { BecomingIsBreakerStep(cfg, s, k, AfterSleep(s.calls[k])); }
    case Cancel(k) => if k < |s.calls| { BecomingIsBreakerStep(cfg, s, k, AfterCancel(cfg, s.calls[k])); }
    case ReplyTo(k, reply) => if k < |s.calls| { BecomingIsBreakerStep(cfg, s, k, AfterReply(cfg, s.calls[k], reply)); }
  }

  // ---- What every interleaving promises ------------------------------------------------

  /** Under every interleaving: attempts stay within the limit (one for a probe), a call
      applies at most one completion, and a call that ended in a response, a transport
      error or a cancellation applied exactly one and left no probe of its own in flight.
      Those are all the completions the breaker was ever told, each one once. */
  lemma EveryCallCompletesOnce(cfg: Config, steps: seq<Step>, k: nat)
    requires k < |Run(cfg, steps).calls|
    ensures
      var s := Run(cfg, steps);
      var call := s.calls[k];
      && 1 <= call.attempts <= (if call.permit.halfOpenProbe then 1 else cfg.executor.maxAttempts)
      && |Completions(call)| == (if call.status.Finished? then 1 else 0)
      && (call.status.Finished? ==> call.permit != Permit(s.history.circuit.generation, true))
      && multiset(s.history.completions) == AllCompletions(s.calls)
  {
    RunKeepsInv(cfg, Idle, steps);
    CompletesOnce(cfg, Run(cfg, steps), k);
  }

  lemma CompletesOnce(cfg: Config, s: System, k: nat)
    requires Generations(s.history) && CallsInv(cfg, s) && k < |s.calls|
    ensures 1 <= s.calls[k].attempts <= AttemptLimit(cfg.executor, s.calls[k].permit)
    ensures |Completions(s.calls[k])| == if s.calls[k].status.Finished? then 1 else 0
    ensures s.calls[k].status.Finished? ==> s.calls[k].permit != Permit(s.history.circuit.generation, true)
  {
    var call := s.calls[k];
    assert CallFits(cfg, s.history, k, call);
    OneCompletionPerCall(cfg, call);
  }

  lemma OneCompletionPerCall(cfg: Config, call: Call)
    requires CallInv(cfg, call)
    ensures |Completions(call)| == if call.status.Finished? then 1 else 0
  {
    EachOutcomeOnce(call.permit, call.recorded);
  }

  lemma {:induction false} EachOutcomeOnce(permit: Permit, recorded: seq<Outcome>)
    ensures |CompletionsOf(permit, recorded)| == |recorded|
  {
    if recorded != [] {
      EachOutcomeOnce(permit, recorded[..|recorded| - 1]);
    }
  }

  function FinishedCalls(calls: seq<Call>): nat {
    if calls == [] then 0
    else FinishedCalls(calls[..|calls| - 1]) + if calls[|calls| - 1].status.Finished? then 1 else 0
  }

  lemma {:induction false} OneCompletionPerFinishedCall(cfg: Config, calls: seq<Call>)
    requires forall k :: 0 <= k < |calls| ==> CallInv(cfg, calls[k])
    ensures |AllCompletions(calls)| == FinishedCalls(calls)
  {
    if calls != [] {
      var last := calls[|calls| - 1];
      OneCompletionPerFinishedCall(cfg, calls[..|calls| - 1]);
      OneCompletionPerCall(cfg, last);
    }
  }

  /** The breaker was told as many completions as there are finished calls. */
  lemma CompletionsCountFinishedCalls(cfg: Config, steps: seq<Step>)
    ensures |Run(cfg, steps).history.completions| == FinishedCalls(Run(cfg, steps).calls)
  {
    RunKeepsInv(cfg, Idle, steps);
    var s := Run(cfg, steps);
    OneCompletionPerFinishedCall(cfg, s.calls);
    assert |multiset(s.history.completions)| == |s.history.completions|;
  }

  /** Every call that is over has the outline of a sequential run of `execute` on what its
      attempts met, whatever other calls did in between. */
  lemma OverCallsFollowOutline(cfg: Config, steps: seq<Step>, k: nat)
    requires k < |Run(cfg, steps).calls| && !Run(cfg, steps).calls[k].InFlight()
    ensures Outlined(cfg, Run(cfg, steps).calls[k])
    ensures Run(cfg, steps).calls[k].status.Crashed? <==> ResultOfCall(cfg, Run(cfg, steps).calls[k]).RaisedUnhandled?
  {
    RunKeepsInv(cfg, Idle, steps);
    assert CallFits(cfg, Run(cfg, steps).history, k, Run(cfg, steps).calls[k]);
  }

  /** Some call that has not finished holds a current-generation probe exactly while the
      circuit is HALF_OPEN, and no two calls ever hold the same probe permit. */
  lemma OneProbeAtATime(cfg: Config, steps: seq<Step>)
    ensures
      var s := Run(cfg, steps);
      && (s.history.circuit.state.HalfOpen? <==> exists k :: 0 <= k < |s.calls| && HoldsProbe(s, s.calls[k]))
      && (forall i, j :: 0 <= i < j < |s.calls| && s.calls[i].permit.halfOpenProbe ==>
                           s.calls[i].permit != s.calls[j].permit)
  {
    RunKeepsInv(cfg, Idle, steps);
    ProbesOf(cfg, Run(cfg, steps));
  }

  lemma ProbesOf(cfg: Config, s: System)
    requires Generations(s.history) && CallsInv(cfg, s)
    ensures s.history.circuit.state.HalfOpen? <==> exists k :: 0 <= k < |s.calls| && HoldsProbe(s, s.calls[k])
    ensures forall i, j :: 0 <= i < j < |s.calls| && s.calls[i].permit.halfOpenProbe ==>
                             s.calls[i].permit != s.calls[j].permit
  {
    if s.history.circuit.state.HalfOpen? {
      var k :| 0 <= k < |s.history.issued| && s.history.issued[k] == Permit(s.history.circuit.generation, true);
      assert Spent(s.history, s.calls[k]);
      assert HoldsProbe(s, s.calls[k]);
    }
    forall k | 0 <= k < |s.calls| && HoldsProbe(s, s.calls[k])
      ensures s.history.circuit.state.HalfOpen?
    {
      assert s.history.issued[k] in s.history.issued;
    }
  }

  predicate HoldsProbe(s: System, call: Call) {
    !call.status.Finished? && call.permit == Permit(s.history.circuit.generation, true)
  }

  // ---- Recovery, and the one way to lose it ---------------------------------------

  predicate NothingInFlight(s: System) {
    forall k :: 0 <= k < |s.calls| ==> !s.calls[k].InFlight()
  }

  /** The current probe died of an exception that neither handler of `execute` catches. */
  predicate Wedged(s: System) {
    exists k :: 0 <= k < |s.calls| && s.calls[k].status.Crashed? && HoldsProbe(s, s.calls[k])
  }

  /** With nothing in flight, a call is admitted once the recovery timeout has elapsed
      since the last opening, if and only if no crashed call holds the current probe. */
  lemma RecoversUnlessProbeCrashed(cfg: Config, steps: seq<Step>, now: real)
    requires NothingInFlight(Run(cfg, steps)) && TimeoutElapsed(cfg, Run(cfg, steps), now)
    ensures
      var s := Run(cfg, steps);
      BeforeRequest(cfg.breaker, s.history.circuit, now).1.Admitted? <==> !Wedged(s)
  {
    RunKeepsInv(cfg, Idle, steps);
    ProbesOf(cfg, Run(cfg, steps));
  }

  predicate TimeoutElapsed(cfg: Config, s: System, now: real) {
    s.history.circuit.openedAt.Some? ==> now >= s.history.circuit.openedAt.value + cfg.breaker.recoveryTimeout
  }

  /** In this run no exception outside the two handled kinds ends the request of a probe. */
  ghost predicate ProbesAnswered(cfg: Config, steps: seq<Step>) {
    steps == [] ||
    var init, last := steps[..|steps| - 1], steps[|steps| - 1];
    ProbesAnswered(cfg, init) && !CrashesProbe(Run(cfg, init), last)
  }

  predicate CrashesProbe(s: System, step: Step) {
    && step.ReplyTo? && step.reply.UnhandledException?
    && step.k < |s.calls| && s.calls[step.k].status.Waiting? && s.calls[step.k].permit.halfOpenProbe
  }

  predicate CrashedProbe(s: System, k: nat) {
    k < |s.calls| && s.calls[k].status.Crashed? && s.calls[k].permit.halfOpenProbe
  }

  lemma ProbeCrashesInStep(cfg: Config, s: System, step: Step, k: nat)
    requires CrashedProbe(Next(cfg, s, step), k)
    ensures CrashedProbe(s, k) || (CrashesProbe(s, step) && step.k == k)
  {
  }

  lemma CrashedProbeStays(cfg: Config, s: System, step: Step, k: nat)
    requires CrashedProbe(s, k) || (CrashesProbe(s, step) && step.k == k)
    ensures CrashedProbe(Next(cfg, s, step), k)
  {
  }

  lemma {:induction false} AnsweredProbesDoNotCrash(cfg: Config, steps: seq<Step>)
    ensures ProbesAnswered(cfg, steps) <==> forall k: nat :: !CrashedProbe(Run(cfg, steps), k)
  {
    if steps != [] {
      var init, last := steps[..|steps| - 1], steps[|steps| - 1];
      AnsweredProbesDoNotCrash(cfg, init);
      if ProbesAnswered(cfg, steps) {
        forall k: nat
          ensures !CrashedProbe(Run(cfg, steps), k)
        {
          if CrashedProbe(Run(cfg, steps), k) {
            ProbeCrashesInStep(cfg, Run(cfg, init), last, k);
          }
        }
      } else if CrashesProbe(Run(cfg, init), last) {
        CrashedProbeStays(cfg, Run(cfg, init), last, last.k);
        assert CrashedProbe(Run(cfg, steps), last.k);
      } else {
        var k: nat :| CrashedProbe(Run(cfg, init), k);
        CrashedProbeStays(cfg, Run(cfg, init), last, k);
        assert CrashedProbe(Run(cfg, steps), k);
      }
    }
  }

  // ---- Probes stay current until they complete ------------------------------------------

  ghost predicate ProbesCurrent(s: System) {
    forall k :: 0 <= k < |s.calls| && s.calls[k].permit.halfOpenProbe && !s.calls[k].status.Finished? ==>
                  s.calls[k].permit.generation == s.history.circuit.generation
  }

  lemma CurrentProbeMeansHalfOpen(cfg: Config, s: System, k: nat)
    requires Generations(s.history) && CallsInv(cfg, s) && ProbesCurrent(s)
    requires k < |s.calls| && s.calls[k].permit.halfOpenProbe && !s.calls[k].status.Finished?
    ensures s.history.circuit.state.HalfOpen?
  {
    assert CallFits(cfg, s.history, k, s.calls[k]);
    assert s.history.issued[k] in s.history.issued;
  }

  lemma ArrivalKeepsProbesCurrent(cfg: Config, s: System, upperMethod: string)
    requires SystemInv(cfg, s) && ProbesCurrent(s)
    ensures ProbesCurrent(Arriving(cfg, s, upperMethod))
  {
    var s' := Arriving(cfg, s, upperMethod);
    forall k | 0 <= k < |s.calls| && s.calls[k].permit.halfOpenProbe && !s.calls[k].status.Finished?
      ensures s'.history.circuit.generation == s.history.circuit.generation
    {
      CurrentProbeMeansHalfOpen(cfg, s, k);
    }
  }

  /** While a probe is unfinished no other call's completion starts a new generation. */
  lemma OthersKeepGeneration(cfg: Config, s: System, k: nat, i: nat, outcome: Outcome)
    requires Generations(s.history) && CallsInv(cfg, s) && ProbesCurrent(s)
    requires k < |s.calls| && s.calls[k].permit.halfOpenProbe && !s.calls[k].status.Finished?
    requires i < |s.calls| && i != k
    ensures Complete(cfg.breaker, s.history, s.calls[i].permit, outcome).circuit == s.history.circuit
  {
    CurrentProbeMeansHalfOpen(cfg, s, k);
    assert CallFits(cfg, s.history, k, s.calls[k]) && CallFits(cfg, s.history, i, s.calls[i]);
    assert s.history.issued[i] in s.history.issued;
    StaleCompletionIgnored(cfg.breaker, s.history, s.calls[i].permit, outcome);
  }

  lemma BecomingKeepsProbesCurrent(cfg: Config, s: System, i: nat, call: Call)
    requires SystemInv(cfg, s) && ProbesCurrent(s)
    requires i < |s.calls| && !s.calls[i].status.Finished? && Follows(cfg, s.calls[i], call)
    ensures ProbesCurrent(Becoming(cfg, s, i, call))
  {
    var s' := Becoming(cfg, s, i, call);
    forall k | 0 <= k < |s'.calls| && s'.calls[k].permit.halfOpenProbe && !s'.calls[k].status.Finished?
      ensures s'.calls[k].permit.generation == s'.history.circuit.generation
    {
      if k != i && |call.recorded| > |s.calls[i].recorded| {
        OthersKeepGeneration(cfg, s, k, i, call.recorded[|call.recorded| - 1]);
      }
    }
  }

  lemma MoveKeepsProbesCurrent(cfg: Config, s: System, k: nat, call: Call, step: Step)
    requires SystemInv(cfg, s) && ProbesCurrent(s) && Moves(cfg, s, k, call, step)
    ensures ProbesCurrent(Next(cfg, s, step))
  {
    if Next(cfg, s, step) != s {
      BecomingKeepsProbesCurrent(cfg, s, k, call);
    }
  }

  lemma NextKeepsProbesCurrent(cfg: Config, s: System, step: Step)
    requires SystemInv(cfg, s) && ProbesCurrent(s)
    ensures ProbesCurrent(Next(cfg, s, step))
  {
    match step
    case Arrive(upperMethod) => ArrivalKeepsProbesCurrent(cfg, s, upperMethod);
    case TimePasses(_) =>
    case Wake(k) => var call := WakeMoves(cfg, s, k); MoveKeepsProbesCurrent(cfg, s, k, call, step);
    case Cancel(k) => var call := CancelMoves(cfg, s, k); MoveKeepsProbesCurrent(cfg, s, k, call, step);
    case ReplyTo(k, reply) => var call := ReplyMoves(cfg, s, k, reply); MoveKeepsProbesCurrent(cfg, s, k, call, step);
  }

  /** No admitted probe becomes stale before its own completion. */
  lemma {:induction false} UnfinishedProbesAreCurrent(cfg: Config, steps: seq<Step>)
    ensures ProbesCurrent(Run(cfg, steps))
  {
    if steps != [] {
      UnfinishedProbesAreCurrent(cfg, steps[..|steps| - 1]);
      RunKeepsInv(cfg, Idle, steps[..|steps| - 1]);
      NextKeepsProbesCurrent(cfg, Run(cfg, steps[..|steps| - 1]), steps[|steps| - 1]);
    }
  }

  /** The breaker is wedged if and only if some step of the run let an exception outside the
      two handled kinds end the request of a probe. */
  lemma WedgedIffProbeUnanswered(cfg: Config, steps: seq<Step>)
    ensures Wedged(Run(cfg, steps)) <==> !ProbesAnswered(cfg, steps)
  {
    AnsweredProbesDoNotCrash(cfg, steps);
    UnfinishedProbesAreCurrent(cfg, steps);
    WedgedIffProbeCrashed(Run(cfg, steps));
  }

  lemma WedgedIffProbeCrashed(s: System)
    requires ProbesCurrent(s)
    ensures Wedged(s) <==> exists k: nat :: CrashedProbe(s, k)
  {
    forall k: nat | CrashedProbe(s, k)
      ensures Wedged(s)
    {
      assert HoldsProbe(s, s.calls[k]);
    }
    if Wedged(s) {
      var k :| 0 <= k < |s.calls| && s.calls[k].status.Crashed? && HoldsProbe(s, s.calls[k]);
      assert CrashedProbe(s, k);
    }
  }

  /** With nothing in flight, a call is admitted once the recovery timeout has elapsed if and
      only if every probe of the run ended in a response, an `httpx.RequestError` or a
      cancellation. */
  lemma RecoversIffProbesAnswered(cfg: Config, steps: seq<Step>, now: real)
    requires NothingInFlight(Run(cfg, steps)) && TimeoutElapsed(cfg, Run(cfg, steps), now)
    ensures BeforeRequest(cfg.breaker, Run(cfg, steps).history.circuit, now).1.Admitted? <==> ProbesAnswered(cfg, steps)
  {
    WedgedIffProbeUnanswered(cfg, steps);
    RecoversUnlessProbeCrashed(cfg, steps, now);
  }

  /** Nothing that call i does moves a breaker whose current probe is the crashed call k. */
  lemma StaleCallsMoveNothing(cfg: Config, s: System, k: nat, i: nat, call: Call)
    requires CallsInv(cfg, s) && Generations(s.history) && k < |s.calls| && HoldsProbe(s, s.calls[k])
    requires i < |s.calls| && i != k && call.permit == s.calls[i].permit
    ensures Becoming(cfg, s, i, call).history.circuit == s.history.circuit
    ensures Becoming(cfg, s, i, call).calls[k] == s.calls[k]
  {
    assert s.history.issued[i] in s.history.issued && s.history.issued[k] in s.history.issued;
    assert call.permit.generation != s.history.circuit.generation;
    if |call.recorded| > |s.calls[i].recorded| {
      StaleCompletionIgnored(cfg.breaker, s.history, call.permit, call.recorded[|call.recorded| - 1]);
    }
  }

  lemma WedgedRejects(cfg: Config, s: System, k: nat, now: real)
    requires Shape(cfg.breaker, s.history.circuit) && Generations(s.history) && CallsInv(cfg, s)
    requires k < |s.calls| && HoldsProbe(s, s.calls[k])
    ensures BeforeRequest(cfg.breaker, s.history.circuit, now).1 == Rejected(1)
  {
    assert s.history.issued[k] in s.history.issued;
  }

  lemma WedgedStays(cfg: Config, s: System, step: Step, k: nat)
    requires CallsInv(cfg, s) && Shape(cfg.breaker, s.history.circuit) && Generations(s.history)
    requires k < |s.calls| && s.calls[k].status.Crashed? && HoldsProbe(s, s.calls[k])
    ensures Next(cfg, s, step).history.circuit == s.history.circuit
    ensures |Next(cfg, s, step).calls| == |s.calls| && Next(cfg, s, step).calls[k] == s.calls[k]
  {
    match step
    case Arrive(_) => WedgedRejects(cfg, s, k, s.history.clock);
    case TimePasses(_) =>
    case ReplyTo(i, reply) =>
      if i < |s.calls| && i != k { StaleCallsMoveNothing(cfg, s, k, i, AfterReply(cfg, s.calls[i], reply)); }
    case Wake(i) =>
      if i < |s.calls| && i != k { StaleCallsMoveNothing(cfg, s, k, i, AfterSleep(s.calls[i])); }
    case Cancel(i) =>
      if i < |s.calls| && i != k { StaleCallsMoveNothing(cfg, s, k, i, AfterCancel(cfg, s.calls[i])); }
  }

  lemma {:induction false} StaysWedged(cfg: Config, s: System, steps: seq<Step>, k: nat)
    requires SystemInv(cfg, s)
    requires k < |s.calls| && s.calls[k].status.Crashed? && HoldsProbe(s, s.calls[k])
    ensures
      var s' := RunFrom(cfg, s, steps);
      && s'.history.circuit == s.history.circuit
      && |s'.calls| == |s.calls|
      && s'.calls[k] == s.calls[k]
  {
    if steps != [] {
      var init := steps[..|steps| - 1];
      StaysWedged(cfg, s, init, k);
      RunKeepsInv(cfg, s, init);
      WedgedStays(cfg, RunFrom(cfg, s, init), steps[|steps| - 1], k);
    }
  }

  /** A wedged breaker admits no call in any continuation and never changes again. */
  lemma WedgedForever(cfg: Config, s: System, steps: seq<Step>)
    requires SystemInv(cfg, s) && Wedged(s)
    ensures
      var s' := RunFrom(cfg, s, steps);
      && Wedged(s')
      && s'.history.circuit == s.history.circuit
      && |s'.calls| == |s.calls|
      && forall now :: BeforeRequest(cfg.breaker, s'.history.circuit, now).1.Rejected?
  {
    var k :| 0 <= k < |s.calls| && s.calls[k].status.Crashed? && HoldsProbe(s, s.calls[k]);
    StaysWedged(cfg, s, steps, k);
    forall now {
      WedgedRejects(cfg, s, k, now);
    }
  }

  /** A call that arrives at a CLOSED circuit and gets a 500. */
  lemma FailingCall(cfg: Config, steps: seq<Step>) returns (more: seq<Step>)
    requires Run(cfg, steps).history.circuit.state.Closed?
    ensures
      var s, s' := Run(cfg, steps), Run(cfg, more);
      && s'.history.clock == s.history.clock
      && |s'.calls| == |s.calls| + 1
      && var permit := Permit(s.history.circuit.generation, false);
         s'.history.circuit == RecordFailure(cfg.breaker, s.history.circuit, permit, s.history.clock).0
  {
    var k := |Run(cfg, steps).calls|;
    RunSnoc(cfg, Idle, steps, Arrive("GET"));
    RunSnoc(cfg, Idle, steps + [Arrive("GET")], ReplyTo(k, Response(500)));
    more := steps + [Arrive("GET")] + [ReplyTo(k, Response(500))];
  }

  lemma {:induction false} FailingRun(cfg: Config, n: nat) returns (steps: seq<Step>)
    requires n <= cfg.breaker.failureThreshold
    ensures
      var s := Run(cfg, steps);
      && s.history.clock == 0.0 && |s.calls| == n
      && s.history.circuit == if n < cfg.breaker.failureThreshold then Circuit(Closed, n, None, false, 0)
                              else Circuit(Open, n, Some(0.0), false, 1)
  {
    if n == 0 {
      steps := [];
    } else {
      var before := FailingRun(cfg, n - 1);
      steps := FailingCall(cfg, before);
    }
  }

  /** The wedge is reachable under all settings: 500s open the circuit, and the probe
      after the timeout meets an exception that is not an `httpx.RequestError`. */
  lemma WedgeIsReachable(cfg: Config) returns (steps: seq<Step>)
    ensures Wedged(Run(cfg, steps))
  {
    var n := cfg.breaker.failureThreshold;
    steps := FailingRun(cfg, n);
    RunSnoc(cfg, Idle, steps, TimePasses(cfg.breaker.recoveryTimeout));
    steps := steps + [TimePasses(cfg.breaker.recoveryTimeout)];
    RunSnoc(cfg, Idle, steps, Arrive("GET"));
    steps := steps + [Arrive("GET")];
    RunSnoc(cfg, Idle, steps, ReplyTo(n, UnhandledException));
    assert Run(cfg, steps).calls[n] == NewCall(Permit(2, true), "GET");
    steps := steps + [ReplyTo(n, UnhandledException)];
    assert Run(cfg, steps).calls[n].status.Crashed?;
  }
}
