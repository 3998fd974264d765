/**
 One breaker with the history of everything that happened to it, and what holds
 after every run: any number of admissions, completions of issued permits in any
 order (late, or more than once), and any passing of time.
 */
module BreakerHistory {
  import opened Common
  import opened CircuitBreaker
  import opened Spacing

  datatype Completion = Completion(permit: Permit, outcome: Outcome)

  /** `issued` lists the permits handed out; `opens` and `probes` the instants of the
      transitions to OPEN and of the probe admissions. */
  datatype History = History(
    circuit: Circuit,
    clock: real,
    issued: seq<Permit>,
    completions: seq<Completion>,
    opens: seq<real>,
    probes: seq<real>,
    events: seq<Event>)

  const Fresh := History(Initial, 0.0, [], [], [], [], [])

  /** Bookkeeping of one admission, whatever breaker answered it. */
  function Admitting(h: History, answer: (Circuit, Admission)): History {
    if answer.1.Rejected? then h.(circuit := answer.0)
    else h.(
      circuit := answer.0,
      issued := h.issued + [answer.1.permit],
      probes := if answer.1.permit.halfOpenProbe then h.probes + [h.clock] else h.probes)
  }

  /** Bookkeeping of one completion: a true answer is reported as recovered when it is
      `record_success` that gave it, and as opened otherwise. */
  function Completing(h: History, permit: Permit, outcome: Outcome, answer: (Circuit, bool)): History {
    h.(
      circuit := answer.0,
      completions := h.completions + [Completion(permit, outcome)],
      opens := if answer.0.state.Open? && !h.circuit.state.Open? then h.opens + [h.clock] else h.opens,
      events := if !answer.1 then h.events
                else h.events + [if outcome.Success? then CircuitRecovered else CircuitOpened])
  }

  function Admit(cfg: Settings, h: History): History {
    Admitting(h, BeforeRequest(cfg, h.circuit, h.clock))
  }

  function Complete(cfg: Settings, h: History, permit: Permit, outcome: Outcome): History {
    Completing(h, permit, outcome, Record(cfg, h.circuit, permit, outcome, h.clock))
  }

  /** The monotonic clock never moves back. */
  function Advance(h: History, now: real): History {
    h.(clock := MaxReal(h.clock, now))
  }

  /** `CompleteIssued(i, _)` finishes the call that holds the i-th permit. */
  datatype Op = AdmitCall | CompleteIssued(i: nat, outcome: Outcome) | ClockReaches(now: real)

  function Step(cfg: Settings, h: History, op: Op): History {
    match op
    case AdmitCall => Admit(cfg, h)
    case CompleteIssued(i, outcome) => if i < |h.issued| then Complete(cfg, h, h.issued[i], outcome) else h
    case ClockReaches(now) => Advance(h, now)
  }

  function RunFrom(cfg: Settings, h: History, ops: seq<Op>): History {
    if ops == [] then h else Step(cfg, RunFrom(cfg, h, ops[..|ops| - 1]), ops[|ops| - 1])
  }

  function Run(cfg: Settings, ops: seq<Op>): History { RunFrom(cfg, Fresh, ops) }

  /** Length of the trailing run of failures among the success and failure completions
      of ordinary permits of this generation. */
  function TrailingFailures(log: seq<Completion>, generation: int): nat {
    if log == [] then 0
    else
      var last, init := log[|log| - 1], log[..|log| - 1];
      if last.permit != Permit(generation, false) || last.outcome.Neutral? then TrailingFailures(init, generation)
      else if last.outcome.Success? then 0
      else TrailingFailures(init, generation) + 1
  }

  // ---- The invariant ------------------------------------------------------------

  predicate Shape(cfg: Settings, c: Circuit) {
    && (c.probeInFlight <==> c.state.HalfOpen?)
    && (c.openedAt.Some? <==> !c.state.Closed?)
    && (if c.state.Closed? then 0 <= c.consecutiveFailures < cfg.failureThreshold
        else c.consecutiveFailures == cfg.failureThreshold)
  }

  /** A permit of the current generation tells the state it was issued in. */
  ghost predicate Generations(h: History) {
    && (forall p <- h.issued :: p.generation <= h.circuit.generation)
    && (forall p <- h.issued :: p.generation == h.circuit.generation ==>
                                  h.circuit.state == if p.halfOpenProbe then HalfOpen else Closed)
    && (forall i, j :: 0 <= i < j < |h.issued| && h.issued[i].halfOpenProbe && h.issued[j].halfOpenProbe ==>
                         h.issued[i].generation < h.issued[j].generation)
    && (h.circuit.state.HalfOpen? ==> Permit(h.circuit.generation, true) in h.issued)
  }

  ghost predicate Counter(h: History) {
    && (forall e <- h.completions :: e.permit in h.issued)
    && (h.circuit.state.Closed? ==>
          h.circuit.consecutiveFailures == TrailingFailures(h.completions, h.circuit.generation))
  }

  /** Every opening and every probe admission is separated from the next one by a
      probe admission, respectively an opening, that waited for the recovery timeout. */
  ghost predicate Timing(cfg: Settings, h: History) {
    && Spaced(h.opens, cfg.recoveryTimeout)
    && Spaced(h.probes, cfg.recoveryTimeout)
    && (h.opens != [] ==> h.opens[|h.opens| - 1] <= h.clock)
    && (h.probes != [] ==> h.probes[|h.probes| - 1] <= h.clock)
    && (h.circuit.openedAt.Some? ==> h.opens != [] && h.circuit.openedAt.value == h.opens[|h.opens| - 1])
    && (if h.circuit.state.Open? then
          h.opens != [] && (h.probes != [] ==> h.probes[|h.probes| - 1] <= h.opens[|h.opens| - 1])
        else
          h.opens != [] ==>
            h.probes != [] && h.opens[|h.opens| - 1] + cfg.recoveryTimeout <= h.probes[|h.probes| - 1])
  }

  predicate EventsTellState(h: History) {
    !h.circuit.state.Closed? <==> h.events != [] && h.events[|h.events| - 1].CircuitOpened?
  }

  ghost predicate Inv(cfg: Settings, h: History) {
    Shape(cfg, h.circuit) && Generations(h) && Counter(h) && Timing(cfg, h) && EventsTellState(h)
  }

  /** No completion carries a generation that has not been issued yet. */
  lemma {:induction false} NoCompletionsYet(log: seq<Completion>, generation: int)
    requires forall e <- log :: e.permit.generation < generation
    ensures TrailingFailures(log, generation) == 0
  {
    if log != [] {
      assert log[|log| - 1] in log;
      NoCompletionsYet(log[..|log| - 1], generation);
    }
  }

  lemma AdmitKeepsGenerations(cfg: Settings, h: History)
    requires Shape(cfg, h.circuit) && Generations(h)
    ensures Shape(cfg, Admit(cfg, h).circuit) && Generations(Admit(cfg, h))
  {
    var h' := Admit(cfg, h);
    assert forall p <- h'.issued :: p in h.issued || p == h'.issued[|h'.issued| - 1];
    if h.circuit.state.Open? && h'.circuit != h.circuit {
      assert h'.issued == h.issued + [Permit(h'.circuit.generation, true)];
    }
  }

  lemma AdmitKeepsTiming(cfg: Settings, h: History)
    requires Shape(cfg, h.circuit) && Timing(cfg, h)
    ensures Timing(cfg, Admit(cfg, h))
  {
  }

  lemma AdmitKeepsInv(cfg: Settings, h: History)
    requires Inv(cfg, h)
    ensures Inv(cfg, Admit(cfg, h))
  {
    AdmitKeepsGenerations(cfg, h);
    AdmitKeepsTiming(cfg, h);
    assert Counter(Admit(cfg, h)) by {
      assert forall e <- h.completions :: e.permit in Admit(cfg, h).issued;
    }
  }

  lemma CompleteKeepsGenerations(cfg: Settings, h: History, permit: Permit, outcome: Outcome)
    requires Shape(cfg, h.circuit) && Generations(h) && permit in h.issued
    ensures Shape(cfg, Complete(cfg, h, permit, outcome).circuit)
    ensures Generations(Complete(cfg, h, permit, outcome))
  {
  }

  lemma CompleteKeepsCounter(cfg: Settings, h: History, permit: Permit, outcome: Outcome)
    requires Shape(cfg, h.circuit) && Generations(h) && Counter(h) && permit in h.issued
    ensures Counter(Complete(cfg, h, permit, outcome))
  {
    var h' := Complete(cfg, h, permit, outcome);
    assert h'.completions[..|h'.completions| - 1] == h.completions;
    if h'.circuit.state.Closed? && h'.circuit.generation != h.circuit.generation {
      NoCompletionsYet(h'.completions, h'.circuit.generation);
    }
  }

  lemma CompleteKeepsTiming(cfg: Settings, h: History, permit: Permit, outcome: Outcome)
    requires Shape(cfg, h.circuit) && Timing(cfg, h)
    ensures Timing(cfg, Complete(cfg, h, permit, outcome))
  {
  }

  lemma CompleteKeepsEvents(cfg: Settings, h: History, permit: Permit, outcome: Outcome)
    requires Shape(cfg, h.circuit) && Generations(h) && EventsTellState(h) && permit in h.issued
    ensures EventsTellState(Complete(cfg, h, permit, outcome))
  {
  }

  lemma CompleteKeepsInv(cfg: Settings, h: History, permit: Permit, outcome: Outcome)
    requires Inv(cfg, h) && permit in h.issued
    ensures Inv(cfg, Complete(cfg, h, permit, outcome))
  {
    CompleteKeepsGenerations(cfg, h, permit, outcome);
    CompleteKeepsCounter(cfg, h, permit, outcome);
    CompleteKeepsTiming(cfg, h, permit, outcome);
    CompleteKeepsEvents(cfg, h, permit, outcome);
  }

  lemma AdvanceKeepsInv(cfg: Settings, h: History, now: real)
    requires Inv(cfg, h)
    ensures Inv(cfg, Advance(h, now))
  {
  }

  lemma StepKeepsInv(cfg: Settings, h: History, op: Op)
    requires Inv(cfg, h)
    ensures Inv(cfg, Step(cfg, h, op))
  {
    match op
    case AdmitCall => AdmitKeepsInv(cfg, h);
    case CompleteIssued(i, outcome) => if i < |h.issued| { CompleteKeepsInv(cfg, h, h.issued[i], outcome); }
    case ClockReaches(now) => AdvanceKeepsInv(cfg, h, now);
  }

  lemma {:induction false} RunKeepsInv(cfg: Settings, h: History, ops: seq<Op>)
    requires Inv(cfg, h)
    ensures Inv(cfg, RunFrom(cfg, h, ops))
  {
    if ops != [] {
      RunKeepsInv(cfg, h, ops[..|ops| - 1]);
      StepKeepsInv(cfg, RunFrom(cfg, h, ops[..|ops| - 1]), ops[|ops| - 1]);
    }
  }

  /** Generations never go back, and completing a probe permit leaves it behind. */
  lemma CompletionSpendsProbe(cfg: Settings, h: History, permit: Permit, outcome: Outcome)
    requires Inv(cfg, h) && permit in h.issued
    ensures
      var h' := Complete(cfg, h, permit, outcome);
      && h'.issued == h.issued
      && h.circuit.generation <= h'.circuit.generation
      && (permit.halfOpenProbe ==> permit.generation < h'.circuit.generation)
  {
    LeanAnswersAgree(cfg, h, permit, outcome);
  }

  /** A completion that carries an older generation changes nothing and reports nothing. */
  lemma StaleCompletionIgnored(cfg: Settings, h: History, permit: Permit, outcome: Outcome)
    requires permit.generation != h.circuit.generation
    ensures Complete(cfg, h, permit, outcome) == h.(completions := h.completions + [Completion(permit, outcome)])
  {
  }

  // ---- Histories of runs -------------------------------------------------------------

  ghost predicate Reachable(cfg: Settings, h: History) {
    exists ops :: h == Run(cfg, ops)
  }

  lemma ReachableInv(cfg: Settings, h: History)
    requires Reachable(cfg, h)
    ensures Inv(cfg, h)
  {
    var ops :| h == Run(cfg, ops);
    RunKeepsInv(cfg, Fresh, ops);
  }

  lemma StepKeepsReachable(cfg: Settings, h: History, op: Op)
    requires Reachable(cfg, h)
    ensures Reachable(cfg, Step(cfg, h, op))
  {
    var ops :| h == Run(cfg, ops);
    assert (ops + [op])[..|ops|] == ops;
    assert Step(cfg, h, op) == Run(cfg, ops + [op]);
  }

  /** What the breaker needs to know about a permit it issued: it is not from the future,
      and if it is current then its kind tells the state. */
  lemma IssuedPermit(cfg: Settings, h: History, permit: Permit)
    requires Reachable(cfg, h)
    ensures Shape(cfg, h.circuit)
    ensures permit in h.issued ==>
              && permit.generation <= h.circuit.generation
              && (permit.generation == h.circuit.generation ==>
                    h.circuit.state == if permit.halfOpenProbe then HalfOpen else Closed)
  {
    ReachableInv(cfg, h);
  }

  lemma AdmitReachable(cfg: Settings, h: History, now: real)
    requires Reachable(cfg, h)
    ensures Reachable(cfg, Admit(cfg, Advance(h, now)))
  {
    StepKeepsReachable(cfg, h, ClockReaches(now));
    StepKeepsReachable(cfg, Advance(h, now), AdmitCall);
  }

  lemma CompleteReachable(cfg: Settings, h: History, now: real, permit: Permit, outcome: Outcome)
    requires Reachable(cfg, h) && permit in h.issued
    ensures Reachable(cfg, Complete(cfg, Advance(h, now), permit, outcome))
  {
    var i :| 0 <= i < |h.issued| && h.issued[i] == permit;
    StepKeepsReachable(cfg, h, ClockReaches(now));
    StepKeepsReachable(cfg, Advance(h, now), CompleteIssued(i, outcome));
  }

  // ---- What may happen between two moments of one call -------------------------------

  /** Some operations lead from `h` to `later`. */
  ghost predicate Onward(cfg: Settings, h: History, later: History) {
    exists ops :: later == RunFrom(cfg, h, ops)
  }

  lemma {:induction false} RunConcat(cfg: Settings, h: History, a: seq<Op>, b: seq<Op>)
    ensures RunFrom(cfg, h, a + b) == RunFrom(cfg, RunFrom(cfg, h, a), b)
  {
    if b == [] {
      assert a + b == a;
    } else {
      RunConcat(cfg, h, a, b[..|b| - 1]);
      assert (a + b)[..|a + b| - 1] == a + b[..|b| - 1];
    }
  }

  lemma OnwardTransitive(cfg: Settings, h: History, later: History, last: History)
    requires Onward(cfg, h, later) && Onward(cfg, later, last)
    ensures Onward(cfg, h, last)
  {
    var a :| later == RunFrom(cfg, h, a);
    var b :| last == RunFrom(cfg, later, b);
    RunConcat(cfg, h, a, b);
  }

  lemma StepIsOnward(cfg: Settings, h: History, op: Op)
    ensures Onward(cfg, h, h) && Onward(cfg, h, Step(cfg, h, op))
  {
    assert h == RunFrom(cfg, h, []);
    assert [op][..0] == [];
    assert Step(cfg, h, op) == RunFrom(cfg, h, [op]);
  }

  lemma OnwardReachable(cfg: Settings, h: History, now: real, later: History)
    requires Reachable(cfg, h) && Onward(cfg, Advance(h, now), later)
    ensures Reachable(cfg, later)
  {
    StepKeepsReachable(cfg, h, ClockReaches(now));
    var a :| Advance(h, now) == Run(cfg, a);
    var b :| later == RunFrom(cfg, Advance(h, now), b);
    RunConcat(cfg, Fresh, a, b);
    assert later == Run(cfg, a + b);
  }

  lemma {:induction false} RunGrows(cfg: Settings, h: History, ops: seq<Op>)
    ensures
      var h' := RunFrom(cfg, h, ops);
      h.issued <= h'.issued && h.completions <= h'.completions && h.clock <= h'.clock
  {
    if ops != [] {
      RunGrows(cfg, h, ops[..|ops| - 1]);
    }
  }

  /** Permits and completions are never forgotten, and the clock does not go back. */
  lemma OnwardGrows(cfg: Settings, h: History, later: History)
    requires Onward(cfg, h, later)
    ensures h.issued <= later.issued && h.completions <= later.completions && h.clock <= later.clock
  {
    var ops :| later == RunFrom(cfg, h, ops);
    RunGrows(cfg, h, ops);
  }

  // ---- What every run promises -----------------------------------------------------

  /** Only a HALF_OPEN circuit has a current-generation probe, and it has exactly one;
      current-generation ordinary permits exist only while the circuit is CLOSED. */
  lemma GenerationSafety(cfg: Settings, ops: seq<Op>)
    ensures
      var h := Run(cfg, ops);
      var current := h.circuit.generation;
      && (forall p <- h.issued :: p.generation <= current)
      && (Permit(current, true) in h.issued <==> h.circuit.state.HalfOpen?)
      && (Permit(current, false) in h.issued ==> h.circuit.state.Closed?)
      && (forall i, j :: 0 <= i < j < |h.issued| && h.issued[i] == h.issued[j] ==> !h.issued[i].halfOpenProbe)
  {
    RunKeepsInv(cfg, Fresh, ops);
  }

  function LeanStep(cfg: Settings, h: History, op: Op): History {
    match op
    case AdmitCall => Admitting(h, LeanBeforeRequest(cfg, h.circuit, h.clock))
    case CompleteIssued(i, outcome) =>
      if i < |h.issued| then
        Completing(h, h.issued[i], outcome, LeanRecord(cfg, h.circuit, h.issued[i], outcome, h.clock))
      else h
    case ClockReaches(now) => Advance(h, now)
  }

  function LeanRun(cfg: Settings, ops: seq<Op>): History {
    if ops == [] then Fresh else LeanStep(cfg, LeanRun(cfg, ops[..|ops| - 1]), ops[|ops| - 1])
  }

  /** For issued permits the guards decide nothing: both breakers give the same answers. */
  lemma LeanAnswersAgree(cfg: Settings, h: History, permit: Permit, outcome: Outcome)
    requires Inv(cfg, h)
    ensures LeanBeforeRequest(cfg, h.circuit, h.clock) == BeforeRequest(cfg, h.circuit, h.clock)
    ensures permit in h.issued ==>
              LeanRecord(cfg, h.circuit, permit, outcome, h.clock) == Record(cfg, h.circuit, permit, outcome, h.clock)
  {
  }

  /** The breaker without state guards and without the second probe branch runs in lock step. */
  lemma {:induction false} GuardsAreRedundant(cfg: Settings, ops: seq<Op>)
    ensures LeanRun(cfg, ops) == Run(cfg, ops)
  {
    if ops != [] {
      var init, last := ops[..|ops| - 1], ops[|ops| - 1];
      GuardsAreRedundant(cfg, init);
      RunKeepsInv(cfg, Fresh, init);
      var h := Run(cfg, init);
      if last.CompleteIssued? && last.i < |h.issued| {
        LeanAnswersAgree(cfg, h, h.issued[last.i], last.outcome);
      } else {
        LeanAnswersAgree(cfg, h, Permit(0, false), Success);
      }
    }
  }

  /** While CLOSED the counter is the trailing failure run of the current generation;
      otherwise it is the threshold. */
  lemma CounterRefinesLog(cfg: Settings, ops: seq<Op>)
    ensures
      var h := Run(cfg, ops);
      h.circuit.consecutiveFailures ==
      if h.circuit.state.Closed? then TrailingFailures(h.completions, h.circuit.generation)
      else cfg.failureThreshold
  {
    RunKeepsInv(cfg, Fresh, ops);
  }

  /** An ordinary completion opens the circuit exactly when it is a current-generation
      failure with which the trailing run reaches the threshold. */
  lemma TripsExactlyAtThreshold(cfg: Settings, ops: seq<Op>, i: nat, outcome: Outcome)
    requires i < |Run(cfg, ops).issued| && !Run(cfg, ops).issued[i].halfOpenProbe
    ensures
      var h := Run(cfg, ops);
      var h' := Complete(cfg, h, h.issued[i], outcome);
      h'.circuit.state.Open? && !h.circuit.state.Open?
      <==> && outcome.Failure?
           && h.issued[i].generation == h.circuit.generation
           && TrailingFailures(h'.completions, h.circuit.generation) == cfg.failureThreshold
  {
    RunKeepsInv(cfg, Fresh, ops);
    var h := Run(cfg, ops);
    var h' := Complete(cfg, h, h.issued[i], outcome);
    assert h'.completions[..|h'.completions| - 1] == h.completions;
  }

  /** No window holds more openings, or more probe admissions, than recovery timeouts plus one. */
  lemma OpeningsAndProbesAreSpaced(cfg: Settings, ops: seq<Op>, lo: real, hi: real)
    requires lo <= hi
    ensures
      var h := Run(cfg, ops);
      && Spaced(h.opens, cfg.recoveryTimeout)
      && Spaced(h.probes, cfg.recoveryTimeout)
      && CountWithin(h.opens, lo, hi) <= ((hi - lo) / cfg.recoveryTimeout).Floor + 1
      && CountWithin(h.probes, lo, hi) <= ((hi - lo) / cfg.recoveryTimeout).Floor + 1
  {
    RunKeepsInv(cfg, Fresh, ops);
    WindowBound(Run(cfg, ops).opens, cfg.recoveryTimeout, lo, hi);
    WindowBound(Run(cfg, ops).probes, cfg.recoveryTimeout, lo, hi);
  }

  /** What one step of any run logs: an opening is reported exactly when the circuit becomes
      OPEN, a recovery exactly when it becomes CLOSED, each once and with its instant, and a
      probe exactly when it becomes HALF_OPEN. */
  lemma StepLogsTransitions(cfg: Settings, ops: seq<Op>, op: Op)
    ensures
      var h, h' := Run(cfg, ops), Step(cfg, Run(cfg, ops), op);
      var nowOpen := h'.circuit.state.Open? && !h.circuit.state.Open?;
      var nowClosed := h'.circuit.state.Closed? && !h.circuit.state.Closed?;
      var nowHalfOpen := h'.circuit.state.HalfOpen? && !h.circuit.state.HalfOpen?;
      && h'.events == h.events + (if nowOpen then [CircuitOpened] else if nowClosed then [CircuitRecovered] else [])
      && h'.opens == h.opens + (if nowOpen then [h.clock] else [])
      && h'.probes == h.probes + (if nowHalfOpen then [h.clock] else [])
  {
    RunKeepsInv(cfg, Fresh, ops);
    var h := Run(cfg, ops);
    if op.CompleteIssued? && op.i < |h.issued| {
      CompletionLogsTransitions(cfg, h, h.issued[op.i], op.outcome);
    }
  }

  lemma CompletionLogsTransitions(cfg: Settings, h: History, permit: Permit, outcome: Outcome)
    requires Inv(cfg, h) && permit in h.issued
    ensures
      var h' := Complete(cfg, h, permit, outcome);
      var nowOpen := h'.circuit.state.Open? && !h.circuit.state.Open?;
      var nowClosed := h'.circuit.state.Closed? && !h.circuit.state.Closed?;
      && h'.events == h.events + (if nowOpen then [CircuitOpened] else if nowClosed then [CircuitRecovered] else [])
      && (h'.circuit.state.HalfOpen? ==> h.circuit.state.HalfOpen?)
  {
    LeanAnswersAgree(cfg, h, permit, outcome);
  }

  /** The last reported transition tells whether the circuit is CLOSED. */
  lemma EventsReplayState(cfg: Settings, ops: seq<Op>)
    ensures EventsTellState(Run(cfg, ops))
  {
    RunKeepsInv(cfg, Fresh, ops);
  }
}
