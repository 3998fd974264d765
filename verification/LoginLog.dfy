/**
 The account's record refines a plain log of failures: a log entry is a failure that was
 counted, marked if it reached the threshold, or a reset. Everything a script answers can
 be read off that log.
 */
module LoginLog {
  import opened Common
  import opened LoginScripts

  datatype Entry = Fail(at: nat, tripped: bool) | Cleared(at: nat)

  datatype Op = Check | Failure | Reset

  /** One script call; `drop` is Redis's choice about a lock that has ended. */
  datatype Call = Call(op: Op, now: nat, drop: bool)

  // ---- The log ------------------------------------------------------------------------

  /** The last entry is a threshold-reaching failure whose lock is still running. */
  predicate Locked(p: Policy, log: seq<Entry>, now: int) {
    log != [] && var last := log[|log| - 1]; last.Fail? && last.tripped && now < last.at + 1000 * p.lockoutSeconds
  }

  /** An entry stays in force for the lockout or for the failure window. */
  predicate InForce(p: Policy, e: Entry, now: int) {
    e.Fail? && if e.tripped then now < e.at + 1000 * p.lockoutSeconds else now <= e.at + 1000 * p.failureWindowSeconds
  }

  /** Failures counted up to `now` since the latest reset, lock end or idle gap. */
  function LiveCount(p: Policy, log: seq<Entry>, now: int): nat {
    if log == [] || !InForce(p, log[|log| - 1], now) then 0
    else LiveCount(p, log[..|log| - 1], log[|log| - 1].at) + 1
  }

  function Observe(p: Policy, log: seq<Entry>, op: Op, now: nat): seq<Entry> {
    match op
    case Check => log
    case Reset => log + [Cleared(now)]
    case Failure =>
      if Locked(p, log, now) then log
      else log + [Fail(now, LiveCount(p, log, now) + 1 >= p.failureThreshold)]
  }

  /** The answer that the log gives to a lock check or a failure. */
  function LogReply(p: Policy, log: seq<Entry>, op: Op, now: nat): Reply
    requires !op.Reset?
  {
    if Locked(p, log, now) then
      Reply(1, LiveCount(p, log, now), log[|log| - 1].at + 1000 * p.lockoutSeconds - now)
    else if op.Failure? then
      var failures := LiveCount(p, log, now) + 1;
      if failures >= p.failureThreshold then Reply(1, failures, 1000 * p.lockoutSeconds) else Reply(0, failures, 0)
    else
      Reply(0, LiveCount(p, log, now), 0)
  }

  lemma ObserveAppends(p: Policy, log: seq<Entry>, op: Op, now: nat)
    ensures
      var log' := Observe(p, log, op, now);
      log' == log || (log' == log + [log'[|log|]] && log'[|log|].at == now)
  {
  }

  // ---- The stored record ----------------------------------------------------------------

  function Step(p: Policy, record: Option<Record>, c: Call): Option<Record> {
    var live := Live(record, c.now, c.drop);
    match c.op
    case Check => LockStatus(live, c.now).0
    case Failure => RecordFailure(p.failureThreshold, c.now, p.WindowMs(), p.LockoutMs(), live).0
    case Reset => None
  }

  function ScriptReply(p: Policy, record: Option<Record>, c: Call): Reply
    requires !c.op.Reset?
  {
    var live := Live(record, c.now, c.drop);
    match c.op
    case Failure => RecordFailure(p.failureThreshold, c.now, p.WindowMs(), p.LockoutMs(), live).1
    case Check => LockStatus(live, c.now).1
  }

  /** DEL answers whether it found the key. */
  predicate ResetReply(record: Option<Record>, now: nat, drop: bool) {
    Live(record, now, drop).Some?
  }

  function RecordAfter(p: Policy, calls: seq<Call>): Option<Record> {
    if calls == [] then None
    else Step(p, RecordAfter(p, calls[..|calls| - 1]), calls[|calls| - 1])
  }

  function LogFrom(p: Policy, log: seq<Entry>, calls: seq<Call>): seq<Entry> {
    if calls == [] then log
    else
      var last := calls[|calls| - 1];
      Observe(p, LogFrom(p, log, calls[..|calls| - 1]), last.op, last.now)
  }

  function LogAfter(p: Policy, calls: seq<Call>): seq<Entry> { LogFrom(p, [], calls) }

  /** The calls come on a nondecreasing clock that has not passed `limit` yet. */
  predicate Timely(calls: seq<Call>, limit: int) {
    calls == [] || (calls[|calls| - 1].now <= limit && Timely(calls[..|calls| - 1], calls[|calls| - 1].now))
  }

  // ---- Refinement -----------------------------------------------------------------------

  /** The record is the last log entry, or that entry no longer matters from `clock` on. */
  ghost predicate Represents(p: Policy, record: Option<Record>, log: seq<Entry>, clock: int) {
    match record
    case None => log == [] || !InForce(p, log[|log| - 1], clock)
    case Some(r) =>
      && log != []
      && var last := log[|log| - 1];
         && last.Fail?
         && last.at <= clock
         && r.failures == LiveCount(p, log[..|log| - 1], last.at) + 1
         && r.expiresAt == last.at + (if last.tripped then p.LockoutMs() else p.WindowMs())
         && r.lockedUntil == if last.tripped then r.expiresAt else 0
  }

  lemma StepRefines(p: Policy, record: Option<Record>, log: seq<Entry>, clock: int, c: Call)
    requires Represents(p, record, log, clock) && clock <= c.now
    ensures Represents(p, Step(p, record, c), Observe(p, log, c.op, c.now), c.now)
    ensures !c.op.Reset? ==> ScriptReply(p, record, c) == LogReply(p, log, c.op, c.now)
  {
    var log' := Observe(p, log, c.op, c.now);
    if log' != log {
      assert log'[..|log'| - 1] == log;
    }
  }

  lemma {:induction false} RunRefines(p: Policy, calls: seq<Call>, clock: int)
    requires Timely(calls, clock)
    ensures Represents(p, RecordAfter(p, calls), LogAfter(p, calls), clock)
  {
    if calls != [] {
      var init, last := calls[..|calls| - 1], calls[|calls| - 1];
      RunRefines(p, init, last.now);
      StepRefines(p, RecordAfter(p, init), LogAfter(p, init), last.now, last);
    }
  }

  /** On a nondecreasing clock every lock check and every failure is answered with what the
      log of counted failures says. */
  lemma RepliesComeFromLog(p: Policy, calls: seq<Call>, c: Call)
    requires Timely(calls, c.now) && !c.op.Reset?
    ensures ScriptReply(p, RecordAfter(p, calls), c) == LogReply(p, LogAfter(p, calls), c.op, c.now)
  {
    RunRefines(p, calls, c.now);
    StepRefines(p, RecordAfter(p, calls), LogAfter(p, calls), c.now, c);
  }

  /** A reset finds a record exactly when the last entry is still in force, or when its ended
      lock was left in place by all scripts so far and by Redis. */
  lemma ResetAnswersFromLog(p: Policy, calls: seq<Call>, now: nat, drop: bool)
    requires Timely(calls, now)
    ensures
      var log, record := LogAfter(p, calls), RecordAfter(p, calls);
      ResetReply(record, now, drop) <==>
      || (log != [] && InForce(p, log[|log| - 1], now))
      || (!drop && record.Some? && 0 < record.value.lockedUntil <= now)
  {
    RunRefines(p, calls, now);
  }

  // ---- Checks and expiry races ------------------------------------------------------------

  /** The run without its lock checks, and with Redis keeping every ended lock. */
  function Essential(calls: seq<Call>): seq<Call> {
    if calls == [] then []
    else
      var last := calls[|calls| - 1];
      Essential(calls[..|calls| - 1]) + if last.op.Check? then [] else [last.(drop := false)]
  }

  lemma {:induction false} EssentialKeepsLog(p: Policy, calls: seq<Call>, limit: int)
    requires Timely(calls, limit)
    ensures LogAfter(p, Essential(calls)) == LogAfter(p, calls)
    ensures Timely(Essential(calls), limit)
  {
    if calls != [] {
      var init, last := calls[..|calls| - 1], calls[|calls| - 1];
      if last.op.Check? {
        assert Essential(calls) == Essential(init);
        EssentialKeepsLog(p, init, limit);
      } else {
        EssentialKeepsLog(p, init, last.now);
        assert Essential(calls)[..|Essential(init)|] == Essential(init);
      }
    }
  }

  /** Lock checks are observationally read-only, and it does not matter whether an ended lock
      is deleted by its TTL, early or late, or by the next script: no answer to a check or to
      a failure depends on it. */
  lemma ChecksAndExpiryRacesAreInvisible(p: Policy, calls: seq<Call>, c: Call, drop: bool)
    requires Timely(calls, c.now) && !c.op.Reset?
    ensures ScriptReply(p, RecordAfter(p, calls), c)
            == ScriptReply(p, RecordAfter(p, Essential(calls)), c.(drop := drop))
  {
    RepliesComeFromLog(p, calls, c);
    EssentialKeepsLog(p, calls, c.now);
    RepliesComeFromLog(p, Essential(calls), c.(drop := drop));
  }

  // ---- What the log says --------------------------------------------------------------------

  /** A log that runs produce: time order, and every failure was counted while no lock was
      running and marked exactly when it reached the threshold. */
  ghost predicate WellFormed(p: Policy, log: seq<Entry>) {
    log != [] ==>
      var init, last := log[..|log| - 1], log[|log| - 1];
      && WellFormed(p, init)
      && (init != [] ==> init[|init| - 1].at <= last.at)
      && (last.Fail? ==>
            && !Locked(p, init, last.at)
            && (last.tripped <==> LiveCount(p, init, last.at) + 1 >= p.failureThreshold))
  }

  lemma ObserveKeepsWellFormed(p: Policy, log: seq<Entry>, op: Op, now: nat)
    requires WellFormed(p, log) && (log != [] ==> log[|log| - 1].at <= now)
    ensures WellFormed(p, Observe(p, log, op, now))
    ensures var log' := Observe(p, log, op, now); log' != [] ==> log'[|log'| - 1].at <= now
  {
    var log' := Observe(p, log, op, now);
    if log' != log {
      assert log'[..|log'| - 1] == log;
    }
  }

  lemma {:induction false} LogIsWellFormed(p: Policy, calls: seq<Call>, limit: int)
    requires Timely(calls, limit)
    ensures WellFormed(p, LogAfter(p, calls))
    ensures var log := LogAfter(p, calls); log != [] ==> log[|log| - 1].at <= limit
  {
    if calls != [] {
      var init, last := calls[..|calls| - 1], calls[|calls| - 1];
      LogIsWellFormed(p, init, last.now);
      ObserveKeepsWellFormed(p, LogAfter(p, init), last.op, last.now);
    }
  }

  lemma {:induction false} WellFormedPrefix(p: Policy, log: seq<Entry>, n: nat)
    requires WellFormed(p, log) && n <= |log|
    ensures WellFormed(p, log[..n])
  {
    if n == |log| {
      assert log[..n] == log;
    } else {
      WellFormedPrefix(p, log[..|log| - 1], n);
      assert log[..|log| - 1][..n] == log[..n];
    }
  }

  /** A decision is locked at `now` if and only if a threshold-reaching failure happened
      at some t with t <= now < t + lockout and no reset has come since. */
  lemma {:induction false} LockedMeans(p: Policy, log: seq<Entry>, now: nat)
    requires WellFormed(p, log) && (log != [] ==> log[|log| - 1].at <= now)
    ensures Locked(p, log, now) <==>
            exists i :: && 0 <= i < |log| && log[i].Fail? && log[i].tripped
                        && log[i].at <= now < log[i].at + 1000 * p.lockoutSeconds
                        && forall j :: i < j < |log| ==> !log[j].Cleared?
  {
    if Locked(p, log, now) {
      var i := |log| - 1;
      assert log[i].Fail? && log[i].tripped;
    }
    if i :| && 0 <= i < |log| && log[i].Fail? && log[i].tripped
            && log[i].at <= now < log[i].at + 1000 * p.lockoutSeconds
            && forall j :: i < j < |log| ==> !log[j].Cleared?
    {
      if i < |log| - 1 {
        WellFormedPrefix(p, log, i + 2);
        assert log[..i + 2][..i + 1] == log[..i + 1];
        assert log[i + 1].Fail?;
        LaterInLog(p, log, i + 1, |log| - 1);
      }
    }
  }

  lemma {:induction false} LaterInLog(p: Policy, log: seq<Entry>, i: nat, j: nat)
    requires WellFormed(p, log) && i <= j < |log|
    ensures log[i].at <= log[j].at
  {
    if i < j {
      LaterInLog(p, log, i, j - 1);
      WellFormedPrefix(p, log, j + 1);
      assert log[..j + 1][..j] == log[..j];
    }
  }

  /** The entries from b on are failures without a lock end or an idle gap between them,
      and the last of them is still in force. */
  ghost predicate Epoch(p: Policy, log: seq<Entry>, b: nat, now: int)
    requires b <= |log|
  {
    && (forall i :: b <= i < |log| - 1 ==>
                      log[i].Fail? && !log[i].tripped && log[i + 1].at <= log[i].at + 1000 * p.failureWindowSeconds)
    && (b < |log| ==>
          var last := log[|log| - 1];
          && last.Fail?
          && if last.tripped then now < last.at + 1000 * p.lockoutSeconds
             else now <= last.at + 1000 * p.failureWindowSeconds)
  }

  /** The stored count is the length of the longest epoch that ends the log. */
  lemma {:induction false} CountIsLongestEpoch(p: Policy, log: seq<Entry>, now: int)
    requires WellFormed(p, log)
    ensures LiveCount(p, log, now) <= |log|
    ensures forall b :: 0 <= b <= |log| ==> (Epoch(p, log, b, now) <==> |log| - b <= LiveCount(p, log, now))
  {
    if log != [] {
      var init, last := log[..|log| - 1], log[|log| - 1];
      CountIsLongestEpoch(p, init, last.at);
      forall b | 0 <= b < |log|
        ensures Epoch(p, log, b, now) <==> |log| - b <= LiveCount(p, log, now)
      {
        if InForce(p, last, now) {
          assert Epoch(p, init, b, last.at) <==> Epoch(p, log, b, now) by {
            assert b < |init| ==> init[|init| - 1] == log[|log| - 2];
          }
        }
      }
    }
  }

  /** Between two clears fewer failures than the threshold are counted without a lock. */
  lemma CountBelowThreshold(p: Policy, log: seq<Entry>, now: int)
    requires WellFormed(p, log)
    ensures LiveCount(p, log, now) <= p.failureThreshold
    ensures LiveCount(p, log, now) == p.failureThreshold <==> Locked(p, log, now)
  {
    if log != [] && InForce(p, log[|log| - 1], now) {
      CountBelowThreshold(p, log[..|log| - 1], log[|log| - 1].at);
    }
  }
  /** During a lock every check and every failure is told the full count and the rest of the
      lock, and changes nothing; outside of one a check is told the count. */
  lemma ChecksInWords(p: Policy, log: seq<Entry>, op: Op, now: nat)
    requires WellFormed(p, log) && !op.Reset?
    ensures Locked(p, log, now) ==>
              && LogReply(p, log, op, now)
                 == Reply(1, p.failureThreshold, log[|log| - 1].at + 1000 * p.lockoutSeconds - now)
              && Observe(p, log, op, now) == log
    ensures op.Check? && !Locked(p, log, now) ==>
              LogReply(p, log, op, now) == Reply(0, LiveCount(p, log, now), 0) && Observe(p, log, op, now) == log
  {
    CountBelowThreshold(p, log, now);
  }

  /** What a failure outside a lock is answered: the count that it makes, and the lockout in
      full if that reaches the threshold. */
  lemma FailureInWords(p: Policy, log: seq<Entry>, now: nat)
    requires WellFormed(p, log) && !Locked(p, log, now)
    ensures
      var failures := LiveCount(p, log, now) + 1;
      && failures <= p.failureThreshold
      && LogReply(p, log, Failure, now)
         == (if failures == p.failureThreshold then Reply(1, p.failureThreshold, 1000 * p.lockoutSeconds)
             else Reply(0, failures, 0))
      && Observe(p, log, Failure, now) == log + [Fail(now, failures == p.failureThreshold)]
  {
    CountBelowThreshold(p, log, now);
  }
}
