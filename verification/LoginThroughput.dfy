/**
 How many failures an account can be charged with in a window without resets. The bound
 "threshold failures per started lockout, and threshold - 1 more" is not a law of the
 scripts: failures that come slower than the failure window are counted for ever without
 a lock. It holds exactly for the policies whose windows are long enough.
 */
module LoginThroughput {
  import opened LoginScripts
  import opened LoginLog

  /** Calls without resets in the window from `from` to `to`, on top of a well-formed log. */
  ghost predicate InWindow(p: Policy, base: seq<Entry>, calls: seq<Call>, from: nat, to: nat) {
    && WellFormed(p, base)
    && (base != [] ==> base[|base| - 1].at <= from)
    && from <= to
    && Timely(calls, to)
    && forall c <- calls :: c.now >= from && !c.op.Reset?
  }

  /** The failures that the window added to the log. */
  function Counted(p: Policy, base: seq<Entry>, calls: seq<Call>): int {
    |LogFrom(p, base, calls)| - |base|
  }

  /** A policy whose failure window is long enough, measured against its lockout. */
  predicate WindowCoversLockout(p: Policy) {
    p.failureThreshold * (1000 * p.failureWindowSeconds + 1) >= (p.failureThreshold - 1) * (1000 * p.lockoutSeconds)
  }

  predicate WithinBound(p: Policy, base: seq<Entry>, calls: seq<Call>, from: nat, to: nat) {
    Counted(p, base, calls)
    <= p.failureThreshold * ((to - from) / (1000 * p.lockoutSeconds) + 1) + p.failureThreshold - 1
  }

  // ---- Products and quotients ---------------------------------------------------------------

  lemma Scale(a: int, b: int, c: int)
    requires a >= 0 && b <= c
    ensures a * b <= a * c
  {
  }

  lemma Distribute(a: int, b: int, c: int)
    ensures a * (b + c) == a * b + a * c
  {
  }

  lemma Swap(a: int, b: int, c: int)
    ensures a * (b * c) == b * (a * c)
  {
  }

  lemma OneMoreTime(n: int, x: int)
    ensures (n + 1) * x == n * x + x
  {
  }

  lemma Cancel(a: int, b: int, c: int)
    requires a > 0 && a * b < a * c
    ensures b < c
  {
    if b >= c {
      Scale(a, c, b);
    }
  }

  lemma QuotientBelow(n: int, unit: int)
    requires unit > 0
    ensures n < unit * (n / unit + 1)
  {
    Distribute(unit, n / unit, 1);
  }

  // ---- The log grows by failures only ------------------------------------------------------

  lemma {:induction false} WindowAppends(p: Policy, base: seq<Entry>, calls: seq<Call>, from: nat, to: nat)
    requires Timely(calls, to) && forall c <- calls :: c.now >= from && !c.op.Reset?
    ensures
      var log := LogFrom(p, base, calls);
      && base <= log
      && forall i :: |base| <= i < |log| ==> log[i].Fail? && from <= log[i].at <= to
  {
    if calls != [] {
      var init, last := calls[..|calls| - 1], calls[|calls| - 1];
      assert last in calls && forall c <- init :: c in calls;
      WindowAppends(p, base, init, from, last.now);
      ObserveAppends(p, LogFrom(p, base, init), last.op, last.now);
    }
  }

  lemma EarlierCallsInWindow(p: Policy, base: seq<Entry>, calls: seq<Call>, from: nat, to: nat)
    requires InWindow(p, base, calls, from, to) && calls != []
    ensures InWindow(p, base, calls[..|calls| - 1], from, calls[|calls| - 1].now)
    ensures calls[|calls| - 1].now <= to
  {
    assert calls[|calls| - 1] in calls && forall c <- calls[..|calls| - 1] :: c in calls;
  }

  lemma {:induction false} WindowKeepsWellFormed(p: Policy, base: seq<Entry>, calls: seq<Call>, from: nat, to: nat)
    requires InWindow(p, base, calls, from, to)
    ensures
      var log := LogFrom(p, base, calls);
      WellFormed(p, log) && (log != [] ==> log[|log| - 1].at <= to)
  {
    if calls != [] {
      var init, last := calls[..|calls| - 1], calls[|calls| - 1];
      EarlierCallsInWindow(p, base, calls, from, to);
      WindowKeepsWellFormed(p, base, init, from, last.now);
      ObserveKeepsWellFormed(p, LogFrom(p, base, init), last.op, last.now);
      assert LogFrom(p, base, calls) == Observe(p, LogFrom(p, base, init), last.op, last.now);
    }
  }

  lemma WindowGrowsLog(p: Policy, base: seq<Entry>, calls: seq<Call>, from: nat, to: nat)
    requires InWindow(p, base, calls, from, to)
    ensures
      var log := LogFrom(p, base, calls);
      && WellFormed(p, log)
      && base <= log
      && (forall i :: |base| <= i < |log| ==> log[i].Fail? && from <= log[i].at <= to)
      && (log != [] ==> log[|log| - 1].at <= to)
  {
    WindowAppends(p, base, calls, from, to);
    WindowKeepsWellFormed(p, base, calls, from, to);
  }

  // ---- Locks ---------------------------------------------------------------------------------

  /** Two locks without a reset between them start at least a lockout apart. */
  lemma LocksAreSpaced(p: Policy, log: seq<Entry>, i: nat, j: nat)
    requires WellFormed(p, log) && i < j < |log|
    requires log[i].Fail? && log[i].tripped && log[i + 1].Fail?
    ensures log[j].at >= log[i].at + 1000 * p.lockoutSeconds
  {
    WellFormedPrefix(p, log, i + 2);
    assert log[..i + 2][..i + 1] == log[..i + 1];
    LaterInLog(p, log, i + 1, j);
  }

  function Locks(log: seq<Entry>, start: nat): nat
    requires start <= |log|
    decreases |log|
  {
    if start == |log| then 0
    else
      var last := log[|log| - 1];
      Locks(log[..|log| - 1], start) + if last.Fail? && last.tripped then 1 else 0
  }

  lemma {:induction false} LocksStretch(p: Policy, log: seq<Entry>, start: nat, from: nat) returns (latest: int)
    requires WellFormed(p, log) && start <= |log|
    requires forall i :: start <= i < |log| ==> log[i].Fail? && log[i].at >= from
    ensures var n := Locks(log, start);
            n > 0 ==>
              && p.LockoutMs() * (n - 1) <= latest - from
              && log[|log| - 1].at >= if log[|log| - 1].tripped then latest else latest + p.LockoutMs()
    ensures start < |log| ==> latest <= log[|log| - 1].at
    decreases |log|
  {
    latest := from;
    if start < |log| {
      var init, last := log[..|log| - 1], log[|log| - 1];
      var before := LocksStretch(p, init, start, from);
      var n := Locks(init, start);
      latest := if last.tripped then last.at else if n == 0 then from else before;
      if n > 0 {
        assert last.at >= before + p.LockoutMs();
        Distribute(p.LockoutMs(), n - 1, 1);
      }
    }
  }

  lemma LocksAtMost(p: Policy, log: seq<Entry>, start: nat, from: nat, to: nat)
    requires WellFormed(p, log) && start <= |log| && from <= to
    requires forall i :: start <= i < |log| ==> log[i].Fail? && from <= log[i].at <= to
    ensures Locks(log, start) <= (to - from) / p.LockoutMs() + 1
  {
    var latest := LocksStretch(p, log, start, from);
    var n := Locks(log, start);
    if n == 0 {
      FloorBound(0, to - from, p.LockoutMs());
    } else {
      FloorBound(n - 1, to - from, p.LockoutMs());
    }
  }

  /** In a window without resets the account is locked at most once per lockout, plus once. */
  lemma LocksInWindow(p: Policy, base: seq<Entry>, calls: seq<Call>, from: nat, to: nat)
    requires InWindow(p, base, calls, from, to)
    ensures |base| <= |LogFrom(p, base, calls)|
    ensures Locks(LogFrom(p, base, calls), |base|) <= (to - from) / (1000 * p.lockoutSeconds) + 1
  {
    WindowGrowsLog(p, base, calls, from, to);
    LocksAtMost(p, LogFrom(p, base, calls), |base|, from, to);
  }

  lemma FloorBound(n: int, span: int, unit: int)
    requires unit > 0 && unit * n <= span
    ensures n <= span / unit
  {
    QuotientBelow(span, unit);
    Cancel(unit, n, span / unit + 1);
  }

  // ---- Long enough windows: the bound holds ----------------------------------------------------

  /** The count that the last entry left in the record. */
  function LastCount(p: Policy, log: seq<Entry>): nat {
    if log == [] || log[|log| - 1].Cleared? then 0
    else LiveCount(p, log[..|log| - 1], log[|log| - 1].at) + 1
  }

  lemma LastCountBound(p: Policy, log: seq<Entry>)
    requires WellFormed(p, log)
    ensures LastCount(p, log) <= p.failureThreshold
    ensures log != [] && log[|log| - 1].Fail? && !log[|log| - 1].tripped ==> LastCount(p, log) < p.failureThreshold
  {
    if log != [] && log[|log| - 1].Fail? {
      CountBelowThreshold(p, log[..|log| - 1], log[|log| - 1].at);
    }
  }

  /** An epoch that ended paid for its failures with the time until the next one starts. */
  lemma EpochPays(p: Policy, counted: int, count: int, start: int, from: int, tripped: bool, at: int, now: int)
    requires WindowCoversLockout(p)
    requires p.LockoutMs() * (counted - count) <= p.failureThreshold * (start - from) && start <= at
    requires count <= if tripped then p.failureThreshold else p.failureThreshold - 1
    requires now >= at + if tripped then p.LockoutMs() else p.WindowMs() + 1
    ensures p.LockoutMs() * counted <= p.failureThreshold * (now - from)
  {
    var th, lock, gap := p.failureThreshold, p.LockoutMs(), p.WindowMs() + 1;
    Distribute(lock, counted - count, count);
    Distribute(th, start - from, now - start);
    if tripped {
      Scale(lock, count, th);
      Scale(th, lock, now - start);
    } else {
      Scale(lock, count, th - 1);
      Scale(th, gap, now - start);
    }
  }

  /** All epochs before the one that began at `start` are paid for. */
  predicate Paid(p: Policy, counted: int, count: int, start: int, from: int) {
    p.LockoutMs() * (counted - count) <= p.failureThreshold * (start - from)
  }

  lemma NextFailurePays(p: Policy, log: seq<Entry>, counted: nat, start: int, from: nat, now: nat)
    returns (start': int)
    requires WindowCoversLockout(p) && WellFormed(p, log) && !Locked(p, log, now)
    requires from <= start <= now && Paid(p, counted, LastCount(p, log), start, from)
    requires counted > 0 ==> log != [] && log[|log| - 1].Fail? && start <= log[|log| - 1].at <= now
    ensures from <= start' <= now && Paid(p, counted + 1, LiveCount(p, log, now) + 1, start', from)
  {
    if log != [] && InForce(p, log[|log| - 1], now) {
      start' := start;
    } else {
      start' := now;
      if counted > 0 {
        LastCountBound(p, log);
        var e := log[|log| - 1];
        EpochPays(p, counted, LastCount(p, log), start, from, e.tripped, e.at, now);
      } else {
        Scale(p.failureThreshold, 0, now - from);
      }
    }
  }

  /** `start` is when the current epoch began. */
  lemma {:induction false} EarlierEpochsArePaid(p: Policy, log: seq<Entry>, b: nat, from: nat) returns (start: int)
    requires WindowCoversLockout(p) && WellFormed(p, log) && b <= |log|
    requires forall i :: b <= i < |log| ==> log[i].Fail? && log[i].at >= from
    ensures from <= start && (if b < |log| then start <= log[|log| - 1].at else start == from)
    ensures Paid(p, |log| - b, LastCount(p, log), start, from)
  {
    start := from;
    if b == |log| {
      var owed: int := LastCount(p, log);
      Scale(p.LockoutMs(), 0 - owed, 0);
    } else {
      var init, last := log[..|log| - 1], log[|log| - 1];
      start := EarlierEpochsArePaid(p, init, b, from);
      start := NextFailurePays(p, init, |init| - b, start, from, last.at);
    }
  }

  lemma BoundFromPotential(th: int, lock: int, n: int, count: int, span: int)
    requires th >= 1 && lock >= 1 && count <= th && span >= 0
    requires lock * (n - count) <= th * span
    ensures n <= th * (span / lock + 1) + th - 1
  {
    var q := span / lock;
    QuotientBelow(span, lock);
    Scale(th, span + 1, lock * (q + 1));
    Distribute(th, span, 1);
    Swap(th, lock, q + 1);
    Cancel(lock, n - count, th * (q + 1));
  }

  lemma LongWindowsKeepBound(p: Policy, base: seq<Entry>, calls: seq<Call>, from: nat, to: nat)
    requires InWindow(p, base, calls, from, to) && WindowCoversLockout(p)
    ensures WithinBound(p, base, calls, from, to)
  {
    var log := LogFrom(p, base, calls);
    WindowGrowsLog(p, base, calls, from, to);
    var start := EarlierEpochsArePaid(p, log, |base|, from);
    LastCountBound(p, log);
    if |base| < |log| {
      assert start <= log[|log| - 1].at <= to;
    }
    PaidUntil(p, Counted(p, base, calls), LastCount(p, log), start, from, to);
  }

  lemma PaidUntil(p: Policy, counted: int, count: int, start: int, from: int, to: int)
    requires Paid(p, counted, count, start, from) && from <= to && start <= to
    requires count <= p.failureThreshold
    ensures counted <= p.failureThreshold * ((to - from) / p.LockoutMs() + 1) + p.failureThreshold - 1
  {
    Scale(p.failureThreshold, start - from, to - from);
    BoundFromPotential(p.failureThreshold, p.LockoutMs(), counted, count, to - from);
  }

  // ---- Short windows: slow failures break the bound -----------------------------------------------

  function Burst(at: nat, n: nat): seq<Call> {
    if n == 0 then [] else Burst(at, n - 1) + [Call(Failure, at, false)]
  }

  lemma LogSnoc(p: Policy, log: seq<Entry>, calls: seq<Call>, last: Call)
    ensures LogFrom(p, log, calls + [last]) == Observe(p, LogFrom(p, log, calls), last.op, last.now)
  {
    assert (calls + [last])[..|calls|] == calls;
  }

  function BurstEntries(p: Policy, at: nat, n: nat): (entries: seq<Entry>)
    ensures |entries| == n
    ensures n > 0 ==> entries[n - 1] == Fail(at, n == p.failureThreshold)
  {
    if n == 0 then [] else BurstEntries(p, at, n - 1) + [Fail(at, n == p.failureThreshold)]
  }

  lemma BurstGrows(p: Policy, log: seq<Entry>, at: nat, n: nat)
    requires n >= 1
    ensures log + BurstEntries(p, at, n) == log + BurstEntries(p, at, n - 1) + [Fail(at, n == p.failureThreshold)]
  {
  }

  lemma {:induction false} BurstCount(p: Policy, log: seq<Entry>, at: nat, n: nat)
    requires log == [] || !InForce(p, log[|log| - 1], at)
    requires n <= p.failureThreshold
    ensures LiveCount(p, log + BurstEntries(p, at, n), at) == n
  {
    var all := log + BurstEntries(p, at, n);
    if n == 0 {
      assert all == log;
    } else {
      BurstCount(p, log, at, n - 1);
      BurstGrows(p, log, at, n);
      assert all[..|all| - 1] == log + BurstEntries(p, at, n - 1);
    }
  }

  lemma NextInBurst(p: Policy, log: seq<Entry>, at: nat, n: nat)
    requires log == [] || !InForce(p, log[|log| - 1], at)
    requires n < p.failureThreshold
    ensures Observe(p, log + BurstEntries(p, at, n), Failure, at) == log + BurstEntries(p, at, n + 1)
  {
    BurstCount(p, log, at, n);
    BurstGrows(p, log, at, n + 1);
    assert n == 0 ==> log + BurstEntries(p, at, n) == log;
  }

  lemma {:induction false} BurstIsCounted(p: Policy, log: seq<Entry>, at: nat, n: nat)
    requires log == [] || !InForce(p, log[|log| - 1], at)
    requires n <= p.failureThreshold
    ensures LogFrom(p, log, Burst(at, n)) == log + BurstEntries(p, at, n)
  {
    if n == 0 {
      assert log + BurstEntries(p, at, n) == log;
    } else {
      BurstIsCounted(p, log, at, n - 1);
      LogSnoc(p, log, Burst(at, n - 1), Call(Failure, at, false));
      NextInBurst(p, log, at, n - 1);
    }
  }

  lemma {:induction false} LogConcat(p: Policy, log: seq<Entry>, a: seq<Call>, b: seq<Call>)
    ensures LogFrom(p, log, a + b) == LogFrom(p, LogFrom(p, log, a), b)
  {
    if b == [] {
      assert a + b == a;
    } else {
      LogConcat(p, log, a, b[..|b| - 1]);
      assert (a + b)[..|a + b| - 1] == a + b[..|b| - 1];
    }
  }

  lemma TimelySnoc(calls: seq<Call>, before: int, last: Call)
    requires Timely(calls, before) && before <= last.now
    ensures Timely(calls + [last], last.now)
  {
    var all := calls + [last];
    assert all[|all| - 1] == last;
    assert all[..|all| - 1] == calls;
    TimelyLonger(calls, before, last.now);
  }

  lemma TimelyLonger(calls: seq<Call>, limit: int, later: int)
    requires Timely(calls, limit) && limit <= later
    ensures Timely(calls, later)
  {
  }

  lemma {:induction false} BurstIsTimely(calls: seq<Call>, before: int, at: nat, n: nat)
    requires Timely(calls, before) && before <= at
    ensures Timely(calls + Burst(at, n), at)
    ensures forall c <- Burst(at, n) :: c.now == at && c.op.Failure?
  {
    if n == 0 {
      assert calls + Burst(at, n) == calls;
    } else {
      BurstIsTimely(calls, before, at, n - 1);
      TimelySnoc(calls + Burst(at, n - 1), at, Call(Failure, at, false));
      assert calls + Burst(at, n) == calls + Burst(at, n - 1) + [Call(Failure, at, false)];
    }
  }

  /** A burst of threshold - 1 failures just after the window of what came before. */
  lemma SlowBurst(p: Policy, earlier: seq<Call>, at: nat, next: nat) returns (calls: seq<Call>)
    requires p.failureThreshold >= 2 && Timely(earlier, at) && next == at + p.WindowMs() + 1
    requires forall c <- earlier :: c.op.Failure?
    requires var log := LogFrom(p, [], earlier); log == [] || !InForce(p, log[|log| - 1], at)
    ensures
      var log := LogFrom(p, [], calls);
      && |log| == |LogFrom(p, [], earlier)| + p.failureThreshold - 1
      && Timely(calls, next)
      && (forall c <- calls :: c.op.Failure?)
      && !InForce(p, log[|log| - 1], next)
  {
    var size := p.failureThreshold - 1;
    var burst := Burst(at, size);
    calls := earlier + burst;
    LogConcat(p, [], earlier, burst);
    BurstIsCounted(p, LogFrom(p, [], earlier), at, size);
    BurstIsTimely(earlier, at, at, size);
    TimelyLonger(calls, at, next);
    assert forall c <- calls :: c in earlier || c in burst;
    var log := LogFrom(p, [], calls);
    assert log == LogFrom(p, [], earlier) + BurstEntries(p, at, size);
    assert log[|log| - 1] == Fail(at, false);
  }

  /** `bursts` such bursts. */
  lemma {:induction false} SlowBursts(p: Policy, bursts: nat) returns (calls: seq<Call>)
    requires p.failureThreshold >= 2
    ensures
      var log := LogFrom(p, [], calls);
      && |log| == bursts * (p.failureThreshold - 1)
      && Timely(calls, bursts * (p.WindowMs() + 1))
      && (forall c <- calls :: c.op.Failure?)
      && (log == [] || !InForce(p, log[|log| - 1], bursts * (p.WindowMs() + 1)))
  {
    calls := [];
    if bursts > 0 {
      var gap, size := p.WindowMs() + 1, p.failureThreshold - 1;
      var earlier := SlowBursts(p, bursts - 1);
      OneMoreTime(bursts - 1, gap);
      OneMoreTime(bursts - 1, size);
      calls := SlowBurst(p, earlier, (bursts - 1) * gap, bursts * gap);
    }
  }

  lemma ShortWindowsInNumbers(th: int, lock: int, gap: int)
    requires th >= 1 && lock >= 1 && gap >= 1 && th * gap < (th - 1) * lock
    ensures th >= 2 && th * gap >= 0
    ensures th * (th - 1) + th == th * th
    ensures th * th > th * (th * gap / lock + 1) + th - 1
  {
    Scale(th, 1, gap);
    Distribute(th, th - 1, 1);
    var q := th * gap / lock;
    assert lock * q <= th * gap;
    Cancel(lock, q, th - 1);
    Scale(th, q + 1, th - 1);
  }

  /** threshold + 1 slow bursts; the last one reaches the threshold. */
  lemma SlowAttack(p: Policy, to: nat) returns (calls: seq<Call>)
    requires p.failureThreshold >= 2 && to == p.failureThreshold * (p.WindowMs() + 1)
    ensures InWindow(p, [], calls, 0, to)
    ensures Counted(p, [], calls) == p.failureThreshold * (p.failureThreshold - 1) + p.failureThreshold
  {
    var slow := SlowBursts(p, p.failureThreshold);
    var burst := Burst(to, p.failureThreshold);
    calls := slow + burst;
    LogConcat(p, [], slow, burst);
    BurstIsCounted(p, LogFrom(p, [], slow), to, p.failureThreshold);
    BurstIsTimely(slow, to, to, p.failureThreshold);
    forall c | c in calls
      ensures c.op.Failure?
    {
      assert c in slow || c in burst;
    }
  }

  /** With a shorter window, slow bursts charge threshold squared failures, more than the
      bound, in a window that fits less than threshold - 1 lockouts. */
  lemma ShortWindowsBreakBound(p: Policy) returns (calls: seq<Call>, to: nat)
    requires !WindowCoversLockout(p)
    ensures InWindow(p, [], calls, 0, to) && !WithinBound(p, [], calls, 0, to)
    ensures Counted(p, [], calls) == p.failureThreshold * p.failureThreshold
  {
    ShortWindowsInNumbers(p.failureThreshold, p.LockoutMs(), p.WindowMs() + 1);
    to := p.failureThreshold * (p.WindowMs() + 1);
    calls := SlowAttack(p, to);
  }

  /** The bound holds in all windows of all runs if and only if the policy's failure window
      covers its lockout in this sense. */
  lemma BoundHoldsExactlyForLongWindows(p: Policy)
    ensures WindowCoversLockout(p) <==>
            forall base, calls, from: nat, to: nat ::
              InWindow(p, base, calls, from, to) ==> WithinBound(p, base, calls, from, to)
  {
    if WindowCoversLockout(p) {
      forall base, calls, from: nat, to: nat | InWindow(p, base, calls, from, to)
        ensures WithinBound(p, base, calls, from, to)
      {
        LongWindowsKeepBound(p, base, calls, from, to);
      }
    } else {
      var calls, to := ShortWindowsBreakBound(p);
    }
  }
}
