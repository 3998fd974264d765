/**
 Whole runs of the token bucket of one policy: the k-th request comes at `times[k]`.
 Instants may step backwards except where a lemma asks for a nondecreasing clock.
 */
module BucketRuns {
  import opened Common
  import opened TokenBucket

  function Tokens(p: Policy, stored: Option<Stored>, now: int): real {
    Available(p.capacity as real, p.refillRatePerSecond, stored, now)
  }

  predicate Granted(p: Policy, stored: Option<Stored>, now: int) {
    Tokens(p, stored, now) >= p.cost as real
  }

  function Answer(p: Policy, stored: Option<Stored>, now: int): Reply {
    Decide(p.capacity as real, p.refillRatePerSecond, p.cost as real, Tokens(p, stored, now))
  }

  /** What a decision leaves in a bucket that holds `tokens`. */
  function Left(p: Policy, tokens: real): real {
    if tokens >= p.cost as real then tokens - p.cost as real else tokens
  }

  function Next(p: Policy, stored: Option<Stored>, now: nat): Option<Stored> {
    Some(Stored(Left(p, Tokens(p, stored, now)), now))
  }

  /** One call of the service is one `Next` with its `Answer`: no argument error is possible. */
  lemma ScriptTakesOneStep(p: Policy, stored: Option<Stored>, now: nat)
    ensures Script(p.capacity as real, p.refillRatePerSecond, p.cost as real, now, p.StateTtlSeconds() * 1000, stored)
            == (Next(p, stored, now), Ok(Answer(p, stored, now)))
  {
  }

  /** The state after all requests, from an absent key. */
  function After(p: Policy, times: seq<nat>): Option<Stored> {
    if times == [] then None else Next(p, After(p, times[..|times| - 1]), times[|times| - 1])
  }

  predicate AllowedAt(p: Policy, times: seq<nat>, k: nat)
    requires k < |times|
  {
    Granted(p, After(p, times[..k]), times[k])
  }

  lemma Snoc(p: Policy, times: seq<nat>, now: nat)
    ensures After(p, times + [now]) == Next(p, After(p, times), now)
  {
    assert (times + [now])[..|times|] == times;
  }

  lemma TokensInRange(p: Policy, stored: Option<Stored>, now: int)
    ensures 0.0 <= Tokens(p, stored, now) <= p.capacity as real
  {
    AvailableInRange(p.capacity as real, p.refillRatePerSecond, stored, now);
  }

  // ---- The exact rate ----------------------------------------------------------------

  lemma RefillStep(p: Policy, times: seq<nat>, k: nat)
    requires k + 1 < |times|
    ensures Tokens(p, After(p, times[..k + 1]), times[k + 1])
            == MinReal(p.capacity as real,
                       Left(p, Tokens(p, After(p, times[..k]), times[k]))
                       + Gain(p.refillRatePerSecond, Elapsed(times[k], times[k + 1])))
  {
    assert times[..k + 1] == times[..k] + [times[k]];
    Snoc(p, times[..k], times[k]);
    TokensInRange(p, After(p, times[..k]), times[k]);
  }

  /** The bucket as a recurrence over the gains between its requests. */
  function Level(p: Policy, gains: seq<real>, k: nat): real
    requires k <= |gains|
  {
    if k == 0 then p.capacity as real
    else MinReal(p.capacity as real, Left(p, Level(p, gains, k - 1)) + gains[k - 1])
  }

  /** What a bucket without a limit, full at request i, would hold at request k. */
  function Budget(p: Policy, gains: seq<real>, i: nat, k: nat): real
    requires i <= k <= |gains|
    decreases k
  {
    if i == k then p.capacity as real
    else
      Budget(p, gains, i, k - 1) + gains[k - 1]
      - if Level(p, gains, k - 1) >= p.cost as real then p.cost as real else 0.0
  }

  /** The bucket is the lower envelope of the budgets of all earlier starts. */
  lemma {:induction false} Envelope(p: Policy, gains: seq<real>, k: nat) returns (start: nat)
    requires k <= |gains|
    ensures forall i :: 0 <= i <= k ==> Level(p, gains, k) <= Budget(p, gains, i, k)
    ensures start <= k && Level(p, gains, k) == Budget(p, gains, start, k)
  {
    start := k;
    if k > 0 {
      var earlier := Envelope(p, gains, k - 1);
      forall i | 0 <= i < k
        ensures Level(p, gains, k) <= Budget(p, gains, i, k)
      {
        assert Level(p, gains, k - 1) <= Budget(p, gains, i, k - 1);
      }
      if Level(p, gains, k) < p.capacity as real {
        start := earlier;
      }
    }
  }

  /** The forward clock steps from request i to request k; a step back counts as nothing. */
  function Forward(times: seq<nat>, i: nat, k: nat): nat
    requires i <= k < |times|
    decreases k
  {
    if i == k then 0
    else Forward(times, i, k - 1) + if times[k - 1] <= times[k] then times[k] - times[k - 1] else 0
  }

  /** The tokens that the grants among the requests from i up to, not including, k cost. */
  function Spent(p: Policy, times: seq<nat>, i: nat, k: nat): nat
    requires i <= k <= |times|
    decreases k
  {
    if i == k then 0 else Spent(p, times, i, k - 1) + if AllowedAt(p, times, k - 1) then p.cost else 0
  }

  function StepGains(p: Policy, times: seq<nat>): seq<real>
    requires times != []
  {
    seq(|times| - 1, k requires 0 <= k < |times| - 1 => Gain(p.refillRatePerSecond, Elapsed(times[k], times[k + 1])))
  }

  lemma {:induction false} RunIsLevel(p: Policy, times: seq<nat>, k: nat)
    requires k < |times|
    ensures Tokens(p, After(p, times[..k]), times[k]) == Level(p, StepGains(p, times), k)
  {
    if k > 0 {
      RunIsLevel(p, times, k - 1);
      RefillStep(p, times, k - 1);
    }
  }

  /** The gains between request i and request k. */
  function Gained(gains: seq<real>, i: nat, k: nat): real
    requires i <= k <= |gains|
    decreases k
  {
    if i == k then 0.0 else Gained(gains, i, k - 1) + gains[k - 1]
  }

  /** What the grants cost, decided by the recurrence. */
  function SpentAt(p: Policy, gains: seq<real>, i: nat, k: nat): nat
    requires i <= k <= |gains| + 1
    decreases k
  {
    if i == k then 0 else SpentAt(p, gains, i, k - 1) + if Level(p, gains, k - 1) >= p.cost as real then p.cost else 0
  }

  lemma {:induction false} BudgetIsSum(p: Policy, gains: seq<real>, i: nat, k: nat)
    requires i <= k <= |gains|
    ensures Budget(p, gains, i, k) == p.capacity as real + Gained(gains, i, k) - SpentAt(p, gains, i, k) as real
    decreases k
  {
    if i < k {
      BudgetIsSum(p, gains, i, k - 1);
    }
  }

  lemma {:induction false} SpentIsSpentAt(p: Policy, times: seq<nat>, i: nat, k: nat)
    requires i <= k < |times|
    ensures Spent(p, times, i, k) == SpentAt(p, StepGains(p, times), i, k)
    decreases k
  {
    if i < k {
      SpentIsSpentAt(p, times, i, k - 1);
      RunIsLevel(p, times, k - 1);
      assert AllowedAt(p, times, k - 1) <==> Level(p, StepGains(p, times), k - 1) >= p.cost as real;
    }
  }

  lemma {:induction false} GainedIsForward(p: Policy, times: seq<nat>, i: nat, k: nat)
    requires i <= k < |times|
    ensures Gained(StepGains(p, times), i, k) == Gain(p.refillRatePerSecond, Forward(times, i, k))
    decreases k
  {
    if i < k {
      GainedIsForward(p, times, i, k - 1);
      GainAdds(p.refillRatePerSecond, Forward(times, i, k - 1), Elapsed(times[k - 1], times[k]));
      assert StepGains(p, times)[k - 1] == Gain(p.refillRatePerSecond, Elapsed(times[k - 1], times[k]));
    }
  }

  /** What a window lets its requests spend. */
  function Allowance(p: Policy, times: seq<nat>, i: nat, k: nat): real
    requires i <= k < |times|
  {
    p.capacity as real + Gain(p.refillRatePerSecond, Forward(times, i, k))
  }

  lemma BudgetIsAllowance(p: Policy, times: seq<nat>, i: nat, k: nat)
    requires i <= k < |times|
    ensures Budget(p, StepGains(p, times), i, k) == Allowance(p, times, i, k) - Spent(p, times, i, k) as real
  {
    BudgetIsSum(p, StepGains(p, times), i, k);
    SpentIsSpentAt(p, times, i, k);
    GainedIsForward(p, times, i, k);
  }

  /** Request k is allowed if and only if, with it, no window that ends in it spends more
      than the capacity plus what the forward clock steps of the window refill: the rate
      bound holds however the clock steps, and nothing is denied that it permits. */
  lemma RateIsExact(p: Policy, times: seq<nat>, k: nat)
    requires k < |times|
    ensures AllowedAt(p, times, k) <==>
            forall i :: 0 <= i <= k ==>
              (Spent(p, times, i, k) + p.cost) as real <= Allowance(p, times, i, k)
  {
    RunIsLevel(p, times, k);
    var start := Envelope(p, StepGains(p, times), k);
    BudgetIsAllowance(p, times, start, k);
    forall i | 0 <= i <= k
      ensures Budget(p, StepGains(p, times), i, k) == Allowance(p, times, i, k) - Spent(p, times, i, k) as real
    {
      BudgetIsAllowance(p, times, i, k);
    }
  }

  /** The grants among the requests from i up to, not including, k. */
  function Grants(p: Policy, times: seq<nat>, i: nat, k: nat): nat
    requires i <= k <= |times|
    decreases k
  {
    if i == k then 0 else Grants(p, times, i, k - 1) + if AllowedAt(p, times, k - 1) then 1 else 0
  }

  lemma CostOfOneMore(cost: int, grants: nat)
    ensures cost * (grants + 1) == cost * grants + cost
  {
  }

  /** What a window spends is the cost times the number of its grants. */
  lemma {:induction false} SpentCountsGrants(p: Policy, times: seq<nat>, i: nat, k: nat)
    requires i <= k <= |times|
    ensures Spent(p, times, i, k) == p.cost * Grants(p, times, i, k)
    decreases k
  {
    if i < k {
      SpentCountsGrants(p, times, i, k - 1);
      CostOfOneMore(p.cost, Grants(p, times, i, k - 1));
    }
  }

  // ---- The ticking bucket ------------------------------------------------------------

  /** The simple bucket: one small refill per elapsed millisecond. */
  function Tick(p: Policy, tokens: real, ms: nat): real {
    if ms == 0 then tokens
    else
      var more := Tick(p, tokens, ms - 1) + p.refillRatePerSecond / 1000.0;
      if more > p.capacity as real then p.capacity as real else more
  }

  lemma {:induction false} TicksAreOneRefill(p: Policy, tokens: real, ms: nat)
    requires tokens <= p.capacity as real
    ensures Tick(p, tokens, ms) == MinReal(p.capacity as real, tokens + Gain(p.refillRatePerSecond, ms))
  {
    if ms > 0 {
      TicksAreOneRefill(p, tokens, ms - 1);
      GainAdds(p.refillRatePerSecond, ms - 1, 1);
      GainIsMonotone(p.refillRatePerSecond, 0, 1);
    }
  }

  ghost predicate Nondecreasing(times: seq<nat>) {
    forall i, j :: 0 <= i <= j < |times| ==> times[i] <= times[j]
  }

  /** What the ticking bucket holds when request k comes. */
  function EagerAt(p: Policy, times: seq<nat>, k: nat): real
    requires k < |times|
    decreases k
  {
    if k == 0 then p.capacity as real
    else
      var before := EagerAt(p, times, k - 1);
      Tick(p, if before >= p.cost as real then before - p.cost as real else before,
           if times[k - 1] <= times[k] then times[k] - times[k - 1] else 0)
  }

  lemma EagerStep(p: Policy, times: seq<nat>, k: nat)
    requires 0 < k < |times| && EagerAt(p, times, k - 1) <= p.capacity as real
    ensures
      var left, ms := Left(p, EagerAt(p, times, k - 1)), Elapsed(times[k - 1], times[k]);
      EagerAt(p, times, k) == MinReal(p.capacity as real, left + Gain(p.refillRatePerSecond, ms))
  {
    TicksAreOneRefill(p, Left(p, EagerAt(p, times, k - 1)), Elapsed(times[k - 1], times[k]));
  }

  /** On every run the lazy bucket and the ticking bucket hold the same tokens at every
      request, so they take the same decisions and give the same answers. */
  lemma {:induction false} LazyEqualsTicking(p: Policy, times: seq<nat>, k: nat)
    requires k < |times|
    ensures Tokens(p, After(p, times[..k]), times[k]) == EagerAt(p, times, k)
    ensures AllowedAt(p, times, k) <==> EagerAt(p, times, k) >= p.cost as real
  {
    if k > 0 {
      LazyEqualsTicking(p, times, k - 1);
      RefillStep(p, times, k - 1);
      TokensInRange(p, After(p, times[..k - 1]), times[k - 1]);
      EagerStep(p, times, k);
    }
  }

  // ---- Denied polls ------------------------------------------------------------------

  /** From `since` on, the two states answer every request in the same way. */
  ghost predicate SameFrom(p: Policy, a: Option<Stored>, b: Option<Stored>, since: int) {
    forall now :: now >= since ==> Tokens(p, a, now) == Tokens(p, b, now)
  }

  /** Two clamped refills compose into one. */
  lemma RefillsCompose(p: Policy, stored: Option<Stored>, now: nat, later: int)
    requires stored.Some? ==> stored.value.lastRefillMs <= now
    requires now <= later
    ensures Tokens(p, Some(Stored(Tokens(p, stored, now), now)), later) == Tokens(p, stored, later)
  {
    TokensInRange(p, stored, now);
    GainIsMonotone(p.refillRatePerSecond, 0, later - now);
    if stored.Some? {
      GainAdds(p.refillRatePerSecond, now - stored.value.lastRefillMs, later - now);
    }
  }

  lemma DeniedPollChangesNothing(p: Policy, stored: Option<Stored>, now: nat)
    requires stored.Some? ==> stored.value.lastRefillMs <= now
    requires !Granted(p, stored, now)
    ensures SameFrom(p, Next(p, stored, now), stored, now)
  {
    forall later | later >= now
      ensures Tokens(p, Next(p, stored, now), later) == Tokens(p, stored, later)
    {
      RefillsCompose(p, stored, now, later);
    }
  }

  /** A poll that one of two equivalent states denies leaves them equivalent. */
  lemma DeniedByEither(p: Policy, a: Option<Stored>, b: Option<Stored>, since: int, now: nat)
    requires SameFrom(p, a, b, since) && since <= now
    requires a.Some? ==> a.value.lastRefillMs <= now
    requires !Granted(p, b, now)
    ensures !Granted(p, a, now) && SameFrom(p, Next(p, a, now), b, now)
  {
    assert Tokens(p, a, now) == Tokens(p, b, now);
    DeniedPollChangesNothing(p, a, now);
    forall later | later >= now
      ensures Tokens(p, Next(p, a, now), later) == Tokens(p, b, later)
    {
      assert Tokens(p, a, later) == Tokens(p, b, later);
    }
  }

  lemma LastRefill(p: Policy, times: seq<nat>)
    ensures times == [] ==> After(p, times) == None
    ensures times != [] ==> After(p, times).Some? && After(p, times).value.lastRefillMs == times[|times| - 1]
  {
  }

  /** The run without the requests that `keep` rejects. */
  function Kept(times: seq<nat>, keep: seq<bool>): seq<nat>
    requires |keep| == |times|
  {
    if times == [] then []
    else
      var last := |times| - 1;
      Kept(times[..last], keep[..last]) + if keep[last] then [times[last]] else []
  }

  /** On a nondecreasing clock any set of denied requests can be deleted from a run: every
      request, kept or later, still finds the same tokens and gets the same answer. */
  lemma {:induction false} DeniedPollsAreTransparent(p: Policy, times: seq<nat>, keep: seq<bool>, now: nat)
    requires |keep| == |times| && Nondecreasing(times + [now])
    requires forall k :: 0 <= k < |times| && !keep[k] ==> !AllowedAt(p, times, k)
    ensures SameFrom(p, After(p, times), After(p, Kept(times, keep)), now)
    ensures Answer(p, After(p, times), now) == Answer(p, After(p, Kept(times, keep)), now)
  {
    if times != [] {
      var last := |times| - 1;
      var t, init, keepInit := times[last], times[..last], keep[..last];
      assert (times + [now])[last] == t && (times + [now])[last + 1] == now;
      forall i, j | 0 <= i <= j < |init + [t]|
        ensures (init + [t])[i] <= (init + [t])[j]
      {
        assert (times + [now])[i] <= (times + [now])[j];
      }
      forall k | 0 <= k < |init| && !keepInit[k]
        ensures !AllowedAt(p, init, k)
      {
        assert init[..k] == times[..k];
      }
      DeniedPollsAreTransparent(p, init, keepInit, t);
      var full, kept := After(p, init), After(p, Kept(init, keepInit));
      if keep[last] {
        Snoc(p, Kept(init, keepInit), t);
      } else {
        assert !AllowedAt(p, times, last);
        LastRefill(p, init);
        if init != [] {
          assert (times + [now])[last - 1] <= (times + [now])[last];
        }
        DeniedPollChangesNothing(p, full, t);
        assert Kept(times, keep) == Kept(init, keepInit);
      }
    }
  }

  // ---- Waiting times -------------------------------------------------------------------

  /** The state after some more requests. */
  function Polled(p: Policy, stored: Option<Stored>, polls: seq<nat>): Option<Stored> {
    if polls == [] then stored else Next(p, Polled(p, stored, polls[..|polls| - 1]), polls[|polls| - 1])
  }

  /** The state denies each of these polls, which come in time order. */
  ghost predicate DeniedPolls(p: Policy, state: Stored, polls: seq<nat>, until: int) {
    if polls == [] then state.lastRefillMs <= until
    else
      var t := polls[|polls| - 1];
      t <= until && !Granted(p, Some(state), t) && DeniedPolls(p, state, polls[..|polls| - 1], t)
  }

  /** Polls that a state denies leave it as it was for all later requests. */
  lemma {:induction false} PollsStayDenied(p: Policy, state: Stored, polls: seq<nat>, until: int)
    requires DeniedPolls(p, state, polls, until)
    ensures SameFrom(p, Polled(p, Some(state), polls), Some(state), until)
    ensures
      var after := Polled(p, Some(state), polls);
      after.Some? && after.value.lastRefillMs <= until
    ensures forall k :: 0 <= k < |polls| ==> !Granted(p, Polled(p, Some(state), polls[..k]), polls[k])
  {
    if polls != [] {
      var last := |polls| - 1;
      var init, t := polls[..last], polls[last];
      PollsStayDenied(p, state, init, t);
      DeniedByEither(p, Polled(p, Some(state), init), Some(state), t, t);
      OneMoreDenied(p, state, init, t);
      assert polls == init + [t];
    }
  }

  lemma OneMoreDenied(p: Policy, state: Stored, polls: seq<nat>, last: nat)
    requires forall k :: 0 <= k < |polls| ==> !Granted(p, Polled(p, Some(state), polls[..k]), polls[k])
    requires !Granted(p, Polled(p, Some(state), polls), last)
    ensures
      var all := polls + [last];
      forall k :: 0 <= k < |all| ==> !Granted(p, Polled(p, Some(state), all[..k]), all[k])
  {
    var all := polls + [last];
    forall k | 0 <= k < |all|
      ensures !Granted(p, Polled(p, Some(state), all[..k]), all[k])
    {
      if k < |polls| {
        assert all[..k] == polls[..k];
      } else {
        assert all[..k] == polls;
      }
    }
  }

  /** After a decision at `now`, a request at `t` succeeds exactly from the retry time on
      if that decision was a denial, and the bucket is full exactly from the reset time on. */
  lemma WaitingTimes(p: Policy, stored: Option<Stored>, now: nat, t: nat)
    requires t >= now
    ensures !Granted(p, stored, now) ==>
              (Granted(p, Next(p, stored, now), t) <==> t >= now + Answer(p, stored, now).retryAfterMs)
    ensures Tokens(p, Next(p, stored, now), t) == p.capacity as real
            <==> t >= now + Answer(p, stored, now).resetAfterMs
  {
    TokensInRange(p, stored, now);
    var left := Left(p, Tokens(p, stored, now));
    GainIsMonotone(p.refillRatePerSecond, 0, t - now);
    WaitIsExact(p.cost as real - left, p.refillRatePerSecond, t - now);
    WaitIsExact(p.capacity as real - left, p.refillRatePerSecond, t - now);
  }

  /** Polls in time order, all from `now` on and before `end`, and none after `until`. */
  predicate PollsBefore(polls: seq<nat>, now: nat, end: int, until: int) {
    if polls == [] then now <= until
    else
      var t := polls[|polls| - 1];
      now <= t <= until && t < end && PollsBefore(polls[..|polls| - 1], now, end, t)
  }

  lemma {:induction false} PollsAreDenied(p: Policy, stored: Option<Stored>, now: nat, polls: seq<nat>, until: int)
    requires !Granted(p, stored, now)
    requires PollsBefore(polls, now, now + Answer(p, stored, now).retryAfterMs, until)
    ensures DeniedPolls(p, Next(p, stored, now).value, polls, until)
  {
    if polls != [] {
      var t := polls[|polls| - 1];
      WaitingTimes(p, stored, now, t);
      PollsAreDenied(p, stored, now, polls[..|polls| - 1], t);
    }
  }

  /** The retry time is sound and tight however often the client polls in between: every
      poll before it is denied, and the first request from it on is granted. */
  lemma RetryTimeIsExact(p: Policy, stored: Option<Stored>, now: nat, polls: seq<nat>, t: nat)
    requires !Granted(p, stored, now)
    requires PollsBefore(polls, now, now + Answer(p, stored, now).retryAfterMs, t) && t >= now
    ensures
      var denied := Next(p, stored, now);
      && (forall k :: 0 <= k < |polls| ==> !Granted(p, Polled(p, denied, polls[..k]), polls[k]))
      && (Granted(p, Polled(p, denied, polls), t) <==> t >= now + Answer(p, stored, now).retryAfterMs)
  {
    var denied := Next(p, stored, now);
    PollsAreDenied(p, stored, now, polls, t);
    PollsStayDenied(p, denied.value, polls, t);
    assert Tokens(p, Polled(p, denied, polls), t) == Tokens(p, denied, t);
    WaitingTimes(p, stored, now, t);
  }

  /** The first request finds a full bucket, and a request whose clock is not ahead of the
      last one finds exactly what that one left. */
  lemma BackwardStepsRefillNothing(p: Policy, times: seq<nat>, k: nat)
    requires k < |times|
    ensures k == 0 ==> Tokens(p, After(p, times[..k]), times[k]) == p.capacity as real
    ensures k > 0 && times[k] <= times[k - 1] ==>
              var before := Tokens(p, After(p, times[..k - 1]), times[k - 1]);
              Tokens(p, After(p, times[..k]), times[k])
              == before - if AllowedAt(p, times, k - 1) then p.cost as real else 0.0
  {
    if k > 0 && times[k] <= times[k - 1] {
      RefillStep(p, times, k - 1);
      var before := Tokens(p, After(p, times[..k - 1]), times[k - 1]);
      TokensInRange(p, After(p, times[..k - 1]), times[k - 1]);
      assert Gain(p.refillRatePerSecond, Elapsed(times[k - 1], times[k])) == 0.0;
      assert Left(p, before) == before - if AllowedAt(p, times, k - 1) then p.cost as real else 0.0;
    }
  }

  // ---- Expiry --------------------------------------------------------------------------

  lemma TtlCoversRefillTwice(p: Policy)
    ensures Gain(p.refillRatePerSecond, p.StateTtlSeconds() * 500) >= p.capacity as real
    ensures p.StateTtlSeconds() >= 1
  {
    var q := p.capacity as real / p.refillRatePerSecond;
    var ttl := p.StateTtlSeconds();
    assert q * p.refillRatePerSecond == p.capacity as real;
    assert ttl as real / 2.0 >= q;
    assert (ttl as real / 2.0 - q) * p.refillRatePerSecond >= 0.0;
    assert Gain(p.refillRatePerSecond, ttl * 500) == ttl as real / 2.0 * p.refillRatePerSecond;
  }

  /** The lifetime is the least positive number of seconds in which an empty bucket would be
      filled twice. */
  lemma TtlIsLeast(p: Policy)
    ensures
      var ttl := p.StateTtlSeconds();
      && ttl >= 1
      && ttl as real * p.refillRatePerSecond >= 2.0 * p.capacity as real
      && (ttl > 1 ==> (ttl as real - 1.0) * p.refillRatePerSecond < 2.0 * p.capacity as real)
  {
    var rate, ttl := p.refillRatePerSecond, p.StateTtlSeconds();
    var q := p.capacity as real / rate * 2.0;
    assert q * rate == 2.0 * p.capacity as real;
    assert q <= ttl as real && (ttl > 1 ==> ttl as real - 1.0 < q);
    Below(q, rate, 2.0 * p.capacity as real, ttl as real);
    Below(q, rate, 2.0 * p.capacity as real, ttl as real - 1.0);
  }

  lemma Below(q: real, rate: real, full: real, x: real)
    requires rate > 0.0 && q * rate == full
    ensures x * rate < full <==> x < q
  {
    if x < q {
      assert (q - x) * rate > 0.0;
    } else {
      assert (x - q) * rate >= 0.0;
    }
  }

  /** Redis forgets the key before request k whenever `drops[k]` says so. */
  function AfterDrops(p: Policy, times: seq<nat>, drops: seq<bool>): Option<Stored>
    requires |drops| == |times|
  {
    if times == [] then None
    else
      var last := |times| - 1;
      var before := AfterDrops(p, times[..last], drops[..last]);
      Next(p, if drops[last] then None else before, times[last])
  }

  /** A drop is late when at least half of the key's lifetime has passed for the gateway. */
  ghost predicate LateDrops(p: Policy, times: seq<nat>, drops: seq<bool>) {
    && |drops| == |times|
    && forall k :: 1 <= k < |times| && drops[k] ==> times[k] - times[k - 1] >= p.StateTtlSeconds() * 500
  }

  /** A bucket that rests for half of its key's lifetime is full, as it is without the key. */
  lemma LateDropIsInvisible(p: Policy, times: seq<nat>, now: nat)
    requires times != [] ==> now - times[|times| - 1] >= p.StateTtlSeconds() * 500
    ensures Tokens(p, None, now) == Tokens(p, After(p, times), now)
  {
    if times != [] {
      var init, last := times[..|times| - 1], times[|times| - 1];
      TokensInRange(p, After(p, init), last);
      TtlCoversRefillTwice(p);
      GainIsMonotone(p.refillRatePerSecond, p.StateTtlSeconds() * 500, now - last);
    }
  }

  /** A run in which Redis drops keys from half of their lifetime on, at any of those
      moments or never, ends in the same state as a run in which keys never expire, and its
      last request found the same tokens and got the same answer. */
  lemma {:induction false} ExpiryIsUnobservable(p: Policy, times: seq<nat>, drops: seq<bool>)
    requires LateDrops(p, times, drops)
    ensures AfterDrops(p, times, drops) == After(p, times)
    ensures times != [] ==>
              var last := |times| - 1;
              var found := if drops[last] then None else AfterDrops(p, times[..last], drops[..last]);
              && Tokens(p, found, times[last]) == Tokens(p, After(p, times[..last]), times[last])
              && Answer(p, found, times[last]) == Answer(p, After(p, times[..last]), times[last])
  {
    if times != [] {
      var last := |times| - 1;
      ExpiryIsUnobservable(p, times[..last], drops[..last]);
      if drops[last] {
        LateDropIsInvisible(p, times[..last], times[last]);
      }
    }
  }

  /** A drop of an emptied bucket is invisible only when the bucket had the time to fill. */
  lemma EarlyDropIsObservable(p: Policy, last: nat, now: nat)
    requires last <= now
    ensures Tokens(p, None, now) == Tokens(p, Some(Stored(0.0, last)), now)
            <==> now - last >= Ceil(p.capacity as real / p.refillRatePerSecond * 1000.0)
  {
    WaitIsExact(p.capacity as real, p.refillRatePerSecond, now - last);
  }
}
