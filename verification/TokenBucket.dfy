/**
 The token bucket script of gateway/app/rate_limit/scripts.py over exact reals, as the
 object that Redis keeps under one key, with the policy that drives it.
 */
module TokenBucket {
  import opened Common

  datatype RawPolicy = Policy(capacity: int, refillRatePerSecond: real, cost: int)
  {
    predicate Valid() {
      && 1 <= capacity <= 1_000_000
      && 0.0 < refillRatePerSecond <= 1_000_000.0
      && 1 <= cost <= capacity
    }

    function StateTtlSeconds(): int
      requires refillRatePerSecond != 0.0
    {
      Max(1, Ceil(capacity as real / refillRatePerSecond * 2.0))
    }
  }

  /** A policy that passed the constructor checks. */
  type Policy = p: RawPolicy | p.Valid() witness Policy(1, 1.0, 1)

  /** The hash fields; without either of them the script starts from a full bucket. */
  datatype Stored = Stored(tokens: real, lastRefillMs: int)

  datatype ScriptError = InvalidCapacity | InvalidRefillRate | InvalidTokenCost | InvalidTimestamp | InvalidTtl

  datatype Reply = Reply(allowed: int, tokens: real, retryAfterMs: int, resetAfterMs: int)

  /** Tokens that `ms` milliseconds add. */
  function Gain(rate: real, ms: int): real { ms as real * rate / 1000.0 }

  /** A backward clock step counts as no time. */
  function Elapsed(since: int, now: int): nat { Max(0, now - since) }

  /** Tokens in the bucket at `now`, before the decision. */
  function Available(capacity: real, rate: real, stored: Option<Stored>, now: int): real {
    match stored
    case None => capacity
    case Some(s) =>
      MinReal(capacity, MaxReal(0.0, MinReal(capacity, s.tokens)) + Gain(rate, Elapsed(s.lastRefillMs, now)))
  }

  /** The decision on a bucket that holds `available` tokens. */
  function Decide(capacity: real, rate: real, requested: real, available: real): Reply
    requires rate != 0.0
  {
    var left := if available >= requested then available - requested else available;
    Reply(if available >= requested then 1 else 0,
          left,
          if available >= requested then 0 else Ceil((requested - available) / rate * 1000.0),
          Ceil((capacity - left) / rate * 1000.0))
  }

  function Script(capacity: real, rate: real, requested: real, now: int, ttl: int, stored: Option<Stored>)
    : (Option<Stored>, Result<Reply, ScriptError>)
  {
    if capacity <= 0.0 then (stored, Err(InvalidCapacity))
    else if rate <= 0.0 then (stored, Err(InvalidRefillRate))
    else if requested <= 0.0 then (stored, Err(InvalidTokenCost))
    else if now < 0 then (stored, Err(InvalidTimestamp))
    else if ttl <= 0 then (stored, Err(InvalidTtl))
    else
      var reply := Decide(capacity, rate, requested, Available(capacity, rate, stored, now));
      (Some(Stored(reply.tokens, now)), Ok(reply))
  }

  /** Which argument error the script answers: the first that applies, and none for good
      arguments; an error leaves what is stored alone. */
  lemma ScriptFailsExactly(capacity: real, rate: real, requested: real, now: int, ttl: int, stored: Option<Stored>)
    ensures
      var (after, result) := Script(capacity, rate, requested, now, ttl, stored);
      && (result == Err(InvalidCapacity) <==> capacity <= 0.0)
      && (result == Err(InvalidRefillRate) <==> capacity > 0.0 && rate <= 0.0)
      && (result == Err(InvalidTokenCost) <==> capacity > 0.0 && rate > 0.0 && requested <= 0.0)
      && (result == Err(InvalidTimestamp) <==> capacity > 0.0 && rate > 0.0 && requested > 0.0 && now < 0)
      && (result == Err(InvalidTtl) <==> capacity > 0.0 && rate > 0.0 && requested > 0.0 && now >= 0 && ttl <= 0)
      && (result.Err? ==> after == stored)
  {
  }

  /** What the bucket holds, in plain numbers: what was stored, within the capacity, and the
      rate times the time that has passed. A clock that stood still or stepped back adds nothing. */
  lemma AvailableIsPlain(capacity: real, rate: real, stored: Option<Stored>, now: int)
    requires capacity > 0.0 && rate > 0.0
    ensures stored.None? ==> Available(capacity, rate, stored, now) == capacity
    ensures stored.Some? ==>
              var s := stored.value;
              var kept := if s.tokens < 0.0 then 0.0 else if s.tokens > capacity then capacity else s.tokens;
              && (now <= s.lastRefillMs ==> Available(capacity, rate, stored, now) == kept)
              && (now > s.lastRefillMs ==>
                    var full := kept + (now - s.lastRefillMs) as real * rate / 1000.0;
                    Available(capacity, rate, stored, now) == if full > capacity then capacity else full)
  {
  }

  /** One Redis key. `ttlMs` is the lifetime the last PEXPIRE gave it. */
  class BucketKey {
    var stored: Option<Stored>
    var ttlMs: Option<int>

    constructor ()
      ensures stored == None && ttlMs == None
    {
      stored, ttlMs := None, None;
    }

    /** The script, line by line; an argument error leaves the key alone. */
    method Eval(capacity: real, refillRate: real, requested: real, nowMs: int, ttl: int)
      returns (result: Result<Reply, ScriptError>)
      modifies this
      ensures (stored, result) == Script(capacity, refillRate, requested, nowMs, ttl, old(stored))
      ensures ttlMs == if result.Ok? then Some(ttl) else old(ttlMs)
    {
      if capacity <= 0.0 { return Err(InvalidCapacity); }
      if refillRate <= 0.0 { return Err(InvalidRefillRate); }
      if requested <= 0.0 { return Err(InvalidTokenCost); }
      if nowMs < 0 { return Err(InvalidTimestamp); }
      if ttl <= 0 { return Err(InvalidTtl); }

      var tokens, lastRefillMs := capacity, nowMs;
      if stored.Some? {
        tokens, lastRefillMs := stored.value.tokens, stored.value.lastRefillMs;
      }
      tokens := MaxReal(0.0, MinReal(capacity, tokens));
      var elapsedMs := Max(0, nowMs - lastRefillMs);
      var refilledTokens := tokens + Gain(refillRate, elapsedMs);
      tokens := MinReal(capacity, refilledTokens);

      var allowed, retryAfterMs := 0, 0;
      if tokens >= requested {
        allowed := 1;
        tokens := tokens - requested;
      } else {
        retryAfterMs := Ceil((requested - tokens) / refillRate * 1000.0);
      }
      var resetAfterMs := Ceil((capacity - tokens) / refillRate * 1000.0);

      stored := Some(Stored(tokens, nowMs));
      ttlMs := Some(ttl);
      return Ok(Reply(allowed, tokens, retryAfterMs, resetAfterMs));
    }
  }

  lemma QuotientPositive(x: real, rate: real)
    requires rate > 0.0 && x >= 0.0
    ensures x / rate >= 0.0
  {
    assert x / rate * rate == x;
  }

  lemma GainAdds(rate: real, a: int, b: int)
    ensures Gain(rate, a + b) == Gain(rate, a) + Gain(rate, b)
  {
    assert (a + b) as real * rate == a as real * rate + b as real * rate;
  }

  lemma GainIsMonotone(rate: real, a: int, b: int)
    requires rate > 0.0 && a <= b
    ensures Gain(rate, a) <= Gain(rate, b)
  {
    assert (b - a) as real * rate >= 0.0;
    GainAdds(rate, a, b - a);
  }

  /** A wait of `ms` gains `x` tokens exactly from the rounded-up waiting time on. */
  lemma WaitIsExact(x: real, rate: real, ms: int)
    requires rate > 0.0
    ensures Gain(rate, ms) >= x <==> ms >= Ceil(x / rate * 1000.0)
  {
    var q := x / rate * 1000.0;
    assert q * rate / 1000.0 == x;
    assert Gain(rate, ms) - x == (ms as real - q) * rate / 1000.0;
    if ms >= Ceil(q) {
      assert (ms as real - q) * rate >= 0.0;
    } else {
      assert ms as real < q;
      assert (ms as real - q) * rate < 0.0;
    }
  }

  /** Whatever was stored, the bucket holds between nothing and its capacity. */
  lemma AvailableInRange(capacity: real, rate: real, stored: Option<Stored>, now: int)
    requires capacity > 0.0 && rate > 0.0
    ensures 0.0 <= Available(capacity, rate, stored, now) <= capacity
  {
    if stored.Some? {
      GainIsMonotone(rate, 0, Elapsed(stored.value.lastRefillMs, now));
    }
  }
}
