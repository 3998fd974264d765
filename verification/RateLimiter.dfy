/** From a script reply to the decision the gateway acts on. */
module RateLimiter {
  import opened Common
  import opened TokenBucket
  import opened BucketRuns

  datatype Decision = Decision(
    allowed: bool,
    limit: int,
    remaining: int,
    retryAfterSeconds: int,
    resetAfterSeconds: int)
  {
    /** The checks of the decision's constructor. */
    predicate Valid() {
      && limit >= 1
      && 0 <= remaining <= limit
      && retryAfterSeconds >= 0
      && resetAfterSeconds >= 0
      && (allowed ==> retryAfterSeconds == 0)
    }
  }

  datatype CheckError =
    | InvalidClock
    | InvalidDecisionFlag
    | InvalidMeasurements
    | DecisionRejected
    | BackendUnavailable
    | ScriptFailed(error: ScriptError)

  function ParseResult(capacity: int, reply: Reply): Result<Decision, CheckError> {
    if reply.allowed != 0 && reply.allowed != 1 then Err(InvalidDecisionFlag)
    else if reply.retryAfterMs < 0 || reply.resetAfterMs < 0 then Err(InvalidMeasurements)
    else
      var decision := Decision(
        reply.allowed == 1,
        capacity,
        Max(0, Min(capacity, reply.tokens.Floor)),
        if reply.allowed == 1 then 0 else CeilSeconds(reply.retryAfterMs),
        CeilSeconds(reply.resetAfterMs));
      if decision.Valid() then Ok(decision) else Err(DecisionRejected)
  }

  /** Every reply of the script is accepted by the parser and by the decision's checks; the
      waiting times are the least numbers of whole seconds that cover the script's. */
  lemma EveryReplyParses(p: Policy, stored: Option<Stored>, now: nat)
    ensures
      var reply := Answer(p, stored, now);
      var parsed := ParseResult(p.capacity, reply);
      && parsed.Ok?
      && parsed.value.Valid()
      && (parsed.value.allowed <==> Granted(p, stored, now))
      && parsed.value.remaining == Left(p, Tokens(p, stored, now)).Floor
      && (!parsed.value.allowed ==>
            && parsed.value.retryAfterSeconds >= 1
            && 1000 * (parsed.value.retryAfterSeconds - 1) < reply.retryAfterMs
            && reply.retryAfterMs <= 1000 * parsed.value.retryAfterSeconds)
      && 1000 * (parsed.value.resetAfterSeconds - 1) < reply.resetAfterMs <= 1000 * parsed.value.resetAfterSeconds
  {
    TokensInRange(p, stored, now);
    var tokens, rate := Tokens(p, stored, now), p.refillRatePerSecond;
    QuotientPositive(p.capacity as real - Left(p, tokens), rate);
    if !Granted(p, stored, now) {
      WaitIsExact(p.cost as real - tokens, rate, 0);
    }
  }

  /** Which replies the parser refuses, and what it makes of the others. */
  lemma ParserInWords(capacity: int, reply: Reply)
    requires capacity >= 1
    ensures
      var parsed := ParseResult(capacity, reply);
      && (parsed == Err(InvalidDecisionFlag) <==> reply.allowed < 0 || reply.allowed > 1)
      && (parsed == Err(InvalidMeasurements) <==>
            0 <= reply.allowed <= 1 && (reply.retryAfterMs < 0 || reply.resetAfterMs < 0))
      && (parsed.Ok? <==> 0 <= reply.allowed <= 1 && reply.retryAfterMs >= 0 && reply.resetAfterMs >= 0)
      && (parsed.Ok? ==>
            var d := parsed.value;
            && (d.allowed <==> reply.allowed == 1)
            && d.limit == capacity
            && (0.0 <= reply.tokens <= capacity as real ==>
                  d.remaining as real <= reply.tokens < d.remaining as real + 1.0)
            && (reply.tokens < 0.0 ==> d.remaining == 0)
            && (reply.tokens > capacity as real ==> d.remaining == capacity))
  {
  }

  /** The decision in terms of the bucket before and after: the remaining tokens rounded down,
      and the least numbers of whole seconds after which a denied request is granted and the
      bucket is full. */
  lemma DecisionInWords(p: Policy, stored: Option<Stored>, now: nat)
    ensures
      var parsed := ParseResult(p.capacity, Answer(p, stored, now));
      var found, after := Tokens(p, stored, now), Next(p, stored, now);
      && parsed.Ok?
      && var d := parsed.value;
      && (d.allowed <==> found >= p.cost as real)
      && d.remaining == (if d.allowed then found - p.cost as real else found).Floor
      && SecondsAreLeast(p, d, after, now)
  {
    EveryReplyParses(p, stored, now);
    var d := ParseResult(p.capacity, Answer(p, stored, now)).value;
    var after := Next(p, stored, now);
    if !d.allowed {
      WaitingTimes(p, stored, now, now + 1000 * d.retryAfterSeconds);
      WaitingTimes(p, stored, now, now + 1000 * (d.retryAfterSeconds - 1));
    }
    WaitingTimes(p, stored, now, now + 1000 * d.resetAfterSeconds);
    if d.resetAfterSeconds > 0 {
      WaitingTimes(p, stored, now, now + 1000 * (d.resetAfterSeconds - 1));
    }
  }

  predicate SecondsAreLeast(p: Policy, d: Decision, after: Option<Stored>, now: nat) {
    && (if d.allowed then d.retryAfterSeconds == 0
        else
          && d.retryAfterSeconds >= 1
          && !Granted(p, after, now + 1000 * (d.retryAfterSeconds - 1))
          && Granted(p, after, now + 1000 * d.retryAfterSeconds))
    && d.resetAfterSeconds >= 0
    && Tokens(p, after, now + 1000 * d.resetAfterSeconds) == p.capacity as real
    && (d.resetAfterSeconds > 0 ==> Tokens(p, after, now + 1000 * (d.resetAfterSeconds - 1)) != p.capacity as real)
  }

  /** A client that was denied and waits the seconds it was told is granted, however often
      it polled in between, and after the reset seconds the bucket is full. */
  lemma SecondsAreSufficient(p: Policy, stored: Option<Stored>, now: nat, polls: seq<nat>, t: nat)
    requires t >= now && PollsBefore(polls, now, now + Answer(p, stored, now).retryAfterMs, t)
    ensures
      var parsed := ParseResult(p.capacity, Answer(p, stored, now));
      && parsed.Ok?
      && var decision := parsed.value;
      && (!decision.allowed && t >= now + 1000 * decision.retryAfterSeconds ==>
            Granted(p, Polled(p, Next(p, stored, now), polls), t))
      && (t >= now + 1000 * decision.resetAfterSeconds ==> Tokens(p, Next(p, stored, now), t) == p.capacity as real)
  {
    EveryReplyParses(p, stored, now);
    var decision := ParseResult(p.capacity, Answer(p, stored, now)).value;
    WaitingTimes(p, stored, now, t);
    if !decision.allowed {
      RetryTimeIsExact(p, stored, now, polls, t);
    }
  }

  /** The limiter of one identity under one policy. */
  class RedisRateLimiter {
    const policy: Policy
    const key: BucketKey

    constructor (policy: Policy, key: BucketKey)
      ensures this.policy == policy && this.key == key
    {
      this.policy, this.key := policy, key;
    }

    method Check(nowMs: int, backend: Backend) returns (result: Result<Decision, CheckError>)
      modifies key
      ensures nowMs < 0 ==> result == Err(InvalidClock)
      ensures nowMs >= 0 && backend.Down? ==> result == Err(BackendUnavailable)
      ensures nowMs < 0 || (backend.Down? && !backend.applied) ==>
                key.stored == old(key.stored) && key.ttlMs == old(key.ttlMs)
      ensures nowMs >= 0 && (backend.Up? || backend.applied) ==>
                && key.stored == Next(policy, old(key.stored), nowMs)
                && key.ttlMs == Some(policy.StateTtlSeconds() * 1000)
      ensures nowMs >= 0 && backend.Up? ==>
                && result.Ok?
                && result == ParseResult(policy.capacity, Answer(policy, old(key.stored), nowMs))
                && result.value.Valid()
                && result.value.limit == policy.capacity
                && (result.value.allowed <==> Granted(policy, old(key.stored), nowMs))
                && SecondsAreLeast(policy, result.value, key.stored, nowMs)
    {
      if nowMs < 0 {
        return Err(InvalidClock);
      }
      if backend.Down? && !backend.applied {
        return Err(BackendUnavailable);
      }
      ScriptTakesOneStep(policy, key.stored, nowMs);
      EveryReplyParses(policy, key.stored, nowMs);
      DecisionInWords(policy, key.stored, nowMs);
      var raw := key.Eval(policy.capacity as real, policy.refillRatePerSecond, policy.cost as real,
                          nowMs, policy.StateTtlSeconds() * 1000);
      if backend.Down? {
        return Err(BackendUnavailable);
      }
      match raw
      case Err(error) => result := Err(ScriptFailed(error));
      case Ok(reply) => result := ParseResult(policy.capacity, reply);
    }
  }
}
