/**
 The three login-protection scripts of gateway/app/rate_limit/login_scripts.py on the
 hash that Redis keeps for one account. Instants are milliseconds of the one clock that
 the gateway and Redis share.
 */
module LoginScripts {
  import opened Common

  datatype RawPolicy = LoginPolicy(failureThreshold: int, failureWindowSeconds: int, lockoutSeconds: int)
  {
    predicate Valid() {
      && 1 <= failureThreshold <= 100
      && 1 <= failureWindowSeconds <= 86_400
      && 1 <= lockoutSeconds <= 86_400
    }

    function WindowMs(): int { failureWindowSeconds * 1000 }

    function LockoutMs(): int { lockoutSeconds * 1000 }
  }

  /** A policy that passed the constructor checks. */
  type Policy = p: RawPolicy | p.Valid() witness LoginPolicy(1, 1, 1)

  /** The stored hash and the deadline of its TTL; `lockedUntil` is 0 while the field is absent. */
  datatype Record = Record(failures: int, lockedUntil: int, expiresAt: int)

  datatype Reply = Reply(locked: int, failures: int, retryAfterMs: int)

  datatype ScriptError = InvalidThreshold | InvalidTimestamp | InvalidWindow | InvalidLockout

  /** What a script finds at `now`. Redis hides a key once its deadline has passed; for a
      lock that has ended, `drop` leaves open when that happens. */
  function Live(record: Option<Record>, now: int, drop: bool): Option<Record> {
    match record
    case None => None
    case Some(r) =>
      if r.lockedUntil > 0 then (if now >= r.expiresAt && drop then None else record)
      else if now > r.expiresAt then None else record
  }

  function LockStatus(record: Option<Record>, now: int): (Option<Record>, Reply) {
    match record
    case None => (None, Reply(0, 0, 0))
    case Some(r) =>
      if r.lockedUntil > now then (record, Reply(1, r.failures, r.lockedUntil - now))
      else if r.lockedUntil > 0 then (None, Reply(0, 0, 0))
      else (record, Reply(0, r.failures, 0))
  }

  /** A lock check deletes the record of a lock that has ended, and nothing else. */
  lemma ChecksDeleteEndedLocks(record: Option<Record>, now: int)
    ensures record.Some? && 0 < record.value.lockedUntil <= now ==> LockStatus(record, now).0 == None
    ensures record.None? || record.value.lockedUntil <= 0 || record.value.lockedUntil > now ==>
              LockStatus(record, now).0 == record
  {
  }

  function RecordFailure(threshold: int, now: int, windowMs: int, lockoutMs: int, record: Option<Record>)
    : (Option<Record>, Reply)
  {
    if record.Some? && record.value.lockedUntil > now then
      (record, Reply(1, record.value.failures, record.value.lockedUntil - now))
    else
      var before := if record.None? || record.value.lockedUntil > 0 then 0 else record.value.failures;
      var failures := before + 1;
      if failures >= threshold then
        (Some(Record(failures, now + lockoutMs, now + lockoutMs)), Reply(1, failures, lockoutMs))
      else
        (Some(Record(failures, 0, now + windowMs)), Reply(0, failures, 0))
  }

  /** The Redis key of one account: the scripts, line by line. `Access` is the moment at
      which Redis decides whether the key is still there. */
  class LoginKey {
    var present: bool
    var failuresField: int
    var lockedUntilField: int
    var deadline: int

    ghost function Value(): Option<Record>
      reads this
    {
      if present then Some(Record(failuresField, lockedUntilField, deadline)) else None
    }

    constructor ()
      ensures Value() == None
    {
      present, failuresField, lockedUntilField, deadline := false, 0, 0, 0;
    }

    method Access(now: int, drop: bool)
      modifies this
      ensures Value() == Live(old(Value()), now, drop)
    {
      if present {
        if lockedUntilField > 0 {
          if now >= deadline && drop {
            present := false;
          }
        } else if now > deadline {
          present := false;
        }
      }
    }

    method LockStatusScript(now: int) returns (result: Result<Reply, ScriptError>)
      modifies this
      ensures now < 0 ==> result == Err(InvalidTimestamp) && Value() == old(Value())
      ensures now >= 0 ==> result.Ok? && (Value(), result.value) == LockStatus(old(Value()), now)
    {
      if now < 0 { return Err(InvalidTimestamp); }
      var failures := if present then failuresField else 0;
      var lockedUntil := if present then lockedUntilField else 0;
      if lockedUntil > now {
        return Ok(Reply(1, failures, lockedUntil - now));
      }
      if lockedUntil > 0 {
        present := false;
        return Ok(Reply(0, 0, 0));
      }
      return Ok(Reply(0, failures, 0));
    }

    method FailureScript(threshold: int, now: int, windowMs: int, lockoutMs: int)
      returns (result: Result<Reply, ScriptError>)
      modifies this
      ensures result.Err? <==> threshold <= 0 || now < 0 || windowMs <= 0 || lockoutMs <= 0
      ensures result == Err(InvalidThreshold) <==> threshold <= 0
      ensures result == Err(InvalidTimestamp) <==> threshold > 0 && now < 0
      ensures result == Err(InvalidWindow) <==> threshold > 0 && now >= 0 && windowMs <= 0
      ensures result.Err? ==> Value() == old(Value())
      ensures result.Ok? ==>
                (Value(), result.value) == RecordFailure(threshold, now, windowMs, lockoutMs, old(Value()))
    {
      if threshold <= 0 { return Err(InvalidThreshold); }
      if now < 0 { return Err(InvalidTimestamp); }
      if windowMs <= 0 { return Err(InvalidWindow); }
      if lockoutMs <= 0 { return Err(InvalidLockout); }
      var failures := if present then failuresField else 0;
      var lockedUntil := if present then lockedUntilField else 0;
      if lockedUntil > now {
        return Ok(Reply(1, failures, lockedUntil - now));
      }
      if lockedUntil > 0 {
        present := false;
        failures := 0;
      }
      failures := failures + 1;
      present, failuresField := true, failures;
      if failures >= threshold {
        lockedUntil := now + lockoutMs;
        lockedUntilField := lockedUntil;
        deadline := now + lockoutMs;
        return Ok(Reply(1, failures, lockoutMs));
      }
      lockedUntilField := 0;
      deadline := now + windowMs;
      return Ok(Reply(0, failures, 0));
    }

    /** DEL answers how many keys it removed. */
    method ResetScript() returns (deleted: int)
      modifies this
      ensures Value() == None
      ensures deleted == if old(Value()).Some? then 1 else 0
    {
      deleted := if present then 1 else 0;
      present := false;
    }
  }
}
