# Verified model of the gateway's protection logic

This project models, in Dafny, the parts of the secure API gateway that decide under
concurrency and time: the per-service circuit breaker with its retrying executor, the Redis
token bucket, the login lockout with the protocol that uses it, and the role queries. It
proves what these promise over whole runs, for any number of interleaved callers.

`dafny verify dfyconfig.toml` checks everything.

## How the program is modelled

- **Circuit breaker** (`CircuitBreaker.dfy`, `BreakerHistory.dfy`, `ServiceCircuitBreaker.dfy`).
  One value function per lock section, and the class with the code's fields and branches,
  proved against those functions. A history records permits, completions, transitions and
  events; `Valid()` says that it is the history of some run. The lock sections contain no
  suspension point, so each is one step.
- **Executor and registry** (`RetryPolicy.dfy`, `Executor.dfy`, `CallSystem.dfy`,
  `Registry.dfy`). `Attempts` is the retry loop; its inputs say what the other calls have done
  to the breaker at each suspension point, which is any run of breaker operations.
  `CallSystem` interleaves unboundedly many calls. As
  in `executor.py:60-75`, the executor has settings of its own beside the breakers'.
- **Token bucket** (`TokenBucket.dfy`, `BucketRuns.dfy`, `RateLimiter.dfy`). The script as a
  method over one key, its runs, and the parser of its answers.
- **Login lockout** (`LoginScripts.dfy`, `LoginLog.dfy`, `LoginThroughput.dfy`,
  `LoginProtocol.dfy`, `LoginProtection.dfy`, `LoginConcurrency.dfy`). The three scripts on one
  hash, the log of failures they refine, the throughput bound, `issue_access_token` both as a
  method and as a protocol of unboundedly many attempts, and how many passwords a lock lets
  through.
- **Authorization** (`Authorization.dfy`). The queries and updates over arbitrary tables of
  rows: the join as nested steps, EXISTS as a search that stops at the first match.

Runs are total: a step that is impossible in a state leaves it unchanged, so the theorems
about runs need no hypothesis about callers beyond what their `requires` say.

Hypotheses about the surroundings:

- Clocks and token counts are exact: reals for the monotonic clock and the tokens, integers
  for milliseconds. The breakers share one nondecreasing clock. Redis and the gateway share
  one nondecreasing clock in the login part; the rate characterization also covers clocks
  that step backwards, and bucket expiry is proved for a Redis clock up to twice as fast.
- Reading the clock and running the script are one instant. The code reads the clock before
  it awaits Redis (`login.py:249-251` and `276-280`), so two scripts could run with their
  timestamps out of order; that is not modelled.
- Redis shows a key up to and including its deadline (`now <= deadline`). When an ended lock
  disappears is left open.
- How an upstream request ends is an input: a response, an `httpx.RequestError` of one of four
  kinds, a cancellation, or any other exception. A Redis or database failure is an input that
  also says whether the command had taken effect.

## Where the code does less than it promises

- A probe that ends in an exception other than `httpx.RequestError` or a cancellation passes
  both handlers of `execute`, and the docstring's "until that probe succeeds or fails" never
  comes true: the breaker rejects every later call. `CallSystem.WedgeIsReachable` builds such
  a run for all settings, `WedgedForever` shows that it lasts, and
  `RecoversIffProbesAnswered` shows that this is the only way to lose recovery.
- The lockout bounds counted failures, not verified passwords: a lock check reserves nothing,
  so any number of attempts that checked before the lock still verify during it
  (`LoginConcurrency.AnyNumberVerifiesDuringLock`), and no other attempts do
  (`VerificationsDuringLock`).
- "At most threshold failures per started lockout and threshold - 1 more" is not a law of
  the lockout: failures that come more slowly than the failure window are counted for ever
  without a lock. It holds if and only if threshold x (window + 1 ms) >= (threshold - 1) x
  lockout (`LoginThroughput.BoundHoldsExactlyForLongWindows`). The policy that the gateway
  ships, with a window of 900 s and a lockout of 300 s, meets the condition.

## Model

| member | source | states |
|---|---|---|
| Spacing.WindowBound | gateway/app/proxy/resilience.py:388-416 | events at least a gap apart fit at most floor(T / gap) + 1 times into a window of length T |
| BreakerHistory.GenerationSafety | gateway/app/proxy/resilience.py:189-205 | in every run a current-generation probe permit exists exactly in HALF_OPEN and was issued once; current ordinary permits exist only in CLOSED |
| BreakerHistory.GuardsAreRedundant | gateway/app/proxy/resilience.py:367-619 | a breaker without the state guards behind the generation check and without the second probe branch runs step for step alike |
| BreakerHistory.StaleCompletionIgnored | gateway/app/proxy/resilience.py:448-452 | a completion of an older generation changes and reports nothing |
| BreakerHistory.CompletionSpendsProbe | gateway/app/proxy/resilience.py:454-541 | generations never go back, and completing a probe, in whatever way, makes its permit stale |
| BreakerHistory.CounterRefinesLog | gateway/app/proxy/resilience.py:543-562 | while CLOSED the counter is the trailing failure run of the current generation; otherwise it is the threshold |
| BreakerHistory.TripsExactlyAtThreshold | gateway/app/proxy/resilience.py:549-570 | an ordinary completion opens the circuit if and only if it is a current failure with which that run reaches the threshold |
| BreakerHistory.OpeningsAndProbesAreSpaced | gateway/app/proxy/resilience.py:342-432 | openings, and probe admissions, are a recovery timeout apart; any window holds at most floor(T / timeout) + 1 of each |
| BreakerHistory.EventsReplayState | gateway/app/proxy/executor.py:94-152 | the last opened/recovered event is "opened" exactly while the circuit is not CLOSED |
| BreakerHistory.StepLogsTransitions | gateway/app/proxy/executor.py:94-152 | in every run a step reports an opening exactly when the circuit becomes OPEN and a recovery exactly when it becomes CLOSED, one event at most, with the instant; a probe is logged exactly when it becomes HALF_OPEN |
| ServiceBreaker.ServiceCircuitBreaker.RetryAfterUnlocked | gateway/app/proxy/resilience.py:342-365 | zero exactly from the end of the recovery timeout on; otherwise the least number of whole seconds that reaches it |
| ServiceBreaker.ServiceCircuitBreaker.BeforeRequest | gateway/app/proxy/resilience.py:367-432 | the method takes the admission step on its history; a rejection changes nothing and tells one second in HALF_OPEN, in OPEN the least whole seconds to the end of the recovery timeout |
| ServiceBreaker.ServiceCircuitBreaker.RecordSuccess | gateway/app/proxy/resilience.py:434-489 | the method takes the completion step; true exactly when a current probe closes the circuit |
| ServiceBreaker.ServiceCircuitBreaker.RecordFailure | gateway/app/proxy/resilience.py:491-572 | the method takes the completion step; true exactly when it moves the circuit to OPEN, stamped with the clock |
| ServiceBreaker.ServiceCircuitBreaker.RecordNeutral | gateway/app/proxy/resilience.py:574-619 | the method takes the completion step; true exactly when a current probe is handed back, and the counter never moves |
| RetryPolicy.BackoffBound | gateway/app/proxy/executor.py:154-172 | the sleeps before n attempts total at most 2(n - 1) and base x (2^(n-1) - 1) seconds |
| RetryPolicy.DelaysInWords | gateway/app/proxy/executor.py:154-172 | the first delay is the base, each later one twice the one before, and none is above two seconds |
| RetryPolicy.BackoffInWords | gateway/app/proxy/executor.py:154-172 | the exact total backoff of one, two and three attempts, which is all that the settings permit |
| RetryPolicy.OutlineInWords | gateway/app/proxy/resilience.py:208-291 | a connection failure (connect error or connect timeout) of GET, HEAD or OPTIONS below the limit is tried again except by a probe, so it ends a call only by a cancellation in the sleep; otherwise the last reply gives the result; statuses 500 to 599 and transport errors other than a pool timeout are failures, all other statuses successes |
| RetryPolicy.DeliveryIsBounded | gateway/app/proxy/executor.py:202-304 | only connection failures of safe methods are followed by another attempt, never for a probe; success, failure and neutral are recorded exactly for statuses outside 500..599, for 500..599 or transport errors other than a pool timeout, and for cancellations or pool timeouts; nothing is recorded exactly after an unhandled exception; the attempts determine result and completion |
| Executor.ResilientUpstreamExecutor.Attempts | gateway/app/proxy/executor.py:208-313 | the loop ends within its limit with the unique outline of its attempts and its total backoff; whatever the other calls did at its suspension points, the breaker ends with exactly the history they left, plus this call's one completion, or nothing after an unhandled exception; the exit without a result is unreachable |
| Executor.ResilientUpstreamExecutor.Finish | gateway/app/proxy/executor.py:254-313 | the end of a call appends exactly the one completion that its reply means, by status range and error kind, or none after an unhandled exception |
| Executor.ResilientUpstreamExecutor.Execute | gateway/app/proxy/executor.py:174-313 | admission decides between rejection, which changes nothing else, and one bounded call, after which the breaker has exactly the history the other calls left plus this call's one completion or none; with it the call leaves no probe of its own in flight; other services' breakers stay valid and untouched |
| Executor.StepsAreAsInMethod | gateway/app/proxy/executor.py:208-313 | among interleaved calls, each step of a call in flight tells the breaker what the method does, its one completion at its end and nothing before, and every other step is interference that the method allows |
| CallSystem.HistoriesAreRuns | gateway/app/proxy/executor.py:188-313 | what interleaved calls do to a breaker is a run of the breaker, so the results on counter, spacing and events apply to it |
| CallSystem.EveryCallCompletesOnce | gateway/app/proxy/executor.py:188-313 | under every interleaving each call keeps to its attempt limit, a finished one recorded exactly one completion and holds no current probe, any other none; and these are, with multiplicity, all the completions that the breaker was told |
| CallSystem.CompletionsCountFinishedCalls | gateway/app/proxy/executor.py:254-304 | in every run the breaker was told as many completions as there are finished calls |
| CallSystem.OverCallsFollowOutline | gateway/app/proxy/executor.py:208-313 | under every interleaving a call that is over has the outline of a sequential run of the loop on what its own attempts met; it crashed exactly if an unhandled exception escaped |
| CallSystem.OneProbeAtATime | gateway/app/proxy/resilience.py:305-308 | HALF_OPEN means exactly that an unfinished call holds the current probe, and no two calls share a probe |
| CallSystem.UnfinishedProbesAreCurrent | gateway/app/proxy/resilience.py:305-308 | in every run the permit of each probe that has not completed is of the current generation: no admitted probe becomes stale before its own completion |
| CallSystem.RecoversUnlessProbeCrashed | gateway/app/proxy/resilience.py:388-432 | with nothing in flight, a call is admitted after the recovery timeout if and only if no crashed call holds the current probe |
| CallSystem.RecoversIffProbesAnswered | gateway/app/proxy/resilience.py:388-432 | with nothing in flight, a call is admitted after the recovery timeout if and only if no step of the run let an exception outside the two handled kinds end the request of a probe |
| CallSystem.WedgedIffProbeUnanswered | gateway/app/proxy/executor.py:225-306 | a run wedges the breaker if and only if one of its steps let such an exception end the request of a probe |
| CallSystem.WedgedForever | gateway/app/proxy/resilience.py:418-423 | once the current probe crashed, no continuation admits a call or changes the circuit |
| CallSystem.WedgeIsReachable | gateway/app/proxy/executor.py:225-306 | for all settings there is a run whose probe ends in an unhandled exception and wedges the breaker |
| Registry.CircuitBreakerRegistry.constructor | gateway/app/proxy/resilience.py:649-677 | one fresh, valid and distinct breaker for each distinct name, and for no other |
| Registry.CircuitBreakerRegistry.Create | gateway/app/proxy/resilience.py:659-669 | fails exactly for an empty list of names |
| Registry.EventLogTellsState | gateway/app/proxy/executor.py:94-152 | in every run over all services each breaker's history is one of a single breaker, and its last event tells whether it is CLOSED |
| Registry.ServicesAreIsolated | gateway/app/proxy/resilience.py:640-691 | in every run over all services, a service's breaker, calls and events are those of a solo run on its own steps |
| TokenBucket.BucketKey.Eval | gateway/app/rate_limit/scripts.py:7-118 | the imperative script computes the decision function on the refilled tokens, with its five argument errors |
| TokenBucket.WaitIsExact | gateway/app/rate_limit/scripts.py:81-96 | x tokens are gained exactly from the rounded-up waiting time on |
| TokenBucket.AvailableInRange | gateway/app/rate_limit/scripts.py:50-72 | whatever is stored, the refilled bucket holds between zero and its capacity |
| TokenBucket.AvailableIsPlain | gateway/app/rate_limit/scripts.py:42-72 | the tokens found are the stored ones within [0, capacity] plus rate x forward milliseconds / 1000, up to the capacity; a clock that stood still or stepped back adds nothing |
| TokenBucket.ScriptFailsExactly | gateway/app/rate_limit/scripts.py:15-34 | which of the five argument errors is answered, and that an error leaves the key alone |
| BucketRuns.ScriptTakesOneStep | gateway/app/rate_limit/service.py:91-101 | the service's arguments never cause a script error |
| BucketRuns.RateIsExact | gateway/app/rate_limit/scripts.py:42-88 | a request is allowed if and only if every window ending in it, with it, spends at most capacity + rate x forward clock time; also on clocks that step back |
| BucketRuns.SpentCountsGrants | gateway/app/rate_limit/scripts.py:77-79 | what a window spends is the cost times its grants |
| BucketRuns.BackwardStepsRefillNothing | gateway/app/rate_limit/scripts.py:55-72 | in every run the first request finds a full bucket, and one whose clock is not ahead of the last finds exactly what that left |
| BucketRuns.LazyEqualsTicking | gateway/app/rate_limit/scripts.py:50-72 | on every run the closed-form refill and a bucket ticking every millisecond hold the same tokens and decide alike |
| BucketRuns.DeniedPollsAreTransparent | gateway/app/rate_limit/scripts.py:69-105 | deleting any set of denied requests leaves every later answer unchanged |
| BucketRuns.WaitingTimes | gateway/app/rate_limit/scripts.py:80-96 | after a decision, a denied request succeeds exactly from the retry time on and the bucket is full exactly from the reset time on |
| BucketRuns.RetryTimeIsExact | gateway/app/rate_limit/scripts.py:80-88 | the retry time stays sound and tight under any polling in between |
| BucketRuns.TtlCoversRefillTwice | gateway/app/rate_limit/models.py:102-117 | half of the key's lifetime refills an empty bucket |
| BucketRuns.TtlIsLeast | gateway/app/rate_limit/models.py:102-117 | the lifetime is the least positive number of seconds that fills an empty bucket twice |
| BucketRuns.ExpiryIsUnobservable | gateway/app/rate_limit/models.py:102-117 | dropping the key at any moments from half of its lifetime on changes no state and no answer of any run |
| BucketRuns.EarlyDropIsObservable | gateway/app/rate_limit/scripts.py:45-48 | dropping an emptied bucket is invisible exactly once it had the time to fill |
| RateLimiter.EveryReplyParses | gateway/app/rate_limit/service.py:130-203 | every script answer passes the parser and the decision's checks; waiting times round up to the least whole seconds |
| RateLimiter.ParserInWords | gateway/app/rate_limit/service.py:130-203 | which replies the parser refuses with which error, and what it makes of the others |
| RateLimiter.DecisionInWords | gateway/app/rate_limit/service.py:172-203 | remaining is what the decision left, rounded down; the reported seconds are the least after which a denied request is granted, and the bucket is full |
| RateLimiter.SecondsAreSufficient | gateway/app/rate_limit/service.py:189-203 | waiting the reported seconds suffices for a grant, and for a full bucket |
| RateLimiter.RedisRateLimiter.Check | gateway/app/rate_limit/service.py:60-111 | with a valid clock, a valid decision with the least sufficient seconds, one script step and the policy's TTL, or, exactly when Redis fails, its error with the step taken or not |
| LoginScripts.LoginKey.LockStatusScript | gateway/app/rate_limit/login_scripts.py:7-46 | the imperative script is the lock-status function of the stored hash |
| LoginScripts.ChecksDeleteEndedLocks | gateway/app/rate_limit/login_scripts.py:32-40 | a lock check deletes the record of an ended lock and nothing else |
| LoginScripts.LoginKey.FailureScript | gateway/app/rate_limit/login_scripts.py:51-145 | the imperative script is the failure function of the stored hash, with its four argument errors in their order |
| LoginScripts.LoginKey.ResetScript | gateway/app/rate_limit/login_scripts.py:149-154 | the hash is gone, and the answer says whether it was there |
| LoginLog.RepliesComeFromLog | gateway/app/rate_limit/login_scripts.py:14-145 | in every run every lock check and every failure is answered with what the log of counted failures and resets says |
| LoginLog.ResetAnswersFromLog | gateway/app/rate_limit/login_scripts.py:149-154 | a reset answers that it deleted a record if and only if the last entry of the log is in force, or its ended lock was still stored |
| LoginLog.ChecksAndExpiryRacesAreInvisible | gateway/app/rate_limit/login_scripts.py:32-40 | removing all lock checks, and any choice of when an ended lock is deleted, changes no later answer to a check or a failure |
| LoginLog.LockedMeans | gateway/app/rate_limit/login_scripts.py:84-127 | locked at now if and only if a threshold-reaching failure happened at some t with t <= now < t + 1000 x lockout seconds and no reset since |
| LoginLog.CountIsLongestEpoch | gateway/app/rate_limit/login_scripts.py:81-104 | the stored count is the number of counted failures since the latest reset, lock end or idle gap of more than 1000 x window seconds |
| LoginLog.CountBelowThreshold | gateway/app/rate_limit/login_scripts.py:106-127 | the count never exceeds the threshold and equals it exactly while locked |
| LoginLog.FailureInWords | gateway/app/rate_limit/login_scripts.py:100-139 | a failure outside a lock is counted and told the new count; the one that reaches the threshold is told 1000 x lockout seconds |
| LoginLog.ChecksInWords | gateway/app/rate_limit/login_scripts.py:14-46 | during a lock checks and failures are told the threshold and the rest of the lock and change nothing; otherwise a check is told the count |
| LoginThroughput.LocksAreSpaced | gateway/app/rate_limit/login_scripts.py:84-127 | whatever is counted after a lock, unless a reset came right after it, comes at least a lockout later; so do all later locks |
| LoginThroughput.LocksInWindow | gateway/app/rate_limit/login_scripts.py:84-127 | a reset-free window of length T holds at most floor(T / lockout) + 1 locks |
| LoginThroughput.LongWindowsKeepBound | gateway/app/rate_limit/login_scripts.py:84-145 | with a long enough failure window, any reset-free window counts at most threshold x (floor(T / lockout) + 1) + threshold - 1 failures |
| LoginThroughput.ShortWindowsBreakBound | gateway/app/rate_limit/login_scripts.py:129-139 | with a shorter window a run of slow bursts counts threshold squared failures, more than the bound |
| LoginThroughput.BoundHoldsExactlyForLongWindows | gateway/app/rate_limit/login_scripts.py:84-145 | the bound holds in all windows of all runs if and only if the policy's window covers its lockout |
| LoginProtocol.VerifiesOnlyOldChecksDuringLock | gateway/app/auth/router.py:175-229 | a verification that runs during a lock belongs to an attempt that took its own lock check in the run, when the account was not locked, and before the failure that started the lock |
| LoginProtocol.TokenNeedsCheckAndReset | gateway/app/auth/router.py:334-389 | a token's attempt took its own lock check in the run, when the account was not locked, and later its own reset, to which no other token or 401 points |
| LoginProtocol.FreshAttemptPassesUnlessLocked | gateway/app/auth/router.py:166-219 | after any run, an attempt that arrives at a later time passes its answered check if and only if no lock is running then, and is turned away otherwise |
| LoginProtocol.OtherStepsKeepLog | gateway/app/auth/router.py:231-249 | a failing user repository, lock checks and cancellations change no later answer |
| LoginProtocol.FewUnauthorizedBetweenClears | gateway/app/auth/router.py:264-332 | between two clears at most threshold - 1 attempts are answered 401 |
| LoginProtection.AnswersParseAndTellLockEnd | gateway/app/rate_limit/login.py:386-443 | every answer passes the parser; a locked one gives the least whole seconds to the lock's exact end, which a failure during the lock does not move |
| LoginProtection.ParserInWords | gateway/app/rate_limit/login.py:386-443 | which answers the parser refuses with which error, and what it makes of the others |
| LoginProtection.RedisLoginProtection.CheckLock | gateway/app/rate_limit/login.py:233-259 | one lock-status step, also when Redis fails before or after it; locked exactly if the account is, with the least whole seconds to the lock's end |
| LoginProtection.RedisLoginProtection.RecordFailure | gateway/app/rate_limit/login.py:261-289 | one failure step, also when Redis fails before or after it; locked exactly if the account now is, with the least whole seconds to the lock's end, which are the lockout seconds for the failure that starts it |
| LoginProtection.RedisLoginProtection.ResetRecord | gateway/app/rate_limit/login.py:291-327 | one reset step that tells whether Redis still had a record, and an error exactly when Redis fails |
| LoginProtection.Conclude | gateway/app/auth/router.py:222-389 | the response and the store after a passed check, for every verification and backend outcome; a 429 tells the least whole seconds after which the lock is over |
| LoginProtection.IssueAccessToken | gateway/app/auth/router.py:139-389 | for every store that other attempts make of the account after its check, the response and the store afterwards; 200, 401, 429 and 503 each exactly when the lock before, the outcomes and the lock after say so; a 429 tells the least whole seconds after which the lock is over |
| LoginProtection.MethodIsAttempt | gateway/app/auth/router.py:166-389 | with any steps of other attempts before and after its verification, an attempt of the protocol has exactly the response and the store that the method's contract fixes, and what the others did is an interference that the method accepts |
| LoginConcurrency.VerificationsDuringLock | gateway/app/auth/router.py:166-229 | while an account stays locked, at most as many passwords are verified as attempts had passed their checks when that began |
| LoginConcurrency.AnyNumberVerifiesDuringLock | gateway/app/auth/router.py:166-229 | for every policy and every n there is a run in which threshold failures in one epoch lock the account and n more passwords are verified while it stays locked |
| Authorization.QueriesAgree | gateway/app/database/authorization_repository.py:140-257 | for all table contents the short-circuiting EXISTS search holds exactly for the codes that the three-table DISTINCT join lists, each once, and exactly when an assigned role grants the code |
| Authorization.RemovalIsExact | gateway/app/database/authorization_repository.py:396-456 | after a removal the user keeps a code if and only if another assigned role grants it; other users keep theirs |
| Authorization.ResolveInWords | gateway/app/database/authorization_repository.py:259-315 | the lookup by name gives the id of the only row with that name when the user has exactly one row; no role exactly if no row has the name, no user exactly if one row has it and the user has none |
| Authorization.WithoutKeepsOthers | gateway/app/database/authorization_repository.py:420-438 | a removal keeps every other row as often as it was there |
| Authorization.AssignThenRemoveRestores | gateway/app/database/authorization_repository.py:340-379 | assigning and removing a role restores the tables if and only if the assignment was new |
| Authorization.AssignThenRemoveByName | gateway/app/database/authorization_repository.py:317-471 | removing a role by the name just assigned finds the only role of that name, deletes its row, and restores all tables if and only if the assignment answered True; a second assignment or removal answers False and changes nothing |
| Authorization.PermissionsAfterUpdates | gateway/app/database/authorization_repository.py:317-456 | after any run of updates a user has a code if and only if a role grants it whose latest update assigned it, or that was assigned and never updated |
| Authorization.AuthorizationRepository.LookUp | gateway/app/database/authorization_repository.py:259-315 | the id of the only row with the normalized name, or which of the four errors arises, with the role looked up before the user |
| Authorization.AuthorizationRepository.GetPermissionCodes | gateway/app/database/authorization_repository.py:140-195 | the set holds exactly the codes that the EXISTS search affirms |
| Authorization.AuthorizationRepository.HasPermission | gateway/app/database/authorization_repository.py:197-257 | the answer is membership of the normalized code in the other query's result |
| Authorization.AuthorizationRepository.AssignRole | gateway/app/database/authorization_repository.py:317-394 | appends the row of the user and the only role with the name unless it is there, and tells whether it is new; errors leave the tables alone unless a failed commit took effect |
| Authorization.AuthorizationRepository.RemoveRole | gateway/app/database/authorization_repository.py:396-471 | deletes every row of the user and the only role with the name, and no other, and tells whether there was one; errors leave the tables alone unless a failed commit took effect |

## Left out

- HTTP routing, headers, response bodies, dependency wiring, middleware and readiness probes: plumbing around these decisions.
- The `circuit_rejected` and `retry` events, audit records, logs and metrics: best-effort output that no decision reads; only opened and recovered events are kept.
- `CircuitSnapshot`: it only reads the fields.
- `str.upper`, Unicode normalization, name patterns and SHA-256 keys: methods come upper-cased, normalizers are uninterpreted functions, and one key stands for one account or identity.
- Rounding of IEEE doubles and of Lua number strings: all arithmetic is exact.
- Non-numeric script arguments, malformed hash fields and malformed Redis replies: the types exclude them.
- Redis eviction and restarts, and locks that a skewed Redis clock deletes early.
- Password hashing, JWTs and the user repository: a verification is an input with three outcomes.
- `ORDER BY` in the permission query: the code makes a set of its result.
- `get_role_names_for_user`, and cascading deletes of users and roles: easier members of the same kind.
- Environment parsing of settings: only the bounds that the constructors check are kept.
