# Verification of the API_Center gateway

API_Center is an HTTP gateway that runs as several identical containers over a shared Redis. This
project models its stateful parts and proves what they keep over whole runs:

- the distributed rate limiter, its Redis commands interleaved by any number of calls, and the
  in-memory path it falls back to (`Redis`, `Throttler`, `ThrottlerRuns`, `ThrottlerExact`, `ThrottlerFallback`,
  `Windows`);
- the service registry: lifecycle, version governance, gauge, health transitions and write-through of
  one container (`Semver`, `Registry`, `RegistryRuns`, `RegistryEntries`), and the copies held by many containers with
  the drift check and reconciliation between them (`Replication`);
- the circuit breaker against the history of what it was told (`CircuitBreakers`, `CircuitBreakerRuns`);
- the proxy: its gates, its cache of targets over the registry, a breaker per service (`Proxy`, `ProxyRuns`,
  `ProxyReplies`), and the scopes from issuing a token to checking it (`Scopes`);
- the refresh-token store and its session index (`TokenStore`, `TokenStoreRuns`);
- the SDK's retry loop (`TribeClient`).

Each stateful service is a class whose methods update its fields as the source does (`Services` holds
`RegistryService`, `HealthMonitorService` and `ProxyHandler`). Every method is proved equal to a step
function on values, and the theorems are about runs of those step functions. A stretch of code between
two awaits is one step; in the limiter each Redis command is one step. A container that stops is one
that takes no further step.

## Assumptions

- Time is an integer clock passed to each operation; where a theorem needs it not to go back, it says so.
- A Redis key with expiry e answers as present before e and absent from e on. TTL answers the rest of
  its life to the nearest second. The token store is modelled in whole seconds.
- A registry entry in Redis is a value; an entry that does not parse is an absent id.
- Claims of a token, the result of checking a secret, upstream responses, HTTP attempts of the SDK and
  random numbers are parameters.
- ISO timestamps are integers; only their equality is read.
- The registry's memory is a map. The source keeps it in a plain object, where an id such as `constructor` is
  found before anyone registers it; such ids are assumed not to be used.
- In the write-through runs a write that fails is one that timed out: Redis still executes its command in turn.
  Commands that are lost are in `Replication`.

## Where comments and code differ

The model follows the code. Where its comments suggest otherwise, a lemma states what it does, and where a
promise fails, another states exactly when it is kept:

- HALF_OPEN is not limited to one request (`HalfOpenAdmitsAnyNumber`), and a late failure can report OPEN to
  OPEN (`ReopensWhileOpen` says when).
- The fallback forgets a block after one call (`BlockForgotten`); `FallbackRefinesRedis` says which runs agree.
- A block does not stop a call that is already past its check (`PastCheckIgnoresBlock`); `BlockHoldsOff` says
  which calls it stops.
- A failed registration deletes the entry it replaced, and one that a newer registration wrote
  (`FailedUpdateDropsEntry`, `LateRollback`, `RollbackDropsNewer`); it undoes itself exactly when it was first.
- A resync can undo an update (`StaleReplyUndoesUpdate`); `WriteThrough` says which resyncs and rollbacks keep
  memory and Redis together.
- A resync does not set the gauge; `GaugeLag` says by how much it is wrong in every run, `ResyncKeepsGauge`
  which replies keep it right, `GaugeRecovers` when it is right again.
- An unparsable version resets governance (`UnparsableVersionForgets`); `MajorsNeverDecrease` is both ways.
- Deregistering, a rollback or a resync can leave a stale proxy (`StaleAfterReregistration`);
  `CacheCoherence` says exactly which do, and `StaleUntilHealed` what ends it.
- Unhealthy services are still proxied (`GateIgnoresHealth`).
- A token stored during a revocation escapes it (`StoreDuringRevokeAllEscapes`); `DeletingKeepsCovered` says
  when the index stays complete.

## Model

| member | source | states |
|---|---|---|
| Redis.Server.TtlOf | src/shared/redis-throttler-storage.ts:91-92 | the reply of TTL: absent, without expiry, or seconds left |
| Redis.Server.IncrKey | src/shared/redis-throttler-storage.ts:102 | INCR creates or counts one key, keeps its expiry and touches no other key |
| Redis.Server.ExpireKey | src/shared/redis-throttler-storage.ts:103-105 | EXPIRE sets the end of one live key, or deletes it for a ttl that is not positive |
| Redis.Server.SetexKey | src/shared/redis-throttler-storage.ts:112 | SETEX sets one key with its end |
| Throttler.KeysApart | src/shared/redis-throttler-storage.ts:86-87 | hits and block keys of different throttle keys never collide |
| Throttler.RedisThrottlerStorage.RedisIncrement | src/shared/redis-throttler-storage.ts:80-127 | a call that meets no other leaves its two keys and replies as the command-by-command model run alone; all other keys stay |
| Throttler.RedisThrottlerStorage.MemoryIncrement | src/shared/redis-throttler-storage.ts:131-176 | the fallback's record and entry for a key; all other entries stay |
| Throttler.RedisThrottlerStorage.Increment | src/shared/redis-throttler-storage.ts:65-76 | Redis when it was reachable at start-up, the fallback otherwise; other throttle keys stay |
| ThrottlerRuns.UninterruptedCall | src/shared/redis-throttler-storage.ts:80-127 | in the interleaving model, a call whose commands are not interrupted has the keys and reply of the call run alone |
| ThrottlerRuns.StepKeepsCreatorPending | src/shared/redis-throttler-storage.ts:102-105 | while a key's creator has not issued EXPIRE the key has no expiry, so EXPIRE always meets the lifetime its INCR created |
| ThrottlerRuns.AdmittedPerLifetime | src/shared/redis-throttler-storage.ts:80-127 | with blocking on, every interleaving admits at most `limit` calls in one lifetime of the hits key |
| ThrottlerRuns.AdmittedExactlyWithinLimit | src/shared/redis-throttler-storage.ts:91-126 | a finished call was admitted if and only if it counted and its number is within the limit or blocking is off |
| ThrottlerRuns.AdmittedPerInterval | src/shared/redis-throttler-storage.ts:88-126 | any half-open interval of k windows holds at most (k+1)*limit admitted calls, in every interleaving |
| ThrottlerRuns.BlockHoldsOff | src/shared/redis-throttler-storage.ts:91-100 | after a SETEX no call that was not yet past its check is admitted within the block, up to the half second TTL rounds away, in every interleaving |
| ThrottlerRuns.PastCheckIgnoresBlock | src/shared/redis-throttler-storage.ts:91-126 | a call past its check and left alone is admitted inside a block exactly when its number is within the limit or blocking is off; else it sets a block of its own |
| ThrottlerExact.CheckExactly | src/shared/redis-throttler-storage.ts:90-100 | the check refuses a call exactly when the block key expires at least half a second ahead, replying the rest of the block to the nearest second; else the call goes on |
| ThrottlerExact.RefusedAtCheckExactly | src/shared/redis-throttler-storage.ts:90-113 | in every interleaving a call is refused at its check exactly when the latest SETEX lies no further behind than its block less half a second |
| ThrottlerExact.OverLimitSetsBlock | src/shared/redis-throttler-storage.ts:109-113 | in every interleaving a call refused by its number has set the block, at or after its INCR |
| ThrottlerExact.OpensWindowExactly | src/shared/redis-throttler-storage.ts:101-105 | in every interleaving an INCR opens a new window exactly when there was none or its EXPIRE lies a whole window behind; else it takes the next number of the current one |
| ThrottlerExact.QuotaIsUsed | src/shared/redis-throttler-storage.ts:80-127 | with blocking on, of the calls that counted in a lifetime and have finished exactly `limit` were admitted, or all if fewer |
| ThrottlerExact.ReplyTells | src/shared/redis-throttler-storage.ts:107-126 | the reply to a counted call: its number, the rest of its window to the nearest second, its block if it has one |
| ThrottlerFallback.AdmittedPerInterval | src/shared/redis-throttler-storage.ts:131-176 | the same bound for every run of the in-memory path |
| ThrottlerFallback.FallbackIsExact | src/shared/redis-throttler-storage.ts:131-176 | over every run, at whatever times and durations, the fallback gives the replies of the limiter without rounding if and only if no two calls in a row fall between a window's end and its block's end |
| ThrottlerFallback.RedisIsExact | src/shared/redis-throttler-storage.ts:80-127 | over serial runs at whole seconds so does the Redis path, always |
| ThrottlerFallback.FallbackRefinesRedis | src/shared/redis-throttler-storage.ts:80-176 | over serial runs at whole seconds both paths give equal replies throughout if and only if no two calls in a row fall between a window's end and its block's end |
| ThrottlerFallback.BlockForgotten | src/shared/redis-throttler-storage.ts:139-155 | a run on which Redis still blocks and the fallback admits |
| Windows.IntervalBound | src/shared/redis-throttler-storage.ts:88-126 | spaced windows with a quota each admit at most (k+1) quotas in k window lengths |
| CircuitBreakers.CircuitBreaker.constructor | src/shared/circuit-breaker.ts:49-56 | starts CLOSED with zero counters; thresholds default to 5, 30000 ms and 2 |
| CircuitBreakers.CircuitBreaker.ResetBreaker | src/shared/circuit-breaker.ts:70-80 | CLOSED, counters cleared, a change reported unless already CLOSED |
| CircuitBreakers.CircuitBreaker.ExecuteGate | src/shared/circuit-breaker.ts:82-95 | the gate of execute admits and moves as tryAcquire does |
| CircuitBreakers.CircuitBreaker.TryAcquire | src/shared/circuit-breaker.ts:116-134 | refuses while OPEN within the cooldown, else admits, entering HALF_OPEN from OPEN |
| CircuitBreakers.CircuitBreaker.RecordSuccess | src/shared/circuit-breaker.ts:146-162 | the full new state after a success, with the reported change |
| CircuitBreakers.CircuitBreaker.RecordFailure | src/shared/circuit-breaker.ts:164-183 | the full new state after a failure, with the reported change |
| CircuitBreakerRuns.HistoryDetermines | src/shared/circuit-breaker.ts:66-183 | at every point of every history the state and counters are those told from the history alone; CLOSED counts the trailing failures, HALF_OPEN the successes since entry, and a late success clears the failures counted while OPEN |
| CircuitBreakerRuns.OpensOnThreshold | src/shared/circuit-breaker.ts:164-183 | a CLOSED breaker opens on a failure exactly when it is the threshold-th in a row |
| CircuitBreakerRuns.HalfOpenSinceEntry | src/shared/circuit-breaker.ts:82-161 | while HALF_OPEN there was an entry from OPEN, no failure or reset since, and fewer successes than the threshold |
| CircuitBreakerRuns.ClosesAfterProbes | src/shared/circuit-breaker.ts:146-162 | HALF_OPEN becomes CLOSED exactly on a reset or the successThreshold-th success since entry |
| CircuitBreakerRuns.RefusedExactly | src/shared/circuit-breaker.ts:116-134 | an acquisition is refused exactly while OPEN and within the cooldown of the latest failure |
| CircuitBreakerRuns.FailsFast | src/shared/circuit-breaker.ts:82-134 | after a failure that leaves OPEN no acquisition within the cooldown is admitted, whatever late outcomes arrive, unless reset |
| CircuitBreakerRuns.ChangesFormPath | src/shared/circuit-breaker.ts:70-183 | the reported changes form one path from CLOSED to the current state, never CLOSED to HALF_OPEN |
| CircuitBreakerRuns.GaugeTracksState | src/metrics/metrics.service.ts:98-103 | the exported code is that of the current state from the first change on; before it the state is CLOSED |
| CircuitBreakerRuns.ReopensWhileOpen | src/shared/circuit-breaker.ts:159-181 | OPEN to OPEN is reported exactly when a failure arrives while OPEN and, with those since the count was last cleared, makes the threshold; a late success clears it and stays OPEN |
| CircuitBreakerRuns.HalfOpenAdmitsAnyNumber | src/shared/circuit-breaker.ts:116-133 | any number of acquisitions in a row is admitted while HALF_OPEN |
| Semver.ParseOfShown | src/registry/registry.service.ts:511-515 | a version written in decimal, with any suffix not going on with a digit, parses back to itself |
| Semver.ParseExactly | src/registry/registry.service.ts:511-515 | a version is read exactly from three numerals, leading zeros allowed, with dots between and anything after, and it is the one they denote |
| Services.RegistryService.ValidateVersionUpgrade | src/registry/registry.service.ts:510-528 | rejects exactly a lower major when both versions parse |
| Services.RegistryService.CheckRegistration | src/registry/registry.service.ts:127-139 | a downgrade is a validation error before a retired service is a conflict; otherwise the version being replaced |
| Services.RegistryService.RegisterStart | src/registry/registry.service.ts:123-155 | register up to its await: new entry, gauge, issued write, or the error and no change |
| Services.RegistryService.RegisterWritten | src/registry/registry.service.ts:200-205 | after the write an update, and only an update, drops the cached proxy of every listening handler |
| Services.RegistryService.RegisterFailed | src/registry/registry.service.ts:635-648 | a failed or late write deletes the entry and recomputes the gauge |
| Services.RegistryService.NotifyCacheInvalidation | src/registry/registry.service.ts:98-109 | every listener loses its cached proxy of the service and nothing else |
| Services.RegistryService.OnCacheInvalidation | src/registry/registry.service.ts:91-96 | adds one listener |
| Services.RegistryService.SyncMetricsGauge | src/registry/registry.service.ts:534-539 | the gauge becomes the number of active and deprecated entries |
| Services.RegistryService.PersistToRedis | src/registry/registry.service.ts:599-602 | issues one write when Redis is connected |
| Services.RegistryService.DeregisterService | src/registry/registry.service.ts:212-222 | removes the entry, recomputes the gauge and issues the deletion, or not found |
| Services.RegistryService.DeprecateService | src/registry/registry.service.ts:247-266 | deprecates unless unknown or retired; sunset fields change only when given |
| Services.RegistryService.RetireService | src/registry/registry.service.ts:294-309 | retires any known service and recomputes the gauge |
| Services.RegistryService.ActivateService | src/registry/registry.service.ts:331-353 | activates proposed or deprecated services and clears the sunset fields; a conflict otherwise |
| Services.RegistryService.SetHealthStatus | src/registry/registry.service.ts:453-473 | writes and reports exactly a change of the flag, healthy being the default |
| Services.RegistryService.TouchHealthCheck | src/registry/registry.service.ts:478-483 | refreshes only the check time, without a write |
| Services.RegistryService.LoadFromRedis | src/registry/registry.service.ts:549-571 | overlays the reply on memory, dropping nothing and leaving the gauge |
| Services.HealthMonitorService.RecordProbe | src/registry/health-monitor.service.ts:77-109 | a probe that changes the flag publishes it with the previous one; any other only touches the entry |
| Services.HealthMonitorService.FindDrift | src/registry/health-monitor.service.ts:148-171 | the three lists of the drift check |
| Services.HealthMonitorService.HandleRedisDriftReconciliation | src/registry/health-monitor.service.ts:131-223 | loads the second reply exactly when not already running, both reads answered and there is drift; the running flag is restored |
| Services.ProxyHandler.constructor | src/shared/proxy-handler.ts:71-82 | an empty handler, subscribed to the registry |
| Services.ProxyHandler.InvalidateProxyCache | src/shared/proxy-handler.ts:95-103 | forgets one cached proxy |
| Services.ProxyHandler.GetOrCreateCircuitBreaker | src/shared/proxy-handler.ts:292-303 | one breaker per service, created CLOSED with 5, 30000 ms and 2, then reused |
| Services.ProxyHandler.EnforceGates | src/shared/proxy-handler.ts:143-179 | the first gate that refuses a request: unknown, namespace, retired, consumes, scopes |
| Services.ProxyHandler.AcquireBreaker | src/shared/proxy-handler.ts:181-191 | asks the service's own breaker and moves no other |
| Services.ProxyHandler.ForwardRequest | src/shared/proxy-handler.ts:181-253 | forwards to the cached target, caching the current address when there is none |
| Services.ProxyHandler.HandleRequest | src/shared/proxy-handler.ts:135-287 | the reply, cache and breakers after a request |
| Services.ProxyHandler.HandleOutcome | src/shared/proxy-handler.ts:212-235 | 502, 503, 504 and proxy errors are failures of the service's breaker, other responses successes |
| RegistryRuns.GaugeLag | src/registry/registry.service.ts:534-539 | in every run, resyncs, failed writes and rollbacks included, the number of active and deprecated services is the gauge plus what resyncs gained and lost and what deprecating a proposed service added since the gauge was last recomputed |
| RegistryRuns.GaugeCountsActive | src/registry/registry.service.ts:534-539 | so from an empty registry the gauge is that number in every run without a resync, and no service is ever proposed |
| RegistryRuns.GaugeRecovers | src/registry/registry.service.ts:534-539 | from any state without proposed services, hydrated ones included, the first step that recomputes the gauge makes it right, and it stays right until the next resync |
| RegistryRuns.ResyncKeepsGauge | src/registry/registry.service.ts:549-571 | a resync leaves a right gauge right exactly when its reply makes as many services counted as it stops counting |
| RegistryRuns.DeprecateKeepsGauge | src/registry/registry.service.ts:247-262 | deprecating leaves a right gauge right exactly when the service was not proposed |
| Replication.NeverProposed | src/registry/registry.service.ts:141-148 | from a hash without proposed services, no memory, command or reply ever holds one |
| RegistryRuns.LeavesRetirementExactly | src/registry/registry.service.ts:134-139 | the exact events that end retirement |
| RegistryRuns.RetiredStaysRetired | src/registry/registry.service.ts:294-309 | a retired service stays retired over every run without deregistration, rollback or resync of it |
| RegistryRuns.LifecycleStep | src/registry/registry.service.ts:141-148 | the whole lifecycle of a known service, whatever its status; registering it again moves it only from proposed to active |
| RegistryEntries.FirstRegistration | src/registry/registry.service.ts:123-148 | an unknown service is always accepted: active, under its manifest, in the namespace given or tribe, as of now |
| RegistryEntries.UpdateExactly | src/registry/registry.service.ts:123-148 | a known one is updated exactly when not retired and not to a lower major; status, registration time and replaced version carry over, health starts anew |
| RegistryEntries.LifecycleRefusedExactly | src/registry/registry.service.ts:247-345 | why deprecating, retiring and activating are refused, and that a refusal changes nothing |
| RegistryEntries.OthersUntouched | src/registry/registry.service.ts:123-483 | every event moves its own service only, a resync those of its reply |
| RegistryEntries.KnownExactly | src/registry/registry.service.ts:149-219 | in every run a service is known exactly when the history of registrations, removals, rollbacks and resyncs says so |
| RegistryEntries.AwaitingConserved | src/registry/registry.service.ts:153-155 | in every run the accepted registrations are those concluded plus those still awaiting Redis |
| RegistryEntries.StampedAnew | src/registry/registry.service.ts:300-301 | every accepted update is stamped with its own time; nothing else but a resync moves a stamp |
| RegistryEntries.ServesItsManifest | src/registry/registry.service.ts:141-148 | between accepted registrations and displacements a service is what its manifest made it |
| RegistryEntries.NoticeIsLatest | src/registry/registry.service.ts:256-259 | sunset date and replacement are those of the latest deprecation notices, withdrawn by activating |
| RegistryEntries.ProbeRecorded | src/registry/health-monitor.service.ts:77-109 | a probe always leaves its result and its time; only a changed result is stamped and written to Redis |
| RegistryEntries.CheckTimeStep | src/registry/registry.service.ts:453-483 | the check time moves with probes only and starts anew with a registration |
| RegistryRuns.RegistrationTimeKept | src/registry/registry.service.ts:144 | the registration time survives every update |
| RegistryRuns.MajorStep | src/registry/registry.service.ts:510-528 | one step keeps an undisplaced service versioned exactly when a manifest it accepts parses, and then the major does not fall |
| RegistryRuns.MajorsNeverDecrease | src/registry/registry.service.ts:127-132 | between displacements a service has a version whose major never falls, throughout the run, if and only if every manifest accepted for it parses |
| RegistryRuns.UnparsableVersionForgets | src/registry/registry.service.ts:520 | one manifest without a parsable version lets any later one in |
| RegistryRuns.HealthReportsAlternate | src/registry/registry.service.ts:453-473 | between accepted registrations, removals and resyncs the reported transitions strictly alternate |
| RegistryRuns.FirstReportIsUnhealthy | src/registry/registry.service.ts:141-148 | after an accepted registration they start with unhealthy |
| RegistryRuns.WriteThrough | src/registry/registry.service.ts:150-155 | with commands executed in order, throughout a run the pending commands turn Redis into the memory map up to check times, if and only if every resync tells nothing new and every rollback finds nothing to delete; so in every run without them |
| RegistryRuns.ResyncKeepsWriteThrough | src/registry/registry.service.ts:555-558 | a resync keeps that exactly when its reply says nothing memory does not already hold |
| RegistryRuns.RollbackKeepsWriteThrough | src/registry/registry.service.ts:640-643 | a rollback keeps it exactly when memory no longer holds the id |
| RegistryRuns.StaleReplyUndoesUpdate | src/registry/registry.service.ts:552-558 | a reply read before an update and delivered after it undoes the update in memory only |
| RegistryRuns.FailedUpdateDropsEntry | src/registry/registry.service.ts:640-643 | a registration that fails undoes itself exactly when it was not an update |
| RegistryRuns.LateRollback | src/registry/registry.service.ts:635-648 | whatever comes between, the rollback restores the id exactly when it was absent before the registration, and drops what memory holds of it by then |
| RegistryRuns.RollbackDropsNewer | src/registry/registry.service.ts:635-648 | the rollback of an older registration deletes what a newer accepted one wrote, and Redis is left with the newer entry |
| Replication.RunKeepsKnown | src/registry/registry.service.ts:141-155 | with fresh stamps, every copy anywhere is what its stamp was issued for, up to its check time |
| Replication.SameStampSameEntry | src/registry/registry.service.ts:453-483 | two copies with one stamp, in Redis, in any memory or in a reply, differ at most in their check time |
| Replication.DriftCheckExact | src/registry/health-monitor.service.ts:146-171 | the check finds no drift if and only if the reply and memory agree on every id up to check times |
| Replication.ReportedExactly | src/registry/health-monitor.service.ts:146-171 | id by id, the check reports what Redis holds exactly at the containers that do not hold the same up to check times |
| Replication.RetiredUnlessReported | src/registry/health-monitor.service.ts:146-171 | a retirement in Redis is in force at every container whose check does not report it |
| Replication.UpdateIsReported | src/registry/health-monitor.service.ts:148-171 | once the commands of the container that made an update have executed, the check of every other container reports it |
| Replication.PassIsIdempotent | src/registry/health-monitor.service.ts:146-208 | a second pass can report only ids that memory alone holds, and changes nothing |
| Replication.ReconcileAtIsPass | src/registry/health-monitor.service.ts:135-208 | reading, comparing and loading as system steps is one pass, at that container only |
| Replication.SweepIsOnePassEach | src/registry/health-monitor.service.ts:130-208 | sweeping containers in any order and number gives each one pass |
| Replication.ReconciliationConverges | src/registry/health-monitor.service.ts:146-208 | from any reachable state the swept containers agree on every id in Redis and keep their own extra ids, and that is all they report afterwards |
| Replication.ResyncsOverlay | src/registry/registry.service.ts:549-571 | reads and deliveries in any order overlay the hash on each container that reloads and leave the others as they were |
| Replication.InterleavedReconciliationConverges | src/registry/health-monitor.service.ts:146-208 | the same convergence when the reads and loads of all containers interleave in any way |
| Scopes.IssueScopes | src/auth/auth.controller.ts:49-66 | the issued scopes are exactly the duplicate-free union of own and consumed registered targets' scopes, own first, then by consumed target |
| Scopes.CheckScopes | src/auth/auth.service.ts:152-162 | the missing scopes are exactly the required ones outside scopes and permissions |
| Scopes.CheckInOrder | src/auth/auth.service.ts:152-162 | scopes are checked one by one, the missing ones in the order required |
| Scopes.IssuedTokenPasses | src/shared/proxy-handler.ts:165-179 | an issued token passes the consume and scope checks while consumes lists the target and its scopes have not grown |
| Scopes.RefusedExactlyForOtherScopes | src/shared/proxy-handler.ts:171-179 | a token of the issued scopes is refused exactly for a scope outside them and its permissions |
| ProxyRuns.CoherentStep | src/shared/proxy-handler.ts:95-103 | a step keeps a coherent target coherent exactly when it does not displace the service, or nothing is cached, the rollback does not happen, or the resync brings the cached address or finds an update awaiting Redis |
| ProxyRuns.CacheCoherence | src/shared/proxy-handler.ts:193-244 | throughout a run a cached target is the current address except while an update awaits Redis, if and only if every deregistration, rollback and resync of the service meets that condition; so in every run without them |
| ProxyRuns.StaleUntilHealed | src/registry/registry.service.ts:201-203 | a stale target becomes coherent again exactly by a dropped proxy, an accepted update, or a first registration or resync at the cached address or with an update still awaited |
| ProxyRuns.CachedTargetWasHeld | src/shared/proxy-handler.ts:194-244 | in all runs a cached target is an address the service once had |
| ProxyReplies.ForwardTarget | src/shared/proxy-handler.ts:193-198 | a request is forwarded to its service's cached target, which is the one cached before, or else the service's address |
| ProxyReplies.CacheMoves | src/shared/proxy-handler.ts:95-103 | a cached target is dropped by the continuation of an update of its service only, and set by a forwarded request only |
| ProxyReplies.MisdirectedExactly | src/shared/proxy-handler.ts:193-244 | a forwarded request goes to the current address, or an update awaits Redis, exactly with a coherent cache |
| ProxyReplies.ForwardedToCurrent | src/shared/proxy-handler.ts:193-244 | over every run without an unsafe event each request goes to its service's current address, or an update awaits Redis |
| ProxyReplies.ForwardedToHeld | src/shared/proxy-handler.ts:193-244 | over all runs each request goes to an address its service once had |
| ProxyReplies.RegisteredIsServed | src/shared/proxy-handler.ts:143-191 | a service registered, and neither retired, displaced nor registered anew since, is forwarded to exactly when its manifest has an address and this namespace, the caller consumes it with the scopes it asks for, and the breaker admits |
| ProxyReplies.RefusalReasons | src/shared/proxy-handler.ts:143-179 | each reason for refusing has its own condition, in the order of the gates, and the missing scopes are exactly those lacking |
| ProxyReplies.RefusalStatus | src/shared/proxy-handler.ts:143-191 | when a refusal is a 404, 410, 403 or 503 |
| ProxyReplies.BreakerRefusesExactly | src/shared/proxy-handler.ts:181-191 | a request past the gate is refused by the breaker exactly while OPEN by its history and less than 30 s after the latest failure |
| ProxyReplies.OpensOnFifthFailure | src/shared/proxy-handler.ts:292-303 | in every run a service's CLOSED breaker opens on exactly the fifth failure in a row |
| ProxyReplies.ClosesOnSecondSuccess | src/shared/proxy-handler.ts:292-303 | in every run a service's HALF_OPEN breaker closes on exactly the second success since entry |
| ProxyRuns.StaleAfterReregistration | src/registry/registry.service.ts:201-203 | deregistering and registering elsewhere leaves the old target cached with no update awaited |
| ProxyRuns.RetiredNeverForwarded | src/shared/proxy-handler.ts:161-162 | over every run a retired, undisplaced service is never forwarded to |
| ProxyRuns.ForwardedExactly | src/shared/proxy-handler.ts:143-191 | what it takes to be forwarded, both ways |
| ProxyRuns.GateIgnoresHealth | src/shared/proxy-handler.ts:143-191 | the health flag of the target plays no part |
| ProxyRuns.IssuedTokenIsForwarded | src/shared/proxy-handler.ts:135-191 | a request with an issued token to a live, still consumed target is forwarded exactly when the breaker admits it |
| ProxyRuns.BreakerFollowsHistory | src/shared/proxy-handler.ts:181-235 | in every run each service's breaker is the breaker of its own history |
| ProxyRuns.ProxyFailsFast | src/shared/proxy-handler.ts:181-191 | within 30 s of a failure that left a service's breaker open no request to it is forwarded |
| TokenStore.TokenStoreService.StoreRecord | src/auth/token-store.service.ts:78-93 | the token under its ttl and its subject's extended session; a ttl that is not positive fails first |
| TokenStore.TokenStoreService.AddToSession | src/auth/token-store.service.ts:191-202 | the member is added and the expiry raised only when it would not cover the token |
| TokenStore.TokenStoreService.Get | src/auth/token-store.service.ts:99-110 | the record of a live token |
| TokenStore.TokenStoreService.IsValid | src/auth/token-store.service.ts:115-122 | live, or Redis is unavailable |
| TokenStore.TokenStoreService.RevokeToken | src/auth/token-store.service.ts:132-149 | true exactly for a live token, which goes from the store and its session |
| TokenStore.TokenStoreService.RemoveFromSession | src/auth/token-store.service.ts:204-207 | one member less, the set gone when empty |
| TokenStore.TokenStoreService.RevokeAllForSubject | src/auth/token-store.service.ts:155-177 | deletes every member's token and the session, and counts the members |
| TokenStoreRuns.IndexCoversLiveTokens | src/auth/token-store.service.ts:78-93 | over every run each live token is in its subject's session, which expires no earlier |
| TokenStoreRuns.StoreExtendsSession | src/auth/token-store.service.ts:196-201 | storing keeps the expiry of a live session that covers the token and else sets it to the longer lifetime from now, never shortening it |
| TokenStoreRuns.SessionEnds | src/auth/token-store.service.ts:196-201 | in every run a session is over by the longer lifetime after the last store for its subject |
| TokenStoreRuns.TokenLivesExactly | src/auth/token-store.service.ts:78-177 | in every run with fresh ids a token is live exactly from its store until its ttl is over or it or its subject is revoked, and is the record stored |
| TokenStoreRuns.RevokeTakesExactlyOne | src/auth/token-store.service.ts:132-149 | revoking is true exactly for a live token, takes that token away, and leaves every other token and every other member of any session |
| TokenStoreRuns.RevokedForGood | src/auth/token-store.service.ts:132-149 | a revoked token that is not stored again is never in the store again |
| TokenStoreRuns.OtherSessionsKept | src/auth/token-store.service.ts:78-207 | an event moves the session of its own subject only |
| TokenStoreRuns.RevokeAllLeavesNone | src/auth/token-store.service.ts:155-177 | the subject is left no live token; the count is that of the session's members and at least what was removed |
| TokenStoreRuns.RevokeAllRemovesExactlyItsOwn | src/auth/token-store.service.ts:155-177 | with fresh ids exactly the subject's live tokens are removed |
| TokenStoreRuns.DeletingKeepsCovered | src/auth/token-store.service.ts:163-169 | the pipeline keeps the index covering exactly when the members read include every live token of the subject |
| TokenStoreRuns.StoreDuringRevokeAllEscapes | src/auth/token-store.service.ts:159-169 | a token stored between the two commands survives outside the index |
| TribeClient.WrapKeepsStatus | src/sdk/TribeClient.ts:178-202 | the typed error keeps the status and message of the response and the non-zero wait of a 429; without a response it is a timeout or a network error |
| TribeClient.WrapPicksClass | src/sdk/TribeClient.ts:188-201 | each class of error is raised exactly for its own status or connection code |
| TribeClient.RetriedExactly | src/sdk/TribeClient.ts:163-172 | what is retried, by the error it would be raised as: bad gateways, unavailable services, timeouts and four connection codes |
| TribeClient.DetailPrefersGateway | src/sdk/TribeClient.ts:182 | the text is the gateway's own message, else the body's, else Axios's |
| TribeClient.JitterSpans | src/sdk/TribeClient.ts:491-493 | the jitter spreads a delay evenly over a quarter either way |
| TribeClient.Request | src/sdk/TribeClient.ts:462-499 | at most maxRetries + 1 calls, stopping at the first attempt not worth retrying; its outcome is the caller's, an Axios error as a typed one; and the delay after each retry |
| TribeClient.SleepBudget | src/sdk/TribeClient.ts:491-494 | the delays add up to at most 1.25*b*(2^n-1)+n/2 ms, and at least 0.75*b*(2^n-1)-n/2 ms when all retries are spent |

## Left out

- AdmittedPerInterval: calls are counted by the time of their INCR (Redis) or of the call (fallback); a reply may arrive later.
- FallbackRefinesRedis: stated at whole seconds and for durations of whole seconds; at other times the Redis path rounds, as `RefusedAtCheckExactly` and `OpensWindowExactly` say, and the fallback does not, as `FallbackIsExact` says.
- HandleRedisDriftReconciliation: runs from comparison to load as one step; the interleaving of its two reads with other steps is in `Replication` and `StaleReplyUndoesUpdate`.
- IndexCoversLiveTokens: each store operation is atomic; of the races between their commands only the one between a store and a revocation of all is modelled.
- RedisIncrement: the method runs its commands at one instant; interleaved commands are the subject of `ThrottlerRuns`.
- Several throttle keys at once in the interleaving model: their keys never collide (`KeysApart`) and commands touch one key.
- Token cryptography, identity providers, refreshing and revoking through `AuthService`: the id stored is not the one in the token, so only the store's own guarantees hold.
- Kafka topics other than health changes, logging, tracing, HTTP metrics, response headers of deprecated services.
- Which services a health sweep probes and how (`handleHealthChecks` up to its results), and its overlap guard.
- `ProxyHandler.destroy` and `listServices`, registry lookups, `seed`, `validateSecret`.
- The inside of the proxy middleware: a forward is a target address, its outcome an event that comes later or never.
- `TribeClient` beyond `request`: authentication, refresh and the headers it sets.
- Redis eviction, JavaScript number limits, controllers, guards, DTO validation, configuration and deployment files.
