# Verified model of the API gateway

This project models the parts of the gateway that carry state between requests, in Dafny, and
proves what they keep over every run. `dafny verify dfyconfig.toml` checks all of it.

| files | component |
|---|---|
| `BreakerKeys`, `BreakerProtocol`, `BreakerSafety`, `BreakerGenerations`, `BreakerRuns`, `BreakerPhases`, `BreakerPlugin`, `BreakerWindow` | the distributed circuit breaker over three Redis keys |
| `TokenBucket`, `BucketRuns`, `BucketSharing`, `BucketExpiry` | the Redis token bucket of the rate limiter: the script, its runs, shared keys, key expiry |
| `WriteLimiter` | the rolling-window limiter of the admin API |
| `RouteTable`, `ConfigLoader`, `RouteHistory`, `RouteAdmin`, `RouteRequests`, `RouteUndo`, `AdminService` | route store, history, rollback, and the handlers around them |
| `Router`, `RouteOrder` | first-match routing, round-robin selection, and what a reload in hash order changes |
| `RetryProxy` | the retry loop of the reverse proxy |
| `PluginPipeline` | instance cache, stable sort, and plugin chain |

## How it is modelled

**Circuit breaker.** Any number of requests interleave their Redis commands on one route's keys;
every `await` of the plugin is a control point and every command is one atomic step
(`BreakerProtocol`). Time is real and moves only by its own step, which also removes the keys
whose deadline is reached. A request that is cancelled, or whose gateway dies, is a request that
takes no further step, so every result below covers it. History variables (`past`) record what
happened and are read by no step. `BreakerPlugin` is the plugin as methods over the keys; a call
that nothing interrupts is proved to be a run of the transition system.

The comments of the plugin promise more than its code does, and the model follows the code:

- The lock is meant to admit one probe at a time. It expires after 10 seconds whatever the probe
  does, and a finishing probe deletes the lock of another one. Probes exclude each other on every
  run whose probes are shorter than d seconds if and only if d is at most 10
  (`ProbesExclusiveIff`), and on each run the lock expires under a probe exactly when one is in
  flight for that long (`ProbesExclusiveWhileShort`). `ProbeExclusion` bounds the overlap in
  general, and `ProbesCanOverlap` attains the bound for every valid configuration and every n.
- The header says that HALF_OPEN follows OPEN. It does exactly when a full counter outlives the
  open flag (`HalfOpenFollowsOpenIff`). With no pause between INCR and EXPIRE, HALF_OPEN after a
  written trip can be reached if and only if the window is longer than the recovery time
  (`HalfOpenAfterTripIff`); `AfterTheRecoveryTime` is the run, for every configuration, that ends
  in HALF_OPEN or else in CLOSED.
- The keys clean themselves up exactly if the counter got its deadline, which a request that
  stops between INCR and EXPIRE prevents (`SelfRecovery`, `CounterCanStick`).
- The failure window is called sliding; it is fixed (`WindowIsNotSliding`). The missing failures
  open a circuit exactly if the last is counted before the deadline of the present counter, or
  within one window of the first when there is none (`TripsIffWithinTheWindow`). Over all
  interleavings, the generations of the counter that trip are exactly those that count threshold
  failures (`TripsAreExact`), and a generation that no successful probe deletes counts every
  failure of its window: threshold failures in it open the circuit, and with prompt EXPIREs
  nothing else does (`TripsIffTheWindowFills`).

**Token bucket.** Tokens and times are real numbers. A visit may find its key gone, for whatever
reason, and the clocks of different gateways may disagree; results that need more say so. Every
visit brings its own capacity and rate, because the key of a bucket holds neither the route nor
its limit (`SharedBucketIff`): routes that limit by user, or by address, share one bucket per user
or address. `BucketRuns` bounds what such a key admits, and says exactly when it admits
everything: when the traffic conforms in each life of the key (`AllAdmittedIff`, and for the
script with the expiry it sets, `ScriptAdmitsIff`). What one route's limit still means depends on
the limits that reach the key. For the script with its expiry, when the clocks agree:

- The limit is never exceeded on any run if and only if no limit on the key has a larger rate and
  none lets the key expire before this limit has refilled (`ScriptKeepsLimitIff`). While a key
  lives, the rates alone decide (`LimitKeptIff`).
- Traffic that keeps to its own limit is sure to be served if and only if all requests of the key
  have one limit (`ScriptServesOwnTrafficIff`). With two, a single request of the smaller capacity
  cuts the bucket down to that (`OneRequestCutsTheBucket`).
- The expiry of the key is never noticed if and only if every limit refills by the deadline
  that any of them sets (`ExpiryInvisibleIff`): the windows differ by at most two seconds.

With one limit on the key these give the usual statement: with a forward clock no request is
rejected exactly when every stretch of traffic is within capacity + rate * elapsed
(`ScriptAdmitsOneLimitIff`). The shipped routes are not of this kind: the user route
(config/routes.yaml:86-91, limit 1000) and the chat route (config/routes.yaml:191-196, limit 10)
both limit by user, and `ShippedRoutesShare` says what holds for them.

**Route store.** A validated payload and its dump, and a rendered file and its parse, are the same
value. A payload that does not validate is answered with 409, because the validation error is a
`ValueError` and that handler comes first; the 422 handler below it is never reached.
`RouteAdmin` says what each request does to the table and the log; `AdminService` is the handlers
as methods over the loader, history and engine objects, proved to do exactly that from any state;
`RouteRequests` says it once more in terms of the arguments and the map before, for each reply.
Start-up writes neither the file nor the hash, so they may differ from the list until the first
successful request, which brings list, file, engine and Redis hash into agreement; a refused one
changes nothing.

**Preconditions.** Threshold, window and recovery time of the breaker, limit and window of the
rate limiter, and the history bound are at least 1. The configuration of a breaker stays the same
while its keys live; a lower threshold shows HALF_OPEN by a counter that never tripped. The limits
of the routes on one bucket key may differ, and the results on one limit say that they require it.
The initial routes file has unique ids, and so has the history: the identifiers of new entries
(`FreshIds`) differ from each other and from those in the log.

## Model

| member | source | states |
|---|---|---|
| BreakerSafety.ProbeExclusion | gateway/plugins/circuitbreaker/breaker_plugin.py:75-101 | in every interleaving, probes in flight are at most 1 plus the lock expiries that hit a live probe; without one, probes exclude each other and a live probe implies the lock |
| BreakerRuns.ProbesExclusiveWhileShort | gateway/plugins/circuitbreaker/breaker_plugin.py:75-101 | on every run, the lock expires under a live probe if and only if some probe is in flight for 10 seconds or longer; where none is, probes exclude each other and a live probe implies the lock |
| BreakerRuns.ProbesCanOverlap | gateway/plugins/circuitbreaker/breaker_plugin.py:75-101 | for every valid configuration and every n there is a run with n probes in flight after n - 1 lock expiries, so the bound is attained and the lock alone is not exclusive |
| BreakerRuns.ProbesExclusiveIff | gateway/plugins/circuitbreaker/breaker_plugin.py:75-101 | for every valid configuration, probes exclude each other on every run whose probes are shorter than d seconds if and only if d <= 10 |
| BreakerSafety.TripIsJustified | gateway/plugins/circuitbreaker/breaker_plugin.py:136-144 | before every ordinary trip at least threshold different requests failed upstream without probing in one counter generation, within one window when INCR and EXPIRE coincide in time |
| BreakerSafety.TripsAreExact | gateway/plugins/circuitbreaker/breaker_plugin.py:136-144 | for every counter generation, alive or gone, the open key was written for it or is about to be, if and only if it counted at least threshold failures; the live counter shows exactly its generation's failures |
| BreakerGenerations.WindowIsTheGeneration | gateway/plugins/circuitbreaker/breaker_plugin.py:136-144 | in every interleaving, the failures counted in the window of a generation belong to it unless a successful probe deleted it; with prompt EXPIREs they are all of its failures |
| BreakerGenerations.TripsIffTheWindowFills | gateway/plugins/circuitbreaker/breaker_plugin.py:136-144 | over all interleavings, threshold failures in the window of a generation that no probe deleted trip it; with prompt EXPIREs it trips, or is about to, if and only if its window holds that many |
| BreakerSafety.StepKeepsInvariant | gateway/plugins/circuitbreaker/breaker_plugin.py:53-144 | every step of every request keeps the deadline, probe, counter, trip and window invariants together |
| BreakerRuns.OpenFlagShields | gateway/plugins/circuitbreaker/breaker_plugin.py:53-66 | while the open flag lives, over any run, its deadline never moves back, the requests past the check only shrink, and every other request is answered 503 with a Retry-After between 1 and the recovery time |
| BreakerRuns.TripShields | gateway/plugins/circuitbreaker/breaker_plugin.py:122-144 | a trip or failed probe keeps new requests from the upstream for the whole recovery time |
| BreakerRuns.SelfRecovery | gateway/plugins/circuitbreaker/breaker_plugin.py:137-140 | after max(window, recovery, 10) seconds without traffic all keys are gone if and only if the counter had a deadline, which holds when no request stopped between INCR and EXPIRE |
| BreakerRuns.CounterCanStick | gateway/plugins/circuitbreaker/breaker_plugin.py:137-140 | in every valid configuration, a request that stops between INCR and EXPIRE can leave a circuit that tripped and recovered with a full counter that no waiting removes |
| BreakerRuns.NextRequestIsOrdinary | gateway/plugins/circuitbreaker/breaker_plugin.py:53-93 | with no keys left the next request goes upstream without probing |
| BreakerPhases.SerialRefinement | gateway/plugins/circuitbreaker/breaker_plugin.py:5-9 | with requests one at a time, each step after any serial run takes an edge of the CLOSED / OPEN / HALF_OPEN machine extended by the lapse of the failure window |
| BreakerPhases.ServedByPhase | gateway/plugins/circuitbreaker/breaker_plugin.py:53-89 | a serial request is rejected exactly in OPEN, probes exactly in HALF_OPEN with the lock free, and is ordinary exactly in CLOSED |
| BreakerPhases.HalfOpenFollowsOpenIff | gateway/plugins/circuitbreaker/breaker_plugin.py:7-7 | when the open flag lapses, HALF_OPEN follows exactly if a counter at the threshold is still alive |
| BreakerPhases.ShortWindowSkipsHalfOpen | gateway/plugins/circuitbreaker/breaker_plugin.py:139-144 | with window <= recovery time and prompt EXPIREs, in every interleaving a state that shows HALF_OPEN is one whose trip is still about to be written |
| BreakerPhases.AfterTheRecoveryTime | gateway/plugins/circuitbreaker/breaker_plugin.py:129-144 | for every valid configuration a reachable state in which the circuit tripped, every request ended and the open flag lapsed shows HALF_OPEN if window > recovery time and CLOSED otherwise |
| BreakerPhases.HalfOpenAfterTripIff | gateway/plugins/circuitbreaker/breaker_plugin.py:5-9 | with prompt EXPIREs, over all interleavings, HALF_OPEN after a written trip is reachable if and only if window > recovery time |
| BreakerPlugin.CircuitBreakerPlugin.Call | gateway/plugins/circuitbreaker/breaker_plugin.py:45-109 | the keys and the reply after an uninterrupted call, in all branches |
| BreakerPlugin.CircuitBreakerPlugin.HandleFailure | gateway/plugins/circuitbreaker/breaker_plugin.py:111-127 | a failed probe reopens and unlocks; an ordinary failure is recorded |
| BreakerPlugin.CircuitBreakerPlugin.RecordFailure | gateway/plugins/circuitbreaker/breaker_plugin.py:129-144 | counts, starts the window on the first failure, trips at the threshold |
| BreakerPlugin.CallIsARun | gateway/plugins/circuitbreaker/breaker_plugin.py:45-144 | from any state with bounded deadlines, that call is a run of the interleaved system with the same keys and reply |
| BreakerPlugin.CallWhileOpen | gateway/plugins/circuitbreaker/breaker_plugin.py:53-66 | with the open key alive, nothing changes and Retry-After is the remaining time to the nearest second, at least 1 and at most the recovery time |
| BreakerPlugin.CallWhileClosed | gateway/plugins/circuitbreaker/breaker_plugin.py:91-109 | below the threshold, all keys afterwards: one more failure in the counter that still lives exactly if the call raised or answered 500 or above, with the window from the first and the trip at the threshold |
| BreakerPlugin.CallWhileHalfOpen | gateway/plugins/circuitbreaker/breaker_plugin.py:75-109 | a probe reopens for the recovery time exactly if it raised or was answered 500 or above; any other answer leaves no keys |
| BreakerPlugin.CallWhileProbed | gateway/plugins/circuitbreaker/breaker_plugin.py:84-89 | with the lock taken the request is turned away and nothing changes |
| BreakerPlugin.OutcomeIsJudged | gateway/plugins/circuitbreaker/breaker_plugin.py:95-109 | in every interleaving, what a request does after its call: count or reopen exactly for an exception or a status of 500 or above |
| BreakerPlugin.CallByPhase | gateway/plugins/circuitbreaker/breaker_plugin.py:53-109 | by the phase it finds, one call rejects and changes nothing, forwards and trips exactly at the threshold, or settles the circuit for good or for the recovery time |
| BreakerWindow.TripsIffWithinTheWindow | gateway/plugins/circuitbreaker/breaker_plugin.py:136-144 | from a closed circuit with c failures counted, threshold - c further failures open it if and only if the last is counted before the deadline of the present counter, or within one window of the first if there is none |
| BreakerWindow.ServerErrorsTrip | gateway/plugins/circuitbreaker/breaker_plugin.py:95-96 | from no keys, threshold answers of status 500 or above open the circuit exactly if the last comes within one window of the first |
| BreakerWindow.OtherAnswersLeaveNothing | gateway/plugins/circuitbreaker/breaker_plugin.py:97-104 | no number of answers below 500 leaves any key |
| BreakerWindow.ServeIsARun | gateway/plugins/circuitbreaker/breaker_plugin.py:45-144 | requests served one after the other, with any waits, are a run of the interleaved system |
| BreakerWindow.WindowIsNotSliding | gateway/plugins/circuitbreaker/breaker_plugin.py:14-14 | a reachable state that a sliding window would treat differently: three failures within three seconds, threshold 3, window 10, and the circuit is closed |
| TokenBucket.BucketStore.EvalScript | gateway/plugins/ratelimit/ratelimit_plugin.py:37-65 | the script's decision and the bucket and deadline it stores; no other key changes |
| TokenBucket.ClientAddressIsFirstEntry | gateway/plugins/ratelimit/ratelimit_plugin.py:100-106 | the client address is what stands before the first comma of a non-empty X-Forwarded-For, without the white space around it |
| TokenBucket.SharedBucketIff | gateway/plugins/ratelimit/ratelimit_plugin.py:86-106 | two whole requests, of whatever routes, key functions, principals, headers and peers, share a bucket exactly if both go by the same user, or by the same API key, or by the same address; the limit plays no part |
| TokenBucket.DirectPeersShareIff | gateway/plugins/ratelimit/ratelimit_plugin.py:99-106 | requests by address without the header share a bucket exactly if their peers are the same, an absent one counting as unknown, and with a request that has the header exactly if its first entry is the peer |
| TokenBucket.TimeToLiveCoversRefill | gateway/plugins/ratelimit/ratelimit_plugin.py:62-63 | the time to live is the refill time rounded up to whole seconds, plus two |
| TokenBucket.RateLimiterPlugin.Configure | gateway/plugins/ratelimit/ratelimit_plugin.py:74-78 | the rate is limit per window |
| TokenBucket.RateLimiterPlugin.Call | gateway/plugins/ratelimit/ratelimit_plugin.py:108-146 | 429 with Retry-After exactly when the script refuses and its reply arrives; other buckets are untouched; when Redis fails the request passes, and the bucket changes exactly if the script ran |
| TokenBucket.RetryAfterSuffices | gateway/plugins/ratelimit/ratelimit_plugin.py:138-138 | after the announced Retry-After time an untouched bucket is full again |
| BucketRuns.TokensBounded | gateway/plugins/ratelimit/ratelimit_plugin.py:47-59 | stored tokens stay between 0 and the capacity of the last request, whichever limits share the key and however the clocks jump |
| BucketRuns.NeverTooMany | gateway/plugins/ratelimit/ratelimit_plugin.py:47-61 | while the key lives, a stretch admits at most the capacity of its first request plus the gains of the others, each at its own rate |
| BucketRuns.RejectionIsJustified | gateway/plugins/ratelimit/ratelimit_plugin.py:47-59 | every rejection has an earlier request that found its bucket full, with no key lost since, and the admissions since leave less than one token of it and of all gains since, however the clocks jump |
| BucketRuns.AllAdmittedIff | gateway/plugins/ratelimit/ratelimit_plugin.py:47-59 | on every run, with any limits, lost keys and clocks, no request is rejected if and only if every stretch without a lost key fits the capacity of its first request plus the gains of the others |
| BucketRuns.ConformingIsAdmitted | gateway/plugins/ratelimit/ratelimit_plugin.py:47-59 | traffic that fits on every stretch is never rejected, and while the key lives only such traffic is admitted in full |
| BucketSharing.ForwardTimeSpan | gateway/plugins/ratelimit/ratelimit_plugin.py:51-51 | the forward clock movement is the elapsed time for a monotone clock and never less |
| BucketSharing.OneLimitNeverTooMany | gateway/plugins/ratelimit/ratelimit_plugin.py:47-61 | with one limit on the key, a stretch admits at most capacity + rate * (forward clock movement) |
| BucketSharing.OneLimitAdmitsIff | gateway/plugins/ratelimit/ratelimit_plugin.py:47-59 | with one limit, traffic within capacity + rate * elapsed is never rejected; with a forward clock and a living key, nothing is rejected if and only if the traffic is within it |
| BucketSharing.LimitKept | gateway/plugins/ratelimit/ratelimit_plugin.py:47-61 | the admissions under a limit stay within it on every stretch in which no rate is larger and every lost key left it time to refill |
| BucketSharing.LimitKeptIff | gateway/plugins/ratelimit/ratelimit_plugin.py:86-97 | for any set of limits on a key, and while the key lives, one of them is never exceeded on any run if and only if it has the largest rate |
| BucketSharing.OneRequestCutsTheBucket | gateway/plugins/ratelimit/ratelimit_plugin.py:52-52 | for any two limits, a run in which the traffic of each conforms by itself and some request is rejected |
| BucketSharing.OwnTrafficServedIff | gateway/plugins/ratelimit/ratelimit_plugin.py:86-97 | while the key lives, traffic that conforms route by route is never rejected on any run if and only if one limit reaches the key |
| BucketExpiry.ScriptRunsWithExpiry | gateway/plugins/ratelimit/ratelimit_plugin.py:61-63 | the run model with expiry is the iterated script with its deadlines, each set by the limit of the last request |
| BucketExpiry.ExpiryInvisibleIff | gateway/plugins/ratelimit/ratelimit_plugin.py:61-63 | when the clocks agree, no run can tell a bucket that expires from one that does not if and only if the refill time of every limit is at most the time to live that each sets |
| BucketExpiry.ScriptAdmitsIff | gateway/plugins/ratelimit/ratelimit_plugin.py:37-65 | for every run of the script with its expiry and any limits, nothing is rejected if and only if the traffic conforms on every stretch in which no deadline passed |
| BucketExpiry.ScriptAdmitsConforming | gateway/plugins/ratelimit/ratelimit_plugin.py:37-65 | where expiry cannot be noticed, nothing is rejected if and only if the traffic conforms on every stretch |
| BucketExpiry.ScriptAdmitsOneLimitIff | gateway/plugins/ratelimit/ratelimit_plugin.py:37-65 | with one limit and a forward clock, the script with its expiry rejects nothing if and only if the traffic is within capacity + rate * elapsed |
| BucketExpiry.ScriptKeepsLimitIff | gateway/plugins/ratelimit/ratelimit_plugin.py:61-63 | for the script with its expiry and any set of limits on a key, one of them is never exceeded on any run if and only if no other has a larger rate or a time to live shorter than its refill time |
| BucketExpiry.ScriptServesOwnTrafficIff | gateway/plugins/ratelimit/ratelimit_plugin.py:86-97 | for the script with its expiry, traffic that conforms route by route is never rejected on any run if and only if one limit reaches the key |
| BucketExpiry.ShippedRoutesShare | config/routes.yaml:86-91 | the user and chat routes share a bucket: on every run of the script expiry is not noticed and the user limit is kept; the chat limit is not, and neither is sure of its own traffic |
| WriteLimiter.WriteActionRateLimiter.Allow | admin/app.py:52-62 | the evicting queue refuses exactly when limit admitted times of the full log lie strictly within the last window |
| WriteLimiter.AtMostLimitPerWindow | admin/app.py:52-62 | over any run, no half-open interval of one window holds more than limit admissions of a bucket |
| WriteLimiter.AllowedIff | admin/app.py:52-62 | over any run, a call is admitted exactly if the limit is off or fewer than limit calls of its bucket were admitted less than one window before; with a forward clock a refused call finds exactly limit |
| WriteLimiter.BucketsAreIndependent | admin/app.py:56-56 | every call is decided as if only its own bucket had called |
| ConfigLoader.ConfigLoader.CreateRoute | gateway/config/loader.py:264-271 | appends, or refuses a taken id and changes nothing |
| ConfigLoader.ConfigLoader.UpdateRoute | gateway/config/loader.py:273-294 | replaces or renames in place, or refuses with the conflict before the missing id and changes nothing |
| ConfigLoader.ConfigLoader.DeleteRoute | gateway/config/loader.py:296-303 | removes, or refuses an absent id and changes nothing |
| ConfigLoader.ConfigLoader.SaveToRedis | gateway/config/loader.py:202-214 | the hash becomes the id-to-route map of the list |
| ConfigLoader.ConfigLoader.Load | gateway/config/loader.py:175-196 | prefers a non-empty hash, in whatever order it is returned, and falls back to the file, also when Redis fails |
| ConfigLoader.SaveLoadRoundTrip | gateway/config/loader.py:181-208 | saving a table with unique ids and loading it back loses and invents no route, whatever the hash order |
| RouteOrder.ReloadKeepsMatchIff | gateway/core/router.py:8-8 | for a table with unique ids, every order of the hash serves a request as the saved list did if and only if at most one route matches it |
| RouteTable.HashLosesNothingIff | gateway/config/loader.py:206-210 | the hash has as many entries as the list has routes if and only if ids are unique |
| RouteTable.CreatedKeepsUnique | gateway/config/loader.py:267-271 | creating keeps ids unique and adds one entry to the map |
| RouteTable.ReplacedKeepsUnique | gateway/config/loader.py:276-294 | updating, also under a new id, keeps ids unique and moves one entry of the map |
| RouteTable.RemovedKeepsUnique | gateway/config/loader.py:299-303 | deleting keeps ids unique and removes one entry of the map |
| RouteHistory.RouteHistoryStore.Append | admin/history.py:40-64 | the log grows by the entry and the file keeps its newest max_entries |
| RouteHistory.RouteHistoryStore.Find | admin/history.py:70-74 | the first entry with the id |
| RouteHistory.FindEntryIff | admin/history.py:70-74 | nothing is found exactly if no entry has the id, and otherwise the first that has it |
| RouteHistory.RouteHistoryStore.constructor | admin/history.py:19-30 | starts from a file of any length |
| RouteHistory.RouteHistoryStore.ListEntries | admin/history.py:66-68 | the newest entries, newest first, as many as asked for but at least 1 and at most max_entries, all of which the file still holds |
| RouteAdmin.ExecuteIsLogged | admin/app.py:403-587 | a successful operation writes one entry that is true of the table before it and whose replay is the table after it; a refused one changes nothing |
| RouteRequests.CreateDoes | admin/app.py:403-437 | 409 for an invalid payload or a taken id and nothing changes; otherwise the route is appended and the entry says so |
| RouteRequests.UpdateDoes | admin/app.py:439-481 | 404 for an absent id first, then 409 for an invalid payload or a taken new id; otherwise exactly the route with the id is replaced in its place, and the entry holds the old and the new one |
| RouteRequests.DeleteDoes | admin/app.py:483-512 | 404 for an absent id; otherwise exactly the route with the id is taken out, the others keep their sequence, and the entry holds it |
| RouteRequests.RollbackDoes | admin/app.py:514-587 | 404 exactly if no entry has the id; otherwise 409, 422, 500 or success by the snapshots of the first that has it and the ids present, the map afterwards, and the snapshots of the new entry |
| RouteAdmin.RedoIsFold | admin/app.py:530-569 | replaying an entry is, on the map, removing before.id and putting after |
| RouteAdmin.HistoryIsExact | admin/app.py:403-587 | any run of operations from any table with unique ids and any log only appends; replaying the new entries gives the list, folding them gives the map, and ids stay unique |
| RouteUndo.UndoOne | admin/app.py:530-569 | rolling back an entry on the table it produced always succeeds and restores the table before it, as a list unless the entry deleted |
| RouteUndo.RollbackIsReverse | admin/app.py:530-571 | rolling back any entry on any table is accepted exactly if a created route is still there and a reversed rename does not collide, and its effect is the entry with before and after exchanged |
| RouteUndo.DeletedRouteReturnsLast | admin/app.py:541-546 | undoing a deletion restores the list exactly if the route was last |
| RouteUndo.UndoNewest | admin/app.py:514-587 | rolling back the newest entry undoes the operation that wrote it; a rollback of a rollback redoes |
| RouteUndo.UndoRestores | admin/app.py:514-587 | in any state whose log explains its table up to order, rolling back the entries above k never fails and restores the map after entry k |
| RouteUndo.UndoOverRuns | admin/app.py:403-587 | after any run of creates, updates, renames, deletes, rollbacks and refused requests from any explained state, rolling back to k, also into older entries, restores the map, and the list if the entries are of this run and none deleted |
| RouteUndo.RestartKeepsHistory | admin/history.py:25-33 | the entries that survive a restart still explain the table that is loaded from the hash in any order |
| RouteUndo.UndoAcrossRestart | admin/main.py:24-30 | a run, a restart with a shortened history and a reordered table, and another run: rolling back to any kept entry succeeds and restores the map |
| AdminService.AdminService.StartUp | admin/main.py:24-30 | the engine gets the loaded list, which has unique ids if its source does; file and hash are not written |
| AdminService.AdminService.CreateRoute | admin/app.py:403-437 | from any state the handler does what the operation says; success leaves list, file, engine and hash in agreement, refusal changes nothing |
| AdminService.AdminService.UpdateRoute | admin/app.py:439-481 | the same, with 404 before 409 |
| AdminService.AdminService.DeleteRoute | admin/app.py:483-512 | the same for deletion |
| AdminService.AdminService.ApplyRollback | admin/app.py:525-571 | the table edit and the two snapshots of each rollback branch |
| AdminService.AdminService.RollbackRoute | admin/app.py:514-587 | the same for rollback, which logs its own entry |
| Router.RoutingEngine.UpdateRoutes | gateway/core/router.py:70-81 | replaces the table and keeps exactly the counters of ids still present |
| Router.RoutingEngine.Match | gateway/core/router.py:83-118 | the first route in table order whose five checks all pass |
| Router.ProtocolIsDetected | gateway/core/router.py:27-35 | the protocol, host and method an incoming request is matched by |
| Router.MatchesIff | gateway/core/router.py:91-115 | what a route accepts: protocol and HTTP method up to case, which hosts, which paths by kind of pattern, and the required headers under lower-case names |
| Router.RoutingEngine.MatchGrpc | gateway/core/router.py:120-144 | the route that match finds for the gRPC request, whatever its HTTP method |
| Router.RoutingEngine.ResolveUpstream | gateway/core/router.py:146-178 | no target exactly for an empty list; random takes the drawn target, ip_hash the hash modulo targets, any other strategy the counter modulo targets, and only that one advances only this route's counter |
| Router.FirstMatchIsEarliest | gateway/core/router.py:91-115 | the result is the earliest matching route |
| Router.FirstMatchNoneIff | gateway/core/router.py:117-118 | there is no result exactly if no route matches |
| Router.CreateIsLocal | gateway/config/loader.py:269-271 | a created route only serves requests that nothing matched before |
| Router.ReplaceIsLocal | gateway/config/loader.py:281-288 | an update only affects requests that the old or the new route matches |
| Router.DeleteIsLocal | gateway/config/loader.py:299-303 | a deletion only affects requests that the deleted route matches |
| Router.CounterCountsSelections | gateway/core/router.py:70-80 | a counter is the number of selections since the last reload without the route, whatever other routes do |
| Router.RoundRobinIsFair | gateway/core/router.py:165-168 | n consecutive selections over k targets take every target n / k times, rounded down or up, across interleaved selections and reloads |
| Router.RowByStrategy | gateway/core/router.py:157-168 | n selections of one route in a row, whatever the draws and hashes: by strategy the drawn, the hashed, or the next target in turn |
| RetryProxy.SendWithRetry | gateway/core/proxy.py:130-156 | outcome, number of attempts and waits for every outcome stream and count; the trailing error is raised if and only if count is negative |
| RetryProxy.LastAttemptIff | gateway/core/proxy.py:131-149 | attempt k is the last exactly if all before it timed out, failed to connect or got a status to be retried, and it got another status or an uncaught exception, or k is count |
| RetryProxy.Forward | gateway/core/proxy.py:78-100 | the answer to the client: the last response, 504 for a time-out, 502 for a failed connection |
| RetryProxy.DecisiveIsFirstFinal | gateway/core/proxy.py:131-149 | the outcome handed on is that of the first final attempt within count + 1, or else the last |
| RetryProxy.DecisiveIsUnique | gateway/core/proxy.py:131-149 | that description determines the attempt |
| RetryProxy.TotalWait | gateway/core/proxy.py:151-152 | k + 1 attempts wait backoff * (2^k - 1) in total |
| RetryProxy.RetryableStatusMeansAllFailed | gateway/core/proxy.py:78-92 | the client sees a retryable failure only after count + 1 attempts that all timed out, failed to connect or got a status to be retried |
| PluginPipeline.SortIsStable | gateway/core/pipeline.py:120-121 | plugins ascend by order and keep their sequence within one order |
| PluginPipeline.StableSortIsUnique | gateway/core/pipeline.py:120-121 | only one sequence has these properties |
| PluginPipeline.PluginCache.GetOrCreate | gateway/core/pipeline.py:35-62 | after any history of calls, the plugin handed out equals a freshly configured one |
| PluginPipeline.InstancesAreWanted | gateway/core/pipeline.py:112-119 | each enabled, registered and accepted configuration gives exactly one plugin, with the order of its class, in list order; no other gives any |
| PluginPipeline.BuildChain | gateway/core/pipeline.py:77-97 | the loop over the reversed plugins builds the nested chain |
| PluginPipeline.MiddlewarePipeline.GetPlugins | gateway/core/pipeline.py:112-121 | the enabled, known and configurable plugins, sorted |
| PluginPipeline.MiddlewarePipeline.Execute | gateway/core/pipeline.py:123-139 | the request runs through the sorted global plugins, then those of the route, then the handler |
| PluginPipeline.ChainConcat | gateway/core/pipeline.py:136-139 | the chain of two lists is the chain of the first around the chain of the second |
| PluginPipeline.ChainNests | gateway/core/pipeline.py:77-97 | a prefix of the plugins is entered and left in reverse; the handler runs once exactly if all forward |
| PluginPipeline.ChainResponds | gateway/core/pipeline.py:77-97 | the response is the handler's, or that of the plugin that answered, passed back through the entered plugins in reverse, each with the context it was entered with |

## Left out

- BreakerPlugin.CircuitBreakerPlugin.Call: nothing interleaves inside this method; interleavings are the business of the transition system, where time may also pass at every command.
- TokenBucket.BucketStore.EvalScript: tokens are real numbers; the rounding of floats and of the number format in the Redis hash is not modelled.
- Router.RoutingEngine.ResolveUpstream: the weighted random index and the value of the hash function are parameters.
- Router.RoutingEngine.Match: regular expressions and globs are parameters, and upper and lower case is that of ASCII.
- ConfigLoader.ConfigLoader.Load: the gateway section, environment placeholders and YAML or JSON parsing are not modelled.
- RouteHistory.RouteHistoryStore.Append: the entry identifier is a parameter; actor and timestamp fields are omitted.
- AdminService.AdminService.RollbackRoute: one admin request at a time; concurrent writers and out-of-order saves to Redis are not modelled.
- RetryProxy.SendWithRetry: what each attempt would end with is a parameter; sending and sleeping are not modelled.
- PluginPipeline.MiddlewarePipeline.Execute: plugin behaviour is a parameter and follows the documented contract, so a plugin calls the next one at most once; exceptions count as responses.
- Redis errors in the circuit breaker and in saving, and cluster failover.
- JWT, mTLS and API-key checks, the admin key store and IP allow-lists.
- External edits of the routes file and the reload endpoints, which bypass the history.
- WebSocket, gRPC channel and HTTP client plumbing, header filtering and URL building.
- Dashboard, previews, audit log, metrics, tracing, file watcher and the web console.
