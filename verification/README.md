# RateGuard in Dafny

A model of RateGuard's state: the four rate limiting algorithms in memory and in Redis, the facade
that keeps one limiter per client and route, the policy resolver, and the audited policy store with
the admin handlers that use it. Verify with `dafny verify dfyconfig.toml`.

## How it is built

Every operation that changes state is a method of a class with the source's fields (`Facade`,
`SlidingWindow`, `Resolver`, ...). Its contract equates its answer and its whole new state with a
specification function of the same module. Theorems about single calls, whole runs and
interleavings are lemmas about those functions.

| files | what they hold |
|---|---|
| `Prelude` | options, rounding, and time multiplied by a rate |
| `FixedWindow`, `SlidingWindow`, `TokenBucket`, `LeakyBucket` | the memory limiters |
| `Redis` | keys that expire, sorted sets |
| `RedisFixedWindow`, `RedisSlidingWindow`, `RedisTokenBucket`, `RedisLeakyBucket` | one atomic script a decision |
| `RedisLeakyReads` | the leaky bucket's expiry once its reading script runs too |
| `Factory`, `Limiters` | rate = limit/window; any limiter as a value and as an object |
| `LruTable`, `Facade`, `FacadeRuns`, `FacadeRefines` | the facade: its table, its objects, its interleavings, and the objects as states of those |
| `EndToEnd`, `EndToEndReached` | what a client gets out of interleaved runs, and runs that reach the bounds |
| `Histories` | all four algorithms behind the facade: what each limiter holds, decides, reports and admits |
| `Policies`, `Resolver`, `ResolverRuns` | policies, the cache, and the cache as a concurrent protocol |
| `Enforcement` | a request through resolver and facade |
| `Audit`, `PolicyStore`, `AdminRuns`, `AdminApi` | the trail, the audited stores, racing handlers, handlers over the objects |

## Conventions

- Time is a real number that never decreases. A method that reads the clock twice takes two times.
- Redis scripts and sections under a lock are atomic. A facade call is two atomic steps (lookup, then
  decision), a cached resolution three, a create or update two.
- A Redis key is gone from the instant `now` reaches its expiry. Redis itself may keep it through the
  millisecond of its expiry; a reported time that is "enough" for a fixed window is so from the next one on.
- Rates are exact quotients; `int`, `math.floor` and `math.ceil` are modelled as they round.
- Re-tuning is atomic with respect to decisions. In the source `_retune` holds only the facade's lock
  (`app/middleware/rate_limiter.py:87-99`), so a decision at that moment can see a new capacity with the
  old rate; such a decision is not modelled.
- Policies are already validated: limit and window are at least 1.
- Whether an append to the audit log succeeds, and where a Redis script stops, are inputs.

## Where the code and its documents part

The model follows the code. In each place there is a theorem for what does hold.

- A facade entry is rebuilt `key_ttl` after its creation although it is in use
  (`app/middleware/rate_limiter.py:40`, `110-112`). A window can then admit one limit more for every rebuild it
  covers: twice the limit if it is no longer than `key_ttl`, m + 1 times if m times `key_ttl` cover it
  (`EndToEnd.LimitPerLifetime`, `EndToEndReached.LimitPerLifetimeReached`). That holds while decisions use the
  limiter in the table and the clocks of lookups, which are read before the lock, are in order. The code
  guarantees neither: with calls in flight or late lookups any number can be admitted at one instant
  (`InFlightExceeds`, `LateLookupsExceed`), at most one limit for each limiter that decides
  (`EndToEnd.BoundByDeciders`).
- Re-tuning keeps the time to live chosen at construction. Expiry of a token bucket is then noticed iff the
  window grew, of a leaky bucket iff the window grew or the rate fell (`Factory`). For sliding windows the
  tolerance is the grace of 5 seconds (`RedisSlidingWindow.RetuneUnnoticedIff`).
- A leak drops the fraction it did not drain, so the drain lies between half the rate and the rate
  (`LeakyBucket.DrainBounds`), not at the constant rate of RateGuard's `README.md:118`.
- The Redis leaky bucket's reading script drains without renewing the set's expiry. Between decisions
  such readings can make expiry visible for every factory-built limit above 1
  (`RedisLeakyReads.BuiltTtlSurvivesReadsIff`), so the "full-drain time" of RateGuard's `README.md:132` is not one.
- The Redis fixed window counts every attempt. RateGuard's `README.md:358` holds iff the counter stands at the old limit;
  for a client that used the window under that limit alone, iff nothing was rejected
  (`RedisFixedWindow.RaisingAfterRunIff`).
- The Redis token bucket caps its tokens only when time has passed, so at the instant the capacity is lowered
  by more than one it admits more than memory (`RedisTokenBucket.RetuneSameAsMemoryIff`), and an object
  without a decision can report more tokens than the capacity (`ReadOverstatesIff`).
- A lookup in flight can put an old policy back after an invalidation. RateGuard's `README.md:354` holds on the
  worker that handled the update iff there is none (`ResolverRuns.SeenAtOnceIff`).
- A create can be logged over an existing policy (RateGuard's `README.md:394`): iff other handlers changed the
  route in between and the last of them left a policy (`AdminRuns.CreateReplacesIff`). Of two racing
  updates one can be lost (`AdminRuns.UpdateMergesIff` says when).
- "A mutation can never succeed while its audit event is silently lost" (`app/policies/store.py:30-31`)
  is true of Redis scripts that run to their end (`PolicyStore.FaultConsistentIff`).
- Memory reset times round down. What RateGuard's `README.md:147` promises of them holds with one second more; alone it
  holds iff nothing was rounded, or, in a leaky bucket, iff what drained before the rejection makes up for
  it (`LeakyBucket.ReportedWaitAloneIff`). After the limit was lowered both sliding windows and the Redis
  leaky bucket report the wait for one place, which can be too short; each module says exactly when a
  retry is admitted. Redis reset times round up; after an admission the sliding window reports 0 there,
  so the difference can exceed the second that RateGuard's `REPORT.md:66` speaks of.
- A filtered Redis audit listing can miss what memory finds; `Audit.RedisListingIsPrefix` says when.

## Model

| member | source | states |
|---|---|---|
| Prelude.Truncate | app/algorithms/token_bucket.py:59 | what `int` does to seconds of either sign: rounds toward zero |
| Prelude.Ceil | app/algorithms/redis_token_bucket.py:63 | what `math.ceil` does: the least whole number not below |
| Prelude.WholeSeconds | app/algorithms/fixed_window.py:46-49 | `max(0, int(x))` is never negative, never above a positive x, and less than one below it |
| FixedWindow.FixedWindowRateLimiter.constructor | app/algorithms/fixed_window.py:6-13 | a new limiter counts nothing and its window opens at the clock reading |
| FixedWindow.FixedWindowRateLimiter.ResetIfNeeded | app/algorithms/fixed_window.py:15-20 | opens a new empty window exactly when the old one is over, else changes nothing |
| FixedWindow.FixedWindowRateLimiter.AllowRequest | app/algorithms/fixed_window.py:22-31 | decision and whole new state equal one step of the state machine the run theorems are about |
| FixedWindow.FixedWindowRateLimiter.RemainingRequests | app/algorithms/fixed_window.py:33-40 | a reading step; what the limit leaves above the count, at least 0 |
| FixedWindow.FixedWindowRateLimiter.ResetTime | app/algorithms/fixed_window.py:42-49 | a reading step; the rest of the window, rounded down |
| FixedWindow.Reachable | app/algorithms/fixed_window.py:15-31 | after any run no more than the largest limit is counted and the window is not in the future |
| FixedWindow.WithinWindows | app/algorithms/fixed_window.py:15-31 | from a window that opened less than m+1 windows ago at most what it has left plus m times the limit is admitted |
| FixedWindow.IntervalBound | app/algorithms/fixed_window.py:15-31 | in every run a closed interval of length m*window admits at most (m+1) times the largest limit in force |
| FixedWindow.BoundReached | README.md:115 | the bound is tight for every m, limit and window; m = 1 is the doubled limit at a window edge |
| FixedWindow.WaitingIsEnough | README.md:147 | one second past the reported reset time is always enough |
| FixedWindow.ReportedWaitAloneIffWhole | app/algorithms/fixed_window.py:42-49 | after a rejection the reported value alone is enough exactly when rounding it down lost nothing |
| FixedWindow.ResetIsWindowEnd | app/algorithms/fixed_window.py:42-49 | the reported seconds are exactly those that do not reach past the end of the window |
| FixedWindow.RemainingIsAdmitted | app/algorithms/fixed_window.py:33-40 | the reported count is true: of the requests that follow in the same window, whenever they come and whatever is read in between, exactly that many are admitted |
| SlidingWindow.SlidingWindowRateLimiter.constructor | app/algorithms/sliding_window.py:7-14 | a new limiter remembers no request |
| SlidingWindow.SlidingWindowRateLimiter.RemoveExpiredRequests | app/algorithms/sliding_window.py:16-21 | the popping loop leaves exactly what follows the expired front |
| SlidingWindow.SlidingWindowRateLimiter.AllowRequest | app/algorithms/sliding_window.py:23-32 | decision and whole new queue equal one step; the two clock readings are kept apart |
| SlidingWindow.SlidingWindowRateLimiter.RemainingRequests | app/algorithms/sliding_window.py:34-38 | a reading step; what the limit leaves above the live queue, at least 0 |
| SlidingWindow.SlidingWindowRateLimiter.ResetTime | app/algorithms/sliding_window.py:40-50 | a reading step; 0 for an empty queue, else the wait for the oldest entry, rounded down |
| SlidingWindow.QueueIsLiveHistory | app/algorithms/sliding_window.py:16-32 | after any run under any changes of limit and window the queue is exactly the admitted times after the latest cut-off |
| SlidingWindow.AdmitsIffRoomInHistory | app/algorithms/sliding_window.py:23-32 | in every reachable state a request is admitted iff fewer than `limit` admissions are later than the latest cut-off |
| SlidingWindow.ExactOverTrailingWindow | README.md:116 | with one window length: admitted iff fewer than `limit` earlier admissions lie in the trailing window |
| SlidingWindow.AdmissionLeavesAtMostLimit | app/algorithms/sliding_window.py:23-32 | through every change of limit between calls, an admission leaves at most the limit then in force in the trailing window of one limiter |
| SlidingWindow.AdmissionsSpaced | app/algorithms/sliding_window.py:23-32 | admission i+limit comes at least one window after admission i, in every run |
| SlidingWindow.AnyWindowBound | README.md:116 | any half-open interval one window long holds at most `limit` admissions of one limiter: no edge bursts |
| SlidingWindow.RaisingAdmitsDifference | README.md:358 | for the rest of the window, while the oldest entry lives, exactly limit - used more requests are admitted, whenever they come and whatever is read in between: raising a full limiter from a to b admits exactly b - a |
| SlidingWindow.RemainingIsAdmitted | app/algorithms/sliding_window.py:34-38 | the reported count is true: while the oldest entry lives, or from an empty queue the first to come, exactly that many further requests are admitted |
| SlidingWindow.RetryAdmittedIff | app/algorithms/sliding_window.py:20-28 | when a retry succeeds: iff the entry `limit` places from the newest end has left the window |
| SlidingWindow.QueueWithinLimit | app/algorithms/sliding_window.py:23-32 | a limiter that never ran under a higher limit never holds more than its limit |
| SlidingWindow.WaitingIsEnough | app/algorithms/sliding_window.py:40-50 | for a limiter holding no more than its limit, one second past the reported time is always enough |
| SlidingWindow.ReportedWaitAloneIffWhole | app/algorithms/sliding_window.py:40-50 | for a full limiter the reported value alone is enough iff rounding down lost nothing |
| SlidingWindow.ResetIsOldestLeaving | app/algorithms/sliding_window.py:40-50 | the reported seconds are exactly those before which the oldest entry has not left; 0 for an empty queue |
| SlidingWindow.WaitingFailsAfterTightening | app/algorithms/sliding_window.py:47-50 | after the limit is lowered the reported time is that of one entry only and can be too short, for every limit |
| TokenBucket.TokenBucketRateLimiter.constructor | app/algorithms/token_bucket.py:7-14 | a new bucket is full |
| TokenBucket.TokenBucketRateLimiter.RefillTokens | app/algorithms/token_bucket.py:16-28 | elapsed time times rate is added up to the capacity and the clock moves to now |
| TokenBucket.TokenBucketRateLimiter.AllowRequest | app/algorithms/token_bucket.py:30-39 | decision and whole new state equal one step |
| TokenBucket.TokenBucketRateLimiter.RemainingRequests | app/algorithms/token_bucket.py:41-45 | a reading step; the whole tokens |
| TokenBucket.TokenBucketRateLimiter.ResetTime | app/algorithms/token_bucket.py:47-59 | a reading step; the wait for one token rounded down, 0 when there is one or the rate is not positive |
| TokenBucket.TokensInRange | app/algorithms/token_bucket.py:16-39 | after every call the tokens lie between 0 and the capacity in force |
| TokenBucket.AdmissionsPaidFor | app/algorithms/token_bucket.py:16-39 | under any re-tuning admissions plus tokens left never exceed the starting tokens plus each gap times the rate at its end |
| TokenBucket.CreditOfFixedRate | app/algorithms/token_bucket.py:19-28 | under one setting the credits of all gaps add up to no more than rate times the time |
| TokenBucket.IntervalBound | app/algorithms/token_bucket.py:16-39 | an interval [s,t] under one setting admits at most capacity + rate*(t-s), whatever was left before |
| TokenBucket.Reachable | app/algorithms/token_bucket.py:7-39 | every state a run can reach meets what the interval bound asks |
| TokenBucket.WaitingIsEnough | app/algorithms/token_bucket.py:47-59 | one second past the reported time is always enough, after any reading call |
| TokenBucket.ReportedWaitAloneIffWhole | app/algorithms/token_bucket.py:57-59 | the reported value alone is enough iff rounding down lost nothing |
| TokenBucket.ResetIsWaitForToken | app/algorithms/token_bucket.py:47-59 | the reported seconds are exactly those that bring no more than the missing part of a token; 0 with a token |
| TokenBucket.RemainingIsAdmitted | app/algorithms/token_bucket.py:16-45 | of requests made at once, whatever is read in between, exactly the whole tokens are admitted: those left plus those refilled, up to the capacity; that is also what is reported |
| LeakyBucket.LeakyBucketRateLimiter.constructor | app/algorithms/leaky_bucket.py:7-14 | a new bucket is empty and its clock starts now |
| LeakyBucket.LeakyBucketRateLimiter.LeakRequests | app/algorithms/leaky_bucket.py:16-27 | the popping loop removes the whole drained requests, oldest first, and then restarts the clock |
| LeakyBucket.LeakyBucketRateLimiter.AllowRequest | app/algorithms/leaky_bucket.py:29-38 | decision and whole new state equal one step |
| LeakyBucket.LeakyBucketRateLimiter.RemainingRequests | app/algorithms/leaky_bucket.py:40-44 | a reading step; the free places, at least 0 |
| LeakyBucket.LeakyBucketRateLimiter.ResetTime | app/algorithms/leaky_bucket.py:46-63 | a reading step; the time the missing places take to drain, rounded down, and its three zero cases |
| LeakyBucket.DrainBounds | app/algorithms/leaky_bucket.py:16-27 | over any run spanning D the drain C satisfies (rate*D - 1)/2 < C <= rate*D; README.md:118 calls it constant |
| LeakyBucket.HalfRateApproached | app/algorithms/leaky_bucket.py:16-27 | schedules that drain n while the rate allows n*(2 - gap), for every n and every gap |
| LeakyBucket.AdmissionsFillPlaces | app/algorithms/leaky_bucket.py:29-38 | every admission fills a place that was free or was drained |
| LeakyBucket.IntervalBound | app/algorithms/leaky_bucket.py:16-38 | an interval [s,t] of any run admits fewer than capacity + rate*(t-s) + 1 |
| LeakyBucket.TwiceTheLimit | app/algorithms/factory.py:75-79 | with the rate limit/window a closed interval one window long admits at most twice the limit |
| LeakyBucket.Reachable | app/algorithms/leaky_bucket.py:16-38 | every state a run can reach meets what the interval bound asks |
| LeakyBucket.WaitingIsEnough | app/algorithms/leaky_bucket.py:46-63 | one second past the reported time is always enough, even above a lowered capacity |
| LeakyBucket.ReportedWaitAloneIff | app/algorithms/leaky_bucket.py:46-63 | after any rejection the reported value alone is enough iff, counted from the last leak, it reaches the time the missing places take to drain |
| LeakyBucket.ReportedWaitAloneIffWhole | app/algorithms/leaky_bucket.py:53-63 | when the rejecting call itself leaked, that means: iff rounding down lost nothing |
| LeakyBucket.ResetIsWaitForPlaces | app/algorithms/leaky_bucket.py:46-63 | the reported seconds are exactly those that drain no more than the missing places; 0 with room |
| LeakyBucket.RemainingIsAdmitted | app/algorithms/leaky_bucket.py:16-44 | of requests made at once, whatever is read in between, exactly the free places are filled: the capacity less what is queued after the whole drained requests are gone; that is also what is reported |
| Redis.AddNewest | app/algorithms/redis_sliding_window.py:24-25 | a name with a newly issued number is new: ZADD raises ZCARD by exactly one and puts the score last, whatever the text order of the names |
| Redis.RemovalCutsFront | app/algorithms/redis_sliding_window.py:17 | ZREMRANGEBYSCORE on a set in order cuts off exactly the front part up to the score |
| Redis.BackPartBuilt | app/algorithms/redis_leaky_bucket.py:33 | what is left of a set the scripts built is again such a set |
| RedisFixedWindow.RedisFixedWindowRateLimiter.constructor | app/algorithms/redis_fixed_window.py:55-80 | settings as given and nothing cached |
| RedisFixedWindow.RedisFixedWindowRateLimiter.AllowRequest | app/algorithms/redis_fixed_window.py:82-92 | runs the script atomically: new value of this client's key and no other, decision, cached remaining and reset |
| RedisFixedWindow.SameFrom | app/algorithms/redis_fixed_window.py:9-35 | the relation memory count = min(counter, limit), equal window starts, is kept by every decision |
| RedisFixedWindow.SameDecisionsAsMemory | app/algorithms/redis_fixed_window.py:9-35 | on every run of decisions under one limit Redis and a memory limiter created at the first request decide alike |
| RedisFixedWindow.AdmittedAboveCounter | app/algorithms/redis_fixed_window.py:10-21 | for the rest of a window, whenever requests come, exactly limit - counter more are admitted, and the counter includes rejected ones |
| RedisFixedWindow.RaisingAdmitsDifferenceIff | README.md:358 | raising from a to b admits exactly b - a in the rest of the window iff the counter, which counts every attempt under whatever limit, stands at a |
| RedisFixedWindow.CountsAttempts | app/algorithms/redis_fixed_window.py:10-16 | while the counter lives every attempt, admitted or not, raises it by one |
| RedisFixedWindow.RaisingAfterRunIff | README.md:358 | over runs: a client fills the window its first request opens under a, then the limit is raised to b: b - a more are admitted iff no request under a was rejected |
| RedisFixedWindow.WaitingIsEnough | app/algorithms/redis_fixed_window.py:28-32 | the reported reset time alone is always enough |
| RedisFixedWindow.RetryAdmittedIff | app/algorithms/redis_fixed_window.py:28-32 | and no shorter time is: after a rejection a retry a whole number of seconds later is admitted iff the number is at least the reported one |
| RedisFixedWindow.DecisionReportsAdmitted | app/algorithms/redis_fixed_window.py:94-97 | the count of the last decision, which is what is reported after one, is how many more are admitted while the counter lives |
| RedisFixedWindow.RemainingIsAdmitted | app/algorithms/redis_fixed_window.py:99-104 | the count reported before a first decision is how many are admitted in the rest of the window, or in the one the first of them opens |
| RedisFixedWindow.ReadWaitIsEnough | app/algorithms/redis_fixed_window.py:106-116 | the reset time reported before a first decision is always enough |
| RedisTokenBucket.RedisTokenBucketRateLimiter.constructor | app/algorithms/redis_token_bucket.py:73-102 | the time to live is int(capacity/rate), at least 1 |
| RedisTokenBucket.RedisTokenBucketRateLimiter.AllowRequest | app/algorithms/redis_token_bucket.py:104-118 | runs the script atomically: new value of this client's key and no other, decision, cached remaining and reset |
| RedisTokenBucket.ExpiryUnnoticed | app/algorithms/redis_token_bucket.py:25-57 | on every run, re-tuned or not, whose settings all refill within the time to live, the script answers as without PEXPIRE |
| RedisTokenBucket.ExpiryUnnoticedIff | app/algorithms/redis_token_bucket.py:25-57 | for one setting expiry changes no decision on any run iff ttl*rate >= capacity |
| RedisTokenBucket.RetuneUnnoticedIff | app/algorithms/redis_token_bucket.py:25-57 | for runs under one setting and then another: iff ttl*rate >= capacity under each |
| RedisTokenBucket.SharedExpiryUnnoticed | app/algorithms/redis_token_bucket.py:57-88 | objects built under different policies share the key: all answers are as without PEXPIRE if at every call a full refill fits into the time to live the call before has set |
| RedisTokenBucket.SameDecisionsAsMemory | app/algorithms/redis_token_bucket.py:10-71 | on every run whose settings refill in time and never lower the capacity by more than one at one instant, through every re-tune, Redis decides as a memory bucket created at the first request |
| RedisTokenBucket.RetuneSameAsMemoryIff | app/algorithms/redis_token_bucket.py:32-39 | for settings that refill in time all runs under one and then another are decided as in memory iff the capacity falls by no more than one: the script caps only when time has passed |
| RedisTokenBucket.WaitingIsEnough | app/algorithms/redis_token_bucket.py:59-64 | the reset time reported with a rejection alone is always enough, expiry or not |
| RedisTokenBucket.RetryAdmittedIff | app/algorithms/redis_token_bucket.py:59-64 | and no shorter time is: after a rejection a retry a whole number of seconds later is admitted iff the number is at least the reported one, without expiry and with a time to live that refills in time |
| RedisTokenBucket.ReportsZeroIffRoom | app/algorithms/redis_token_bucket.py:59-64 | a decision reports 0 iff another request at the same instant would be admitted |
| RedisTokenBucket.DecisionReportsAdmitted | app/algorithms/redis_token_bucket.py:120-123 | the count of the last decision, which is what is reported after one, is how many of n further requests made at once are admitted |
| RedisTokenBucket.ReadOverstatesIff | app/algorithms/redis_token_bucket.py:125-133 | the count reported before a first decision is neither refilled nor capped: more than is admitted iff time has passed and the capacity is below the whole tokens stored, and exact iff refilling and capping change no whole token |
| RedisTokenBucket.ReadWaitIsEnough | app/algorithms/redis_token_bucket.py:140-156 | one second past the reset time reported before a first decision is always enough |
| RedisLeakyBucket.RedisLeakyBucketRateLimiter.constructor | app/algorithms/redis_leaky_bucket.py:119-151 | the time to live is int(capacity/rate), at least 1 |
| RedisLeakyBucket.RedisLeakyBucketRateLimiter.AllowRequest | app/algorithms/redis_leaky_bucket.py:153-163 | runs the script atomically on the three keys of this client and no other, decision, cached remaining and reset |
| RedisLeakyBucket.RedisLeakyBucketRateLimiter.RunRead | app/algorithms/redis_leaky_bucket.py:69-117 | runs the reading script: drains, renews the clock key only if it sets it, reports remaining and reset |
| RedisLeakyBucket.RedisLeakyBucketRateLimiter.RemainingRequests | app/algorithms/redis_leaky_bucket.py:165-175 | the value of the object's last decision if there is one, else the reading script's |
| RedisLeakyBucket.RedisLeakyBucketRateLimiter.ResetTime | app/algorithms/redis_leaky_bucket.py:177-187 | the value of the object's last decision if there is one, else the reading script's |
| RedisLeakyBucket.DecisionLeaves | app/algorithms/redis_leaky_bucket.py:38-49 | every decision leaves three keys with one common expiry and a set of distinct names that grew by exactly one iff it admitted |
| RedisLeakyBucket.ExpiryUnnoticed | app/algorithms/redis_leaky_bucket.py:9-67 | on every run of decisions along which the largest capacity in force before each call drains within the time to live at the rate now in force, the script answers as without PEXPIRE |
| RedisLeakyBucket.RetuneUnnoticedIff | app/algorithms/redis_leaky_bucket.py:9-67 | for runs under one setting and then another expiry changes no decision iff the first drains in time at its rate and both capacities do at the second rate |
| RedisLeakyBucket.SharedExpiryUnnoticed | app/algorithms/redis_leaky_bucket.py:47-49 | objects built under different policies share the keys: all answers are as without PEXPIRE if at every call what was admitted before drains within the time to live the call before has set |
| RedisLeakyBucket.ExpiryUnnoticedIff | app/algorithms/redis_leaky_bucket.py:9-67 | for one setting expiry changes no decision on any run of decisions iff ttl*rate >= capacity |
| RedisLeakyBucket.ForeverSameAsMemory | app/algorithms/redis_leaky_bucket.py:21-45 | without expiry the script decides every run, through every re-tune, as a memory bucket does |
| RedisLeakyBucket.SameDecisionsAsMemory | app/algorithms/redis_leaky_bucket.py:9-67 | with expiry too, on every run in which it cannot be noticed |
| RedisLeakyBucket.RetryAdmittedIff | app/algorithms/redis_leaky_bucket.py:29-45 | when a decision admits while the keys live: iff enough whole requests drained since the last leak |
| RedisLeakyBucket.WaitingIsEnough | app/algorithms/redis_leaky_bucket.py:56-64 | the reset time reported with a rejection is enough while the set holds no more than the capacity |
| RedisLeakyBucket.ReportsDrainOfOne | app/algorithms/redis_leaky_bucket.py:56-64 | a decision reports a wait iff it rejects, and then the least whole seconds in which one request drains |
| RedisLeakyBucket.ReadWaitIsEnough | app/algorithms/redis_leaky_bucket.py:106-116 | so is the reset time a reading reports |
| RedisLeakyBucket.ScriptsKeepClock | app/algorithms/redis_leaky_bucket.py:47-96 | both scripts keep the clock key alive at least as long as the set |
| RedisLeakyBucket.WaitingAfterTighteningIff | app/algorithms/redis_leaky_bucket.py:56-64 | after any rejection with the set any number above a lowered capacity a retry at the reported time is admitted iff one more than that number drains by then, counted from the last leak, or the keys expire |
| RedisLeakyBucket.WaitingFailsAfterTightening | app/algorithms/redis_leaky_bucket.py:56-64 | for every capacity a bucket built for and filled at one more rejects a retry at the time it reported |
| RedisLeakyBucket.RemainingIsAdmitted | app/algorithms/redis_leaky_bucket.py:165-175 | the count either script reports is how many of n further requests made at once are admitted |
| RedisLeakyReads.DrainedInStep | app/algorithms/redis_leaky_bucket.py:80-97 | what one drain, by either script, keeps: enough time before expiry to drain the rest even if each further drain loses almost a request |
| RedisLeakyReads.ExpiryUnnoticedWithReads | app/algorithms/redis_leaky_bucket.py:9-117 | with readings anywhere among the decisions and through every re-tune all answers are as without PEXPIRE if ttl * least rate >= 2 * largest capacity - 1 |
| RedisLeakyReads.ExpiryUnnoticedWithReadsIff | app/algorithms/redis_leaky_bucket.py:9-117 | for one setting that condition is exact: otherwise a run of decisions and readings is decided differently |
| RedisLeakyReads.BuiltTtlSurvivesReadsIff | app/algorithms/redis_leaky_bucket.py:132-134 | the time to live a factory-built limiter picks meets it iff the limit is 1 |
| RedisSlidingWindow.RedisSlidingWindowRateLimiter.constructor | app/algorithms/redis_sliding_window.py:83-108 | settings as given and nothing cached |
| RedisSlidingWindow.RedisSlidingWindowRateLimiter.AllowRequest | app/algorithms/redis_sliding_window.py:110-120 | runs the script atomically on the two keys of this client and no other, decision, cached remaining and reset |
| RedisSlidingWindow.RedisSlidingWindowRateLimiter.RemainingRequests | app/algorithms/redis_sliding_window.py:122-132 | the value of the object's last decision if there is one, else the reading script's, which prunes |
| RedisSlidingWindow.RedisSlidingWindowRateLimiter.ResetTime | app/algorithms/redis_sliding_window.py:134-144 | the value of the object's last decision if there is one, else the reading script's, which prunes |
| RedisSlidingWindow.PruneAgrees | app/algorithms/redis_sliding_window.py:17-19 | pruning a live or expired set leaves exactly the memory limiter's live entries |
| RedisSlidingWindow.CallAgrees | app/algorithms/redis_sliding_window.py:9-81 | one call of either script: same decision and remaining count as memory, reset time of the same live entries, and the set is again exactly the live admissions with distinct names |
| RedisSlidingWindow.SameAnswersAsMemory | app/algorithms/redis_sliding_window.py:9-81 | on every run of decisions and readings, through changes of limit and of window within the grace, Redis gives the whole answers of one memory limiter (its reset time rounded up): expiry and the restart of the numbers cannot be noticed |
| RedisSlidingWindow.OneWindowFits | app/algorithms/redis_sliding_window.py:29-31 | a run under one window meets the condition on windows |
| RedisSlidingWindow.RetuneUnnoticedIff | app/algorithms/redis_sliding_window.py:29-31 | over all runs under one window and then another the change is unnoticed iff it lengthens the window by no more than the 5 seconds of grace |
| RedisSlidingWindow.WaitingIsEnough | app/algorithms/redis_sliding_window.py:38-47 | the reset time reported with a rejection under an unchanged limit is always enough, expiry or not |
| RedisSlidingWindow.ReportedIsLeast | app/algorithms/redis_sliding_window.py:38-47 | and no shorter time is: after a rejection a retry a whole number of seconds later is admitted iff the number is at least the reported one |
| RedisSlidingWindow.ReadWaitIsEnough | app/algorithms/redis_sliding_window.py:69-80 | so is the reset time a reading reports |
| RedisSlidingWindow.RetryAdmittedIff | app/algorithms/redis_sliding_window.py:17-27 | in every tracked state a decision admits iff the entry `limit` places from the newest end has left the window |
| RedisSlidingWindow.WaitingFailsAfterTightening | app/algorithms/redis_sliding_window.py:38-47 | for every limit, filled at one more and then lowered, a retry at the reported time is still rejected |
| RedisSlidingWindow.RemainingIsAdmitted | app/algorithms/redis_sliding_window.py:33-36 | the count either script reports is how many further requests are admitted while the oldest entry lives |
| RedisSlidingWindow.ResetDiffersByRounding | REPORT.md:66 | a full limiter's two reset times are equal if whole and else one second apart; below the limit Redis reports 0 |
| Factory.BuiltTtl | app/algorithms/factory.py:37-51 | a factory-built Redis bucket lives exactly one window after each call |
| Factory.TtlIs | app/algorithms/redis_token_bucket.py:86-88 | any default time to live: the whole seconds of a full refill or drain, at least 1, and an hour without a rate |
| Factory.RetunedExpiryUnnoticedIff | app/middleware/rate_limiter.py:87-94 | over runs under the policy a token bucket was built with and then another, which keeps the time to live, expiry is unnoticed iff the new window is no longer |
| Factory.RetunedLeakExpiryUnnoticedIff | app/middleware/rate_limiter.py:87-94 | the same for a leaky bucket: iff the new window is no longer and the new rate no lower |
| Limiters.CreateRateLimiter | app/algorithms/factory.py:57-79 | the fresh object is the one the algorithm and policy call for, in its initial state |
| Limiters.RetuneLimiter | app/middleware/rate_limiter.py:77-99 | new settings of the object's kind, the recorded state untouched, the policy remembered |
| Limiters.RetunedSetTo | app/middleware/rate_limiter.py:87-97 | re-tuning sets limit and window, or capacity and limit/window, and keeps everything recorded |
| Limiters.CreatedSetTo | app/algorithms/factory.py:57-79 | each algorithm name builds its own kind of limiter, set to the policy, in its initial state |
| Limiters.AllowRequest | app/middleware/rate_limiter.py:139-140 | dispatches to the object and changes no other; `Histories` says what the answer is |
| Limiters.RemainingRequests | app/middleware/rate_limiter.py:142-143 | dispatches to the object: a reading step and its algorithm's remaining count |
| Limiters.ResetTime | app/middleware/rate_limiter.py:145-146 | dispatches to the object: a reading step and its algorithm's reset time |
| LruTable.TouchUnique | app/middleware/rate_limiter.py:107-135 | a lookup keeps keys distinct and brings in no entry but a new one for its own key on a miss |
| LruTable.TouchKeepsNewest | app/middleware/rate_limiter.py:107-135 | one lookup, hit, expired or miss, on a table of the newest keys leaves the newest keys |
| LruTable.KeptIff | app/middleware/rate_limiter.py:134-135 | a used key is among the newest maxKeys iff fewer than maxKeys distinct others were used since |
| LruTable.FollowingIsOthersSince | app/middleware/rate_limiter.py:108-112 | what stands behind a key in the table order is what was used since its last use |
| LruTable.TableIsRecency | app/middleware/rate_limiter.py:107-135 | after every run of lookups, whatever expired on the way, the table is the maxKeys most recently used keys in order of last use |
| LruTable.EvictionRule | app/middleware/rate_limiter.py:134-135 | on every run: at most maxKeys entries, and a used key has lost its entry iff at least maxKeys distinct others were used since |
| Facade.RateLimiter.constructor | app/middleware/rate_limiter.py:18-42 | an empty table and the given configuration |
| Facade.RateLimiter.EvictOldest | app/middleware/rate_limiter.py:134-135 | the eviction loop leaves the newest maxKeys entries in their order |
| Facade.RateLimiter.Reuse | app/middleware/rate_limiter.py:108-120 | a hit puts the entry back newest with its old creation time and re-tunes its limiter, no other |
| Facade.RateLimiter.Install | app/middleware/rate_limiter.py:122-137 | a miss adds a fresh limiter newest, then evicts |
| Facade.RateLimiter.GetLimiter | app/middleware/rate_limiter.py:101-137 | table step and limiter of one lookup on real objects; the limiter is set to the resolver's answer, else the route's own limit, else the default; every other limiter object is unchanged and none is shared |
| Facade.RateLimiter.AllowRequest | app/middleware/rate_limiter.py:139-140 | the decision of the limiter so set, and nothing else changed |
| FacadeRuns.StepProjects | app/middleware/rate_limiter.py:101-140 | each atomic step of the facade is, for each key, the steps of that key's private limiter with the same answer |
| FacadeRuns.FacadeIsPrivateLimiters | app/middleware/rate_limiter.py:101-140 | for every interleaved run of many threads and keys a key's answers are those of a private limiter fed its calls only and restarted exactly at the time to live since creation or when popped as oldest |
| FacadeRuns.TableOfWholeRun | app/middleware/rate_limiter.py:107-135 | the facade's table after a run is that of the least-recently-used list after the run's lookups |
| FacadeRuns.PoppedIff | app/middleware/rate_limiter.py:134-135 | in interleaved runs: never above maxKeys, in order of last use, popped iff at least maxKeys distinct other keys were looked up since |
| Facade.SharesLimiterIff | app/middleware/rate_limiter.py:70-75 | calls share a limiter iff they name the same route and client, for routes without a colon; and exactly when one without a route does |
| FacadeRefines.BuiltStands | app/middleware/rate_limiter.py:41-42 | a facade just built stands for the initial state of the step system |
| FacadeRefines.LookUp | app/middleware/rate_limiter.py:101-137 | on real objects the section under the facade's lock is the lookup step, whatever threads hold |
| FacadeRefines.Decide | app/middleware/rate_limiter.py:139-140 | on real objects a decision is the decision step, also by a limiter the table has dropped |
| FacadeRefines.ReadRemaining | app/middleware/rate_limiter.py:142-143 | on real objects `remaining_requests` is a reading step and reports its limiter's count |
| FacadeRefines.ReadReset | app/middleware/rate_limiter.py:145-146 | on real objects `reset_time` is a reading step and reports its limiter's wait |
| EndToEnd.LimitersAreTheirHistories | app/middleware/rate_limiter.py:101-140 | in every interleaved run each limiter ever made holds exactly the queue of the calls it served, and every decision is that queue's |
| EndToEnd.AdmissionLeavesAtMostLimit | app/middleware/rate_limiter.py:77-120 | in every interleaved run an admission leaves at most the limit then in force in its limiter's trailing window, whatever limits were in force before |
| EndToEnd.RaisingAdmitsDifference | app/middleware/rate_limiter.py:77-120 | from whatever interleaved runs and changes of limits leave, while a limiter's oldest entry lives it admits exactly what the limit now in force leaves: raising a full one from a to b admits b - a |
| EndToEnd.LimiterBound | app/algorithms/sliding_window.py:23-32 | in every interleaved run one limiter admits at most the largest limit in any half-open interval one window long |
| EndToEnd.BoundByDeciders | app/middleware/rate_limiter.py:101-140 | in every interleaved run, evictions, rebuilds and calls in flight included, such an interval admits at most the largest limit times the limiters that decide in it |
| EndToEnd.LimitPerLifetime | app/middleware/rate_limiter.py:105-137 | every interleaved run with sliding windows and any window no longer than m times key_ttl, the key never popped, its clocks in order (lookups included) and its decisions taken by the limiter in the table: any half-open interval one window long admits at most m + 1 times the largest limit |
| EndToEnd.AtMostTwiceTheLimit | app/middleware/rate_limiter.py:105-137 | the case m = 1: twice the largest limit for a window no longer than key_ttl |
| Histories.EveryLimiterIsItsHistory | app/middleware/rate_limiter.py:101-140 | for all four algorithms and every interleaved run: each limiter ever made holds what its algorithm makes of the calls it served from its initial state on, and every decision is the algorithm's own after them |
| Histories.RunSets | app/middleware/rate_limiter.py:77-120 | every decision is taken with the settings of a policy some lookup of the key asked for |
| Histories.BirthsAmong | app/middleware/rate_limiter.py:122-128 | every limiter is built for a policy some lookup of the key asked for |
| Histories.FixedWindowBound | app/algorithms/fixed_window.py:15-31 | a fixed-window limiter behind the facade admits at most (m+1) times the largest limit in a closed interval of m windows, in every interleaved run |
| Histories.TokenBucketBound | app/algorithms/token_bucket.py:16-39 | a token bucket behind the facade admits at most its limit plus limit/window for each second of a closed interval, in every interleaved run under one policy |
| Histories.LeakyBucketBound | app/algorithms/leaky_bucket.py:16-38 | a leaky bucket behind the facade admits fewer than that plus one, and at most twice the limit in a window |
| Histories.ReportsWhatItAdmits | app/middleware/rate_limiter.py:142-143 | for all four algorithms the reported count is how many of n requests made at once are admitted |
| Histories.ReportsItsWait | app/middleware/rate_limiter.py:145-146 | for all four algorithms what the reported reset time is a wait for |
| Enforcement.AllowRequest | app/middleware/rate_limiter.py:57-58 | a request that the resolver has to look up is decided by a limiter set to the enabled policy stored for the route, else to the configured limit, else to the global one |
| EndToEndReached.LimitPerLifetimeReached | app/middleware/rate_limiter.py:110-132 | reached for every limit, window and key_ttl: m + 1 times the limit where m is the least number of times to live that cover the window, since an entry is rebuilt by age although in use (the comment at line 40 says last seen) |
| EndToEndReached.InFlightExceeds | app/middleware/rate_limiter.py:139-140 | without the condition on decisions it fails: for every n a run with clocks in order and nothing popped admits n requests at one instant, by n limiters still in flight |
| EndToEndReached.LateLookupsExceed | app/middleware/rate_limiter.py:105-107 | without the order of the lookups' clocks, read before the lock, it fails too: for every n a run with every decision by the limiter in the table admits n requests at one instant |
| Resolver.DisabledIsDeleted | app/policies/resolver.py:140-172 | a disabled policy limits exactly as a deleted one: it falls back to static or global, never to unlimited |
| Resolver.ResolvesByPrecedence | app/policies/resolver.py:140-172 | a resolution is exactly this: an enabled stored policy gives its own limit and window; else a configured route its own; else the global one |
| Resolver.DroppedMembers | app/policies/resolver.py:231-237 | dropping a route takes its entry away and no other |
| Resolver.AssignMembers | app/policies/resolver.py:131 | assigning in the cache keeps one entry a route and all other entries; a new route goes last |
| Resolver.InsertedFound | app/policies/resolver.py:130-136 | after an insertion within the cap of 10000 the new entry is found and all entries of other routes stay, but for the earliest one if the route is new and the cache was full |
| Resolver.PolicyResolver.constructor | app/policies/resolver.py:117-138 | an empty cache over the given store |
| Resolver.PolicyResolver.PopFirst | app/policies/resolver.py:135-136 | the loop drops the earliest insertions until the cap holds |
| Resolver.PolicyResolver.InsertResult | app/policies/resolver.py:128-136 | the second locked section: the resolution is cached until the stamp plus the time to live, within the cap |
| Resolver.PolicyResolver.GetEffective | app/policies/resolver.py:117-138 | without interleaving: a live cached value unchanged, else the resolution by precedence from what is stored and configured, which is then cached |
| Resolver.PolicyResolver.Invalidate | app/policies/resolver.py:231-237 | drops one route, or all; the route is not found afterwards |
| Resolver.PolicyResolver.SetPolicy | app/policies/resolver.py:181-212 | a limit or window given is what is stored, an omitted one is inherited, enabled is always the one given; without a base an omission is an error that writes nothing; a write drops the route from the cache |
| Resolver.PolicyResolver.DeletePolicy | app/policies/resolver.py:214-220 | reports whether it existed, removes it, and drops the route from the cache only then |
| ResolverRuns.StepKeeps | app/policies/resolver.py:117-138 | every step of the three-step protocol keeps: each cached and pending reading was the truth when it was read, and times are in order |
| ResolverRuns.ReturnsWereTrueRecently | README.md:354 | in every reachable interleaving each returned value was the true resolution at an instant no older than the time to live plus the latency of the call that read it |
| ResolverRuns.AnswersFollowPrecedence | app/policies/resolver.py:140-172 | and that resolution is the documented precedence over what the store then held |
| ResolverRuns.RunKeepsNoneOlder | app/policies/resolver.py:126-131 | once no older reading is cached or on its way, every later answer for the route is of that version or newer |
| ResolverRuns.SeenAtOnceIff | app/policies/resolver.py:231-237 | after an invalidation all later calls see the write iff no call that read the store before it is still on its way to the cache |
| ResolverRuns.StaleReturn | app/policies/resolver.py:126-131 | with one such call a run exists in which a later call still gets the old policy |
| ResolverRuns.StaleReached | app/policies/resolver.py:126-131 | such a state is reached: check, read, write, invalidate, whatever the two versions hold |
| Audit.MemoryAuditStore.Append | app/policies/audit.py:272-277 | the store holds the newest max_events of the full trail |
| Audit.MemoryAuditStore.List | app/policies/audit.py:279-300 | all retained matches, newest first, cut to the limit |
| Audit.MemoryAuditStore.GetEvent | app/policies/audit.py:302-308 | the newest retained event with the id, and none iff there is none |
| Audit.MemoryAuditStore.Clear | app/policies/audit.py:310-312 | forgets everything |
| Audit.MemoryAuditStore.constructor | app/policies/audit.py:264-270 | an empty log with its bound |
| Audit.RedisAuditStore.constructor | app/policies/audit.py:318-323 | an empty stream with its bound |
| Audit.RedisAuditStore.Append | app/policies/audit.py:325-336 | the stream holds the newest max_events of the full trail |
| Audit.RedisAuditStore.List | app/policies/audit.py:338-372 | the loop with its early break returns the first matches within the scan window |
| Audit.RedisListingIsPrefix | app/policies/audit.py:349-372 | for limits 1 to 500 the Redis listing is a prefix of the memory listing, and the whole of it iff the scan window holds enough matches or all of them |
| Audit.UnfilteredListingsAgree | app/policies/audit.py:349-372 | without a filter the two listings are equal |
| Audit.OlderMatchListedIff | app/policies/audit.py:349-354 | with a filter an older match is listed iff fewer newer events hide it than 5 for each one wanted, at least 100 and at most 500; memory always lists it |
| Audit.MatchingMembers | app/policies/audit.py:291-295 | a listing holds exactly the events with the route and the operation asked for, in order |
| Audit.OtherLimits | app/policies/audit.py:297-298 | what no limit, 0 and negative limits mean to either store |
| PolicyStore.ReplayIsLastOn | app/policies/store.py:30-32 | replaying the trail gives each route the new policy of its latest event |
| PolicyStore.CommitConsistent | app/policies/store.py:116-125 | an audited write keeps: policies are the replay of the trail, and each previous policy is the prior event's new policy |
| Policies.MergeUpdates | app/main.py:694-697 | merging changes exactly the fields given, to the values given, and keeps the route |
| PolicyStore.MemoryPolicyStore.constructor | app/policies/store.py:66-69 | no policies and the given collaborator |
| PolicyStore.MemoryPolicyStore.Set | app/policies/store.py:71-75 | replaces one route and nothing else |
| PolicyStore.MemoryPolicyStore.Delete | app/policies/store.py:81-83 | removes one route and reports whether it was there |
| PolicyStore.MemoryPolicyStore.SetWithAudit | app/policies/store.py:104-127 | an error without audit; a failing append changes nothing; otherwise one commit whose previous policy is the one replaced |
| PolicyStore.MemoryPolicyStore.DeleteWithAudit | app/policies/store.py:129-152 | absent or failing changes nothing; otherwise one commit whose previous policy exists |
| PolicyStore.RedisPolicyStore.constructor | app/policies/store.py:198-200 | an empty store over the given stream |
| PolicyStore.RedisPolicyStore.SetWithAudit | app/policies/store.py:162-176 | the script stopped after any command: exactly which of document, index and stream it has written |
| PolicyStore.RedisPolicyStore.DeleteWithAudit | app/policies/store.py:179-196 | the same for deletion; nothing at all for an absent route |
| PolicyStore.FaultConsistentIff | app/policies/store.py:30-34 | a script failing midway, which Redis does not undo, keeps the ledger consistent iff nothing was written or nothing changed |
| AdminRuns.StepGood | app/main.py:613-758 | every step of concurrent create, update and delete handlers keeps the ledger consistent and what each handler looked at true of the trail |
| AdminRuns.PoliciesAreReplay | app/main.py:613-758 | for every interleaving and every pattern of failing appends the policies are the replay of the trail, chained per route |
| AdminRuns.LabelsMeanWhatTheySay | README.md:394 | an event says what its label promises iff nothing overtook it or the latest event that did left what makes it true; a delete always does |
| AdminRuns.CreateReplacesIff | app/main.py:613-641 | a create is logged over a policy iff it was overtaken and the latest event that overtook it left one |
| AdminRuns.UpdateMergesIff | app/main.py:680-705 | an update merged into the policy it replaced iff it was not overtaken, or the latest event that overtook it left a policy that merges to the same |
| AdminRuns.UpdateWritesFields | app/main.py:694-697 | in every run an update writes each field asked for as asked and each other one as its handler saw it |
| AdminRuns.RacingCreates | app/main.py:614-641 | two racing creates are both accepted and the second is logged as a create over the first |
| AdminRuns.LostUpdate | app/main.py:680-705 | of two racing updates of different fields the later restores the field the earlier changed |
| AdminApi.AdminHandlers.constructor | app/main.py:575-760 | handlers over a resolver whose store has an audit log |
| AdminApi.AdminHandlers.CreateRateLimit | app/main.py:613-657 | 409, 201 or 503 and when; ledger as two uninterrupted steps of the protocol; after 201 exactly the policy is stored and looked up next; else nothing changed |
| AdminApi.AdminHandlers.UpdateRateLimit | app/main.py:679-724 | 404, 200 or 503 and when; ledger as two uninterrupted steps; after 200 the stored policy has each field asked for as asked and each other as before, and is looked up next; else nothing changed |
| AdminApi.AdminHandlers.DeleteRateLimit | app/main.py:732-757 | 404, 204 or 503 and when; ledger as one step; after 204 the route is gone and falls back; else nothing changed |
| AdminApi.UninterruptedConsistent | app/main.py:613-724 | an uninterrupted create or update keeps the ledger consistent and its event replaces nothing, or exactly what it merged into |

## Left out

- HTTP routes, ASGI middleware, headers, metrics, dashboards: wiring with no state of their own.
- The playground, browser code and benchmark runners: display and timing.
- API keys: library calls and dictionary updates.
- JSON, regular expressions and route text: policies and routes arrive valid. The guard that keeps a route
  that could not be stored away from the store (`app/policies/resolver.py:104-108`) is therefore not
  modelled, nor are the 422 and 500 answers.
- Floating-point rounding, millisecond rounding of Redis expiry and the digits `tostring` prints.
- Colons in routes: the internal key is the identity, as RateGuard's `REPORT.md:63` notes for collisions.
- The facade's `remaining_requests`, `reset_time` and header wrappers: the same lookup followed by a
  reading call; runs with reading calls are covered by `FacadeRuns`.
- A facade over Redis limiters: its objects hold settings and cached values only; the shared keys are in
  the Redis modules.
- Reading scripts of objects with different times to live on one client's keys: `RedisLeakyReads` has one
  time to live a run, `SharedExpiryUnnoticed` decisions only.
- Unaudited `set` and `delete` in the replay theorem: the admin handlers never use them.
- `list`, `trim` and timestamps of the stores, and `list_policies`.
- A failure between XADD and XTRIM: the two are one step, so the stream is never seen above its bound.
- A negative `max_keys`, on which the eviction loop would fail.
- Reading the store failing in the admin handlers: they answer 503 before anything is written. In the
  resolver such a failure is the step `Raise`.
