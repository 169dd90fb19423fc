# Datadog API-key rotation pool, modelled in Dafny

This project models the key-rotation core of the Datadog MCP server. It takes `src/key_rotation.py` in four parts:

- **`KeyPair`.** A Datadog API/application key pair with a small health state machine: `HEALTHY`, `RATE_LIMITED`, `ERROR` (circuit open), `TESTING` (probation) and `DISABLED`. It keeps per-key usage statistics, a success rate and a performance-scaled weight.
- **`KeyPoolManager`.** The pool that owns the keys. It has five selection strategies: round robin, least recently used, weighted random, adaptive and random. It records outcomes per key, trips a circuit breaker after a run of errors, promotes probation keys in a health check and reports a status summary.
- **`detect_rate_limit_error`.** Classifies an exception's text as a rate limit.
- **The retry wrapper of `create_retry_decorator`.** Each attempt takes a key from the pool and calls the wrapped function. On a rate limit it rotates to another key without a pause. On an authentication failure (`401`/`403`) it gives up at once. Other errors are retried with exponential back-off.

## How the model is organised

| file | module | what it holds |
|---|---|---|
| `base.dfy` | `Base` | `Option`, time as integer seconds (`MINUTE`, `HOUR`) |
| `key_state.dfy` | `KeyState` | a key as a value (`KeyRecord`) and every key operation as a function on it, with their properties |
| `key_pair.dfy` | `KeyPairs` | `class KeyPair`, whose methods update its fields in place, each proved to agree with the `KeyState` function |
| `selection.dfy` | `Selection` | the selection arithmetic: round-robin cursor, least-recent pick, the weighted-sampling loop, `list.remove` |
| `pool_model.dfy` | `PoolModel` | the pool as a value (`PoolState`): selection, events, health check, status, add and remove, and their properties |
| `pool.dfy` | `Pool` | `class KeyPoolManager` over a `seq<KeyPair>`, each method proved to agree with `PoolModel` |
| `rate_limit.dfy` | `RateLimit` | `detect_rate_limit_error` and the authentication test |
| `retry.dfy` | `Retry` | the retry loop as a method over a live pool, its specification `Retry`, and the properties of a whole call |

Two conventions hold throughout:

- **The clock is a parameter `now`.** Datetimes become integer seconds.
- **Randomness is a parameter `Draw(fraction, pick)`.** `random.random()` is the `fraction` in `[0, 1)`. `random.choice(xs)` is `xs[pick % |xs|]`.

The retry loop takes one clock reading and one draw per attempt (`clock(attempt)`, `draws(attempt)`). The wrapped function is a function `op(keyId, attempt)` that either returns a value or raises with a message. A call's result is a `Run`: the verdict, the pool afterwards, the ids of the keys called in order, and the back-off sleeps in seconds.

## Model

| member | source | states |
|---|---|---|
| KeyState.NewKey | src/key_rotation.py:52-63 | a new key starts on probation (`TESTING`, so selectable), with no requests and no timers, and satisfies the key invariant |
| KeyState.AvailabilityCases | src/key_rotation.py:69-88 | `is_available` is true exactly for `HEALTHY`/`TESTING` keys and for `RATE_LIMITED`/`ERROR` keys whose reset instant has strictly passed. `DISABLED` is never available. An expired rate limit heals to `HEALTHY` with its timer cleared. An expired breaker heals to `TESTING` with its timer cleared |
| KeyState.HealIdempotent | src/key_rotation.py:69-88 | asking again at the same instant changes nothing more, and asking never touches statistics, id or weight |
| KeyState.OperationsPreserveInv | src/key_rotation.py:69-137 | healing, the three record methods and tripping the breaker all keep the key invariant. The invariant: every request is counted as exactly one of success, rate limit or error; the failure streak is at most the error count; a rate-limited key has a rate-limit reset; an `ERROR` key has a breaker reset |
| KeyState.RateLimitedUntilReset | src/key_rotation.py:110-122 | `record_rate_limit` counts one more request and one more rate-limited request and stamps the instant. Successes, errors and the failure streak are unchanged. The key is then `RATE_LIMITED`, and it is available at a later instant exactly when that instant is past the given reset, or past one hour on when none was given |
| KeyState.SuccessEffect | src/key_rotation.py:90-108 | a success counts one more request and success, clears the failure streak and ends probation; any other state is kept |
| KeyState.EventuallyAvailable | src/key_rotation.py:69-88 | every key that is not `DISABLED` is available again once its pending timer has passed |
| KeyState.SuccessRateBounds | src/key_rotation.py:139-143 | the success rate is a fraction in `[0, 1]` |
| KeyState.TwoSuccessesOneError | tests/test_key_rotation.py:91-102 | two successes then an error on a new key give success rate 2/3 and a failure streak of 1 |
| KeyState.SuccessRaisesRate | src/key_rotation.py:139-143 | one more success never lowers the success rate |
| KeyState.WeightBounds | src/key_rotation.py:145-158 | the effective weight of a non-negative base weight lies between a tenth and 1.2 times it, and at most half of it while the key has a failure streak |
| KeyState.ErrorNeverRaisesWeight | src/key_rotation.py:124-158 | recording an error never raises the effective weight |
| KeyState.SuccessNeverLowersWeight | src/key_rotation.py:90-158 | recording a success never lowers the effective weight |
| KeyPairs.KeyPair.constructor | src/key_rotation.py:52-67 | a new key object holds the fresh-key state and its credentials and site |
| KeyPairs.KeyPair.IsAvailable | src/key_rotation.py:69-88 | the in-place check heals the fields exactly as `KeyState.Heal` and answers `KeyState.IsAvailable` of the state before the call; the key invariant is kept |
| KeyPairs.KeyPair.RecordSuccess | src/key_rotation.py:90-108 | the fields afterwards are `KeyState.RecordSuccess` of the fields before; the key invariant is kept |
| KeyPairs.KeyPair.RecordRateLimit | src/key_rotation.py:110-122 | the fields afterwards are `KeyState.RecordRateLimit` of the fields before, the reset defaulting to an hour on; the key invariant is kept |
| KeyPairs.KeyPair.RecordError | src/key_rotation.py:124-131 | the fields afterwards are `KeyState.RecordError` of the fields before; the key invariant is kept |
| KeyPairs.KeyPair.TriggerCircuitBreaker | src/key_rotation.py:133-137 | the fields afterwards are `KeyState.TripCircuitBreaker` of the fields before: `ERROR` until `timeout_minutes` from now; the key invariant is kept |
| KeyPairs.KeyPair.GetSuccessRate | src/key_rotation.py:139-143 | the rate is in `[0, 1]`, and 0 before the first request |
| KeyPairs.KeyPair.GetWeight | src/key_rotation.py:145-158 | the weight is between a tenth and 1.2 times a non-negative base weight |
| Selection.RoundRobinPick | src/key_rotation.py:229-236 | the position handed out and the next cursor are both valid positions, and the cursor moves to the next position, wrapping to 0 after the last |
| Selection.LeastRecent | src/key_rotation.py:238-249 | the chosen candidate was used no later than any other, never-used counting as oldest, and it is the first such candidate (the sort is stable) |
| Selection.WeightedIndex | src/key_rotation.py:263-277 | the cumulative-sum loop stops at the index `WeightedPick` names: the first whose running total reaches the draw, else the last |
| Selection.WeightedDraw | src/key_rotation.py:258-277 | the weighted selector's draw is `WeightedChoice`: a uniform pick when the weights sum to zero, the loop's index otherwise |
| Selection.WeightedPickInRange | src/key_rotation.py:270-277 | for non-negative weights and a draw below the total, the chosen index's interval `[sum before, sum through]` contains the draw, and for a positive draw that key has positive weight |
| Selection.WeightedPickSingle | src/key_rotation.py:270-277 | a single candidate is always chosen |
| Selection.RemoveFirst | src/key_rotation.py:198-199 | `list.remove` guarded by `in` takes away exactly one occurrence of the element when there is one and changes nothing otherwise |
| Selection.RemoveFirstDropsFirstOccurrence | src/key_rotation.py:198-199 | the occurrence removed is the first one, with everything before and after it kept in order |
| PoolModel.AvailableIndices | src/key_rotation.py:202-205 | the available list holds, in pool order and without repeats, exactly the positions of usable keys |
| PoolModel.AvailableIndicesExact | src/key_rotation.py:202-205 | a position is available exactly when its key is `HEALTHY` or `TESTING` |
| PoolModel.FindKey | src/key_rotation.py:305 | the lookup fails exactly when no key has the id, and otherwise finds the first key that has it |
| PoolModel.FindKeyDistinct | src/key_rotation.py:305 | with distinct ids the lookup finds the one key with the id |
| PoolModel.SelectReturnsAvailableKey | src/key_rotation.py:207-227 | selection heals every key. It returns no key exactly when no key is available at that instant, and otherwise a key that is available |
| PoolModel.DispatchChoosesCandidate | src/key_rotation.py:216-300 | every strategy hands out one of the candidates it was given and leaves the keys alone. Only the least-recently-used path changes the LRU order |
| PoolModel.RoundRobinVisitsInOrder | tests/test_key_rotation.py:49-60 | with all keys usable, successive round-robin selections visit positions cursor, cursor+1, … modulo the pool size, whatever the stored cursor (it may exceed the pool size after a removal) |
| PoolModel.RoundRobinStep | src/key_rotation.py:229-236 | one round-robin selection over an all-usable pool hands out the key at the cursor modulo the pool size, and sets the cursor to the next position, wrapping |
| PoolModel.LeastRecentSelectionIsOldest | src/key_rotation.py:238-256 | the LRU strategy hands out an available key used no later than every other available key |
| PoolModel.LeastRecentSelectionMovesToEnd | src/key_rotation.py:251-254 | the chosen id ends up last in the LRU order, and the order keeps the same ids |
| PoolModel.LeastRecentChoosesOldest | src/key_rotation.py:238-249 | the least-recent selector picks a candidate used no later than any other candidate |
| PoolModel.LeastRecentKeepsOrderPermutation | src/key_rotation.py:251-254 | moving the chosen id to the end keeps the LRU order a permutation and puts the chosen id last |
| PoolModel.SelectKeepsOrderPermutation | src/key_rotation.py:207-300 | no selection adds an id to the LRU order or loses one |
| PoolModel.ApplyEvent | src/key_rotation.py:302-319 | recording an event changes neither the ids nor their order, the cursor or the LRU order, and every key whose id is not the event's keeps its record unchanged |
| PoolModel.ErrorOnKey | src/key_rotation.py:124-137 | an error event counts one more request, error and consecutive failure, leaves successes alone and stamps the error instant. The key is `ERROR` afterwards exactly when the streak reaches the threshold or it already was. When the breaker trips, its reset is the timeout from now and the key stays unavailable until then. Below the threshold, health and both timers are unchanged |
| PoolModel.ErrorEventOpensCircuitAtThreshold | src/key_rotation.py:312-319 | on the pool, the error event turns the key with the id into exactly the record `ErrorOnKey` describes: one more request, error and consecutive failure, successes unchanged, the error instant stamped; `ERROR` exactly when the streak reaches the threshold or it already was; on tripping, the breaker reset is the timeout from now and the key is unavailable until then; below the threshold, health and both timers unchanged |
| PoolModel.UnknownIdLeavesPoolUnchanged | src/key_rotation.py:305-308 | an event for an id no key has leaves the pool exactly as it was |
| PoolModel.RepeatedErrorsOpenCircuit | tests/test_key_rotation.py:76-89 | after `count` errors on one key its streak has grown by `count`. Once the streak reaches the threshold the key is `ERROR` and not available |
| PoolModel.RateLimitEventBlocksUntilReset | tests/test_key_rotation.py:62-74 | after a rate-limit event the key is among the available keys at a later instant exactly when that instant is past the reset |
| PoolModel.RateLimitEventBlocks | src/key_rotation.py:310-311 | a rate-limit event leaves its key blocked until the recorded reset |
| PoolModel.EventKeepsOtherBlocked | src/key_rotation.py:302-319 | an event on another key leaves a blocked key blocked |
| PoolModel.SelectAvoidsBlocked | src/key_rotation.py:207-227 | selection before a blocked key's reset never hands that key out and leaves it blocked |
| PoolModel.HealKeepsTallies | src/key_rotation.py:69-88 | healing every key, as looking for available keys does, changes no counter summed over the pool |
| PoolModel.EventTallies | src/key_rotation.py:302-319 | recording an outcome on a key of the pool counts exactly one more request in the pool, and one more success, error or rate limit exactly when the event is of that kind |
| PoolModel.HealthCheckPromotesDueKeys | src/key_rotation.py:373-382 | the health check promotes exactly the probation keys whose last error is over five minutes old, or that never had one, and changes nothing else. It never changes whether a key is selectable, and running it twice is the same as once |
| PoolModel.StatusCountsAvailable | src/key_rotation.py:321-329 | the status counts every key and the available ones. The available count is 0 exactly when no key is available, and the pool afterwards is the healed pool |
| PoolModel.StatusListsKeys | src/key_rotation.py:321-344 | each status entry reports its key's id, healed health, request count and a success rate in `[0, 1]` |
| PoolModel.RemoveId | src/key_rotation.py:197 | the filter removes every key with the id and keeps every other id as many times as before |
| PoolModel.RemoveIdKeeps | src/key_rotation.py:197 | the filter keeps exactly the records without the id |
| PoolModel.RemoveUndoesAdd | src/key_rotation.py:187-200 | removing a key just added with a fresh id gives back the original pool, keys and LRU order alike |
| PoolModel.RemovedDropsOnlyId | src/key_rotation.py:194-200 | after a removal no key has the id, every other key is still there, and the LRU order lost one entry exactly when it held the id |
| PoolModel.SelectPreservesPoolInv | src/key_rotation.py:207-300 | selection keeps the pool invariant: valid keys, distinct ids and an LRU order that is a permutation of the ids |
| PoolModel.ApplyEventPreservesPoolInv | src/key_rotation.py:302-319 | recording an event keeps the pool invariant |
| PoolModel.HealthCheckPreservesPoolInv | src/key_rotation.py:373-382 | the health check keeps the pool invariant |
| PoolModel.HealPreservesPoolInv | src/key_rotation.py:202-205 | healing every key keeps the pool invariant |
| PoolModel.AddedPreservesPoolInv | src/key_rotation.py:187-192 | adding a valid key with a fresh id keeps the pool invariant |
| PoolModel.RemovedPreservesPoolInv | src/key_rotation.py:194-200 | removing an id keeps the pool invariant |
| Pool.KeyPoolManager.constructor | src/key_rotation.py:163-185 | a new pool is empty, cursor 0, empty LRU order, with the given strategy, threshold, timeout and interval, which default to adaptive, 5, 10 minutes and 300 seconds |
| Pool.KeyPoolManager.AddKey | src/key_rotation.py:187-192 | the key object is appended to the pool and its id to the LRU order, and the pool stays valid |
| Pool.KeyPoolManager.RemoveKey | src/key_rotation.py:194-200 | the pool becomes the key objects without the id and the LRU order loses the id's first occurrence (`PoolModel.Removed`), and the pool stays valid |
| Pool.KeyPoolManager.GetAvailableKeys | src/key_rotation.py:202-205 | every key is healed in place, and the result is the available key objects in pool order |
| Pool.KeyPoolManager.GetKeyByStrategy | src/key_rotation.py:207-227 | the key handed out and the pool afterwards are those of `PoolModel.Select`: none when no key is available, else the chosen key object |
| Pool.KeyPoolManager.SelectByStrategy | src/key_rotation.py:215-227 | dispatches on the configured strategy with the result of `PoolModel.Dispatch` |
| Pool.KeyPoolManager.SelectRoundRobin | src/key_rotation.py:229-236 | hands out the candidate under the cursor and advances the cursor as `PoolModel.ByRoundRobin` |
| Pool.KeyPoolManager.SelectLru | src/key_rotation.py:238-256 | hands out the least recently used candidate and moves its id to the end of the LRU order, as `PoolModel.ByLeastRecent` |
| Pool.KeyPoolManager.SelectWeighted | src/key_rotation.py:258-277 | hands out the candidate that `PoolModel.ByWeight` picks for the draw, and changes nothing |
| Pool.KeyPoolManager.SelectAdaptive | src/key_rotation.py:279-296 | weighted while some key of the whole pool was rate limited in the last thirty minutes, LRU otherwise |
| Pool.KeyPoolManager.SelectRandom | src/key_rotation.py:298-300 | hands out the candidate the draw picks uniformly |
| Pool.KeyPoolManager.RecordKeyEvent | src/key_rotation.py:302-319 | the pool afterwards is `PoolModel.ApplyEvent` of the pool before, and it stays valid |
| Pool.KeyPoolManager.GetPoolStatus | src/key_rotation.py:321-344 | the report and the healed pool are `PoolModel.Status` of the pool before |
| Pool.KeyPoolManager.StatusEntries | src/key_rotation.py:332-342 | one status entry per key, in pool order |
| Pool.KeyPoolManager.PerformHealthChecks | src/key_rotation.py:373-382 | the pool afterwards has exactly the keys of `PoolModel.HealthCheck`, and it stays valid |
| RateLimit.Lower | src/key_rotation.py:478 | lower-casing keeps the length and the position of every character, leaves no upper-case ASCII letter, and changes no character that is not one |
| RateLimit.DetectRateLimitError | src/key_rotation.py:471-495 | the text is a rate limit exactly when one of the five indicator phrases occurs in its lower-cased form, and a reset instant, one hour on, is given exactly then |
| RateLimit.AnyIndicatorExists | src/key_rotation.py:489 | `any` over the indicators holds exactly when some indicator is contained in the text |
| RateLimit.ContainsAt | src/key_rotation.py:489 | Python's `in` on strings holds exactly when the phrase occurs at some position |
| RateLimit.DetectionIgnoresCase | src/key_rotation.py:478 | detection gives the same answer for a message and its lower-cased form |
| RateLimit.DetectionSurvivesContext | src/key_rotation.py:478-495 | a detected message stays detected with any text before or after it |
| RateLimit.TooManyRequestsDetected | tests/test_key_rotation.py:217-229 | "429 Too Many Requests" is a rate limit with a reset |
| RateLimit.RateLimitExceededDetected | tests/test_key_rotation.py:217-229 | "Rate limit exceeded" is a rate limit with a reset |
| RateLimit.QuotaExceededDetected | tests/test_key_rotation.py:217-229 | "API quota exceeded" is a rate limit with a reset |
| RateLimit.ThrottledDetected | tests/test_key_rotation.py:217-229 | "Request throttled" is a rate limit with a reset |
| RateLimit.UnauthorizedNotDetected | tests/test_key_rotation.py:231-242 | "401 Unauthorized" is not a rate limit and has no reset |
| RateLimit.ServerErrorNotDetected | tests/test_key_rotation.py:231-242 | "500 Internal Server Error" is not a rate limit and has no reset |
| RateLimit.TimeoutNotDetected | tests/test_key_rotation.py:231-242 | "Network timeout" is not a rate limit and has no reset |
| Retry.RetryWithRotation | src/key_rotation.py:502-566 | the loop over a live pool produces the verdict, calls, sleeps and pool afterwards that the specification `Retry` gives for the pool before |
| Retry.RetryCallCount | src/key_rotation.py:505-566 | a call makes at most `max_retries` calls of the function. When it raises "No available API keys" it made no call, and it returns `None` without raising exactly when `max_retries <= 0` |
| Retry.NoAvailableKeyMakesNoCall | src/key_rotation.py:505-513 | with no key available at the first attempt, the wrapper makes no call and no sleep and raises "No available API keys". The pool only undergoes the healing that looking for a key does |
| Retry.RetryRecordsEveryCall | src/key_rotation.py:519-551 | every call is recorded in the pool exactly once. The pool's summed request count grows by the number of calls. Its summed success count grows by one exactly when the wrapper returns a value. Its summed rate-limit count grows by the number of calls that raised a detected rate limit, and its summed error count by the number of calls that raised anything else, authentication failures and the re-raised last exception included |
| Retry.RetryEarlierCallsFailed | src/key_rotation.py:519-562 | every call but the last raised, and none of those raised an authentication failure |
| Retry.RetryReturnsLastValue | src/key_rotation.py:519-529 | a returned value is the value of the last call |
| Retry.RetryRaisesLastException | src/key_rotation.py:546-566 | a raised exception is the one the last call raised |
| Retry.RetryBackoffGrows | src/key_rotation.py:535-562 | the sleeps are exactly, in order, `2^a` seconds after each call `a` that raised an error that is neither a rate limit nor an authentication failure and was not the last attempt, and none after a rate limit. So there are no more sleeps than calls, they strictly increase, and the i-th lasts at least `2^i` seconds |
| Retry.RetryGivesUpOnlyForCause | src/key_rotation.py:504-566 | a call that raises before using all `max_retries` attempts re-raised an authentication failure or found no key available for the next attempt, and "No available API keys" is raised only when no key was available at the first attempt |
| Retry.RetryGoesOnAfterFailure | src/key_rotation.py:535-562 | a call before the last attempt that raised a rate limit or an error other than an authentication failure is followed by another call, unless no key is available for the next attempt, in which case that exception is re-raised |
| Retry.NoAttemptReturnsNothing | src/key_rotation.py:505-566 | with `max_retries <= 0` the wrapper makes no call and returns `None` |
| Retry.RateLimitedKeyNotRetried | src/key_rotation.py:535-544 | within one hour, a key that was rate limited is never called again in the same call: rotation really moves to another key |
| Retry.FirstAttemptTakesKey1 | tests/test_key_rotation.py:190-212 | in the two-key default pool, the first selection takes `key_1` |
| Retry.SecondAttemptTakesKey2 | tests/test_key_rotation.py:190-212 | once `key_1` is rate limited, a selection before its reset takes `key_2` |
| Retry.RateLimitRetryRotates | tests/test_key_rotation.py:190-212 | an operation rate limited on `key_1` succeeds via `key_2` with exactly two calls and no sleep |
| Retry.OneKeyPoolSelectsIt | tests/test_key_rotation.py:178-188 | a pool of one fresh key selects it |
| Retry.SuccessfulOperationReturnsAtOnce | tests/test_key_rotation.py:178-188 | an operation that succeeds returns its value after one call and no sleep |
| Retry.AuthFailureNotRetried | src/key_rotation.py:546-556 | an operation that always fails with "401 Unauthorized" is called at most once, whatever `max_retries` is. That failure is recorded in the pool as one error and no rate limit, and it is re-raised |

## Left out

- Threads and locking are not modelled: the `RLock`, `start_health_monitoring`, `stop_health_monitoring` and `_health_check_loop` (`src/key_rotation.py:346-371`). Every operation is modelled as one atomic step. One health-check pass is `PerformHealthChecks`.
- `average_response_time` and its moving average (`src/key_rotation.py:97-103`) are not modelled. Nothing in the pool's decisions reads it, and the status report leaves that field out.
- Floating point is not modelled. Weights, rates and draws are exact reals, so rounding in the cumulative sum of `_select_weighted` is not captured.
- Randomness is a `Draw` parameter. The model does not state that draws are uniformly distributed, only which key each draw selects.
- The wall clock is a parameter. The retry loop reads one instant per attempt. Back-off sleeps are recorded in the run, not slept, and time spent sleeping is not forced into the clock.
- Response times passed to `record_success` are not modelled, and neither is `error_type` passed to `record_error`, because neither affects any decision. The exception's type is not modelled either; only its text is used.
- `load_keys_from_environment` and `get_rotation_config` (`src/key_rotation.py:385-468`) are not modelled. They read environment variables and parse JSON, which is I/O outside the pool core.
- Logging is not modelled.
- `src/datadog_mcp_server.py` is not part of this model.
- RateLimit.Lower: lower-cases ASCII letters only. Python's `str.lower` also lower-cases other Unicode letters, which cannot change whether an ASCII indicator phrase occurs.
- Pool.KeyPoolManager.AddKey: requires the new key's id to be absent from the pool, which also rules out adding the same object twice. The source accepts duplicates. With two keys sharing an id, `record_key_event` updates only the first while `remove_key` drops both, and one object added twice would alias itself. The model keeps ids distinct so that key objects and their values stay in step.
- `DISABLED` is never assigned anywhere in the source. The model carries the state and proves it is never available, but no operation produces it.
- The `available_keys[0]` fallback of `get_key_by_strategy` (`src/key_rotation.py:226-227`) is not modelled, since the strategy enumeration has no other value.
- The `None` returns of the selectors on an empty list are not modelled, because `get_key_by_strategy` never calls them with one. The selectors require non-empty candidates.
- The wrapped function is modelled as a function of the key id and the attempt number, so it cannot keep state of its own beyond what the attempt number tells it.
- Retry.RetryWithRotation: no key available is the verdict `NoKeys` (the source raises `RuntimeError("No available API keys")`). Returning `None` after zero attempts is `ReturnedNothing`.
- KeyPairs.KeyPair.IsAvailable: the source checks the rate-limit timer and then the breaker in two separate `if`s. A key healed from `RATE_LIMITED` is `HEALTHY` and so never meets the second test, and the model's single case split is equivalent.
