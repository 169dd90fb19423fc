/**
 * The value-level model of `KeyPoolManager` (src/key_rotation.py): the pool
 * is the list of key records in insertion order, the round-robin cursor and
 * the LRU id order. Selection, event recording, the health-check pass and the
 * status counts are functions of that state; the class `Pool.KeyPoolManager`
 * is proved to follow them.
 */
module PoolModel {
  import opened Base
  import opened KeyState
  import opened Selection

  datatype Strategy = RoundRobin | LeastRecentlyUsed | Weighted | Adaptive | Random

  /** The constructor arguments the pool consults after construction. */
  datatype Config = Config(strategy: Strategy, circuitBreakerThreshold: int, circuitBreakerTimeout: int)

  datatype PoolState = PoolState(keys: seq<KeyRecord>, cursor: nat, lruOrder: seq<string>)

  /** The outcome of one selection: the pool afterwards and the position of the key handed out. */
  datatype Picked = Picked(pool: PoolState, chosen: Option<nat>)

  /** A rate limit counts as recent for thirty minutes. */
  const RECENT_RATE_LIMIT: int := 30 * MINUTE
  /** A key on probation is promoted when its last error is older than five minutes. */
  const PROBATION_QUIET: int := 5 * MINUTE

  function Ids(ks: seq<KeyRecord>): (ids: seq<string>)
    ensures |ids| == |ks|
    ensures forall i :: 0 <= i < |ks| ==> ids[i] == ks[i].id
  {
    seq(|ks|, i requires 0 <= i < |ks| => ks[i].id)
  }

  predicate DistinctIds(ks: seq<KeyRecord>) {
    forall i, j :: 0 <= i < j < |ks| ==> ks[i].id != ks[j].id
  }

  /**
   * What every pool reachable from an empty one satisfies: distinct ids, the
   * LRU order a permutation of those ids, and every key's own invariant.
   */
  ghost predicate PoolInv(p: PoolState) {
    && DistinctIds(p.keys)
    && multiset(p.lruOrder) == multiset(Ids(p.keys))
    && forall i :: 0 <= i < |p.keys| ==> Inv(p.keys[i])
  }

  // ---------------------------------------------------------------------
  // Availability
  // ---------------------------------------------------------------------

  /** `is_available` applied to every key, for its healing side effect. */
  function HealAll(ks: seq<KeyRecord>, now: Time): (r: seq<KeyRecord>)
    ensures |r| == |ks|
    ensures forall i :: 0 <= i < |ks| ==> r[i] == Heal(ks[i], now)
  {
    seq(|ks|, i requires 0 <= i < |ks| => Heal(ks[i], now))
  }

  /**
   * The positions `get_available_keys` keeps, in insertion order: exactly the
   * keys in a usable state.
   */
  function AvailableIndices(ks: seq<KeyRecord>): (r: seq<nat>)
    ensures |r| <= |ks|
    ensures forall j :: 0 <= j < |r| ==> r[j] < |ks| && Usable(ks[r[j]].health)
    ensures forall i :: 0 <= i < |ks| && Usable(ks[i].health) ==> i in r
    ensures forall a, b :: 0 <= a < b < |r| ==> r[a] < r[b]
  {
    if ks == [] then []
    else
      var last := |ks| - 1;
      var prev := AvailableIndices(ks[..last]);
      assert forall i :: 0 <= i < last ==> ks[..last][i] == ks[i];
      if Usable(ks[last].health) then prev + [last] else prev
  }

  /** Extending the scanned prefix by one key adds its position exactly when it is usable. */
  lemma AvailableIndicesStep(ks: seq<KeyRecord>, i: nat)
    requires i < |ks|
    ensures AvailableIndices(ks[..i + 1]) == AvailableIndices(ks[..i]) + (if Usable(ks[i].health) then [i] else [])
  {
    assert ks[..i + 1][..i] == ks[..i];
  }

  /** The keys handed to a selector: non-empty and all inside the pool. */
  predicate Candidates(ks: seq<KeyRecord>, avail: seq<nat>) {
    |avail| > 0 && forall j :: 0 <= j < |avail| ==> avail[j] < |ks|
  }

  // ---------------------------------------------------------------------
  // Selection strategies
  // ---------------------------------------------------------------------

  function ByRoundRobin(p: PoolState, avail: seq<nat>): (r: Picked)
    requires Candidates(p.keys, avail)
  {
    var (j, c) := RoundRobinPick(p.cursor, |avail|);
    Picked(p.(cursor := c), Some(avail[j]))
  }

  function LastUsedOf(ks: seq<KeyRecord>, avail: seq<nat>): (r: seq<Option<Time>>)
    requires Candidates(ks, avail)
    ensures |r| == |avail| && forall j :: 0 <= j < |avail| ==> r[j] == ks[avail[j]].metrics.lastUsed
  {
    seq(|avail|, j requires 0 <= j < |avail| => ks[avail[j]].metrics.lastUsed)
  }

  function ByLeastRecent(p: PoolState, avail: seq<nat>): (r: Picked)
    requires Candidates(p.keys, avail)
  {
    var i := avail[LeastRecent(LastUsedOf(p.keys, avail))];
    var id := p.keys[i].id;
    Picked(p.(lruOrder := RemoveFirst(p.lruOrder, id) + [id]), Some(i))
  }

  function WeightsOf(ks: seq<KeyRecord>, avail: seq<nat>): (r: seq<real>)
    requires Candidates(ks, avail)
    ensures |r| == |avail| && forall j :: 0 <= j < |avail| ==> r[j] == EffectiveWeight(ks[avail[j]])
  {
    seq(|avail|, j requires 0 <= j < |avail| => EffectiveWeight(ks[avail[j]]))
  }

  function ByWeight(p: PoolState, avail: seq<nat>, d: Draw): (r: Picked)
    requires Candidates(p.keys, avail)
  {
    Picked(p, Some(avail[WeightedChoice(WeightsOf(p.keys, avail), d)]))
  }

  /** Some key of the whole pool hit a rate limit less than thirty minutes ago. */
  predicate RateLimitedRecently(ks: seq<KeyRecord>, now: Time) {
    exists i :: 0 <= i < |ks| && ks[i].metrics.lastRateLimit.Some? &&
      now - ks[i].metrics.lastRateLimit.value < RECENT_RATE_LIMIT
  }

  /** The strategy's choice among non-empty, already healed candidates. */
  function Dispatch(p: PoolState, avail: seq<nat>, cfg: Config, now: Time, d: Draw): (r: Picked)
    requires Candidates(p.keys, avail)
  {
    match cfg.strategy
    case RoundRobin => ByRoundRobin(p, avail)
    case LeastRecentlyUsed => ByLeastRecent(p, avail)
    case Weighted => ByWeight(p, avail, d)
    case Adaptive =>
      if RateLimitedRecently(p.keys, now) then ByWeight(p, avail, d)
      else ByLeastRecent(p, avail)
    case Random => Picked(p, Some(avail[d.pick % |avail|]))
  }

  /** `get_key_by_strategy`: heal, collect the available keys, dispatch to the strategy. */
  function Select(p: PoolState, cfg: Config, now: Time, d: Draw): (r: Picked) {
    var healed := p.(keys := HealAll(p.keys, now));
    var avail := AvailableIndices(healed.keys);
    if |avail| == 0 then Picked(healed, None)
    else Dispatch(healed, avail, cfg, now, d)
  }

  // ---------------------------------------------------------------------
  // Recording outcomes
  // ---------------------------------------------------------------------

  /** The `event_type` argument of `record_key_event`, with the keyword argument it uses. */
  datatype Event = SuccessEvent | RateLimitEvent(resetTime: Option<Time>) | ErrorEvent | OtherEvent(name: string)

  /** The first position holding `id` (`next(...)` over `self.keys`), if any. */
  function FindKey(ks: seq<KeyRecord>, id: string): (r: Option<nat>)
    ensures r.None? <==> id !in Ids(ks)
    ensures r.Some? ==> r.value < |ks| && ks[r.value].id == id
    ensures r.Some? ==> forall j :: 0 <= j < r.value ==> ks[j].id != id
  {
    if ks == [] then None
    else if ks[0].id == id then Some(0)
    else
      var r := FindKey(ks[1..], id);
      assert Ids(ks) == [ks[0].id] + Ids(ks[1..]);
      if r.None? then None else Some(r.value + 1)
  }

  /** What an event does to the key it names, circuit breaker included. */
  function KeyAfterEvent(k: KeyRecord, cfg: Config, ev: Event, now: Time): (k': KeyRecord) {
    match ev
    case SuccessEvent => RecordSuccess(k, now)
    case RateLimitEvent(reset) => RecordRateLimit(k, reset, now)
    case ErrorEvent =>
      var k1 := RecordError(k, now);
      if k1.metrics.consecutiveFailures >= cfg.circuitBreakerThreshold then
        TripCircuitBreaker(k1, cfg.circuitBreakerTimeout, now)
      else k1
    case OtherEvent(_) => k
  }

  /** `record_key_event`: an unknown id changes nothing. */
  function ApplyEvent(p: PoolState, cfg: Config, id: string, ev: Event, now: Time): (r: PoolState)
    ensures |r.keys| == |p.keys| && Ids(r.keys) == Ids(p.keys)
    ensures r.cursor == p.cursor && r.lruOrder == p.lruOrder
    ensures forall j :: 0 <= j < |p.keys| && p.keys[j].id != id ==> r.keys[j] == p.keys[j]
  {
    match FindKey(p.keys, id)
    case None => p
    case Some(i) => p.(keys := p.keys[i := KeyAfterEvent(p.keys[i], cfg, ev, now)])
  }

  // ---------------------------------------------------------------------
  // Counters summed over the pool
  // ---------------------------------------------------------------------

  /** A key's request counter. */
  function Requests(m: Metrics): (n: nat) { m.totalRequests }

  /** A key's success counter. */
  function Successes(m: Metrics): (n: nat) { m.successfulRequests }

  /** A key's error counter. */
  function Errors(m: Metrics): (n: nat) { m.errorRequests }

  /** A key's rate-limit counter. */
  function RateLimits(m: Metrics): (n: nat) { m.rateLimitedRequests }

  /** One counter of the keys' statistics, summed over the pool. */
  function Tally(ks: seq<KeyRecord>, count: Metrics -> nat): (sum: nat) {
    if ks == [] then 0 else count(ks[0].metrics) + Tally(ks[1..], count)
  }

  /** Pools whose keys have the same statistics, position by position, have the same tallies. */
  lemma {:induction false} TallySameMetrics(a: seq<KeyRecord>, b: seq<KeyRecord>, count: Metrics -> nat)
    requires |a| == |b| && forall i :: 0 <= i < |a| ==> a[i].metrics == b[i].metrics
    ensures Tally(a, count) == Tally(b, count)
  {
    if a != [] {
      TallySameMetrics(a[1..], b[1..], count);
    }
  }

  /** Replacing one key changes a tally by the difference of that key's counts. */
  lemma {:induction false} TallyUpdate(ks: seq<KeyRecord>, i: nat, k: KeyRecord, count: Metrics -> nat)
    requires i < |ks|
    ensures Tally(ks[i := k], count) + count(ks[i].metrics) == Tally(ks, count) + count(k.metrics)
  {
    if i == 0 {
      assert ks[i := k][1..] == ks[1..];
    } else {
      assert ks[i := k][1..] == ks[1..][i - 1 := k];
      TallyUpdate(ks[1..], i - 1, k, count);
    }
  }

  /** Healing, which `is_available` does, leaves every counter of the pool as it was. */
  lemma HealKeepsTallies(ks: seq<KeyRecord>, now: Time, count: Metrics -> nat)
    ensures Tally(HealAll(ks, now), count) == Tally(ks, count)
  {
    TallySameMetrics(HealAll(ks, now), ks, count);
  }

  /**
   * Recording an outcome on a key of the pool counts exactly one more
   * request in the pool, and one more success, error or rate limit exactly
   * when the event is of that kind.
   */
  lemma EventTallies(p: PoolState, cfg: Config, id: string, ev: Event, now: Time)
    requires id in Ids(p.keys) && !ev.OtherEvent?
    ensures var after := ApplyEvent(p, cfg, id, ev, now).keys;
      && Tally(after, Requests) == Tally(p.keys, Requests) + 1
      && Tally(after, Successes) == Tally(p.keys, Successes) + (if ev == SuccessEvent then 1 else 0)
      && Tally(after, Errors) == Tally(p.keys, Errors) + (if ev == ErrorEvent then 1 else 0)
      && Tally(after, RateLimits) == Tally(p.keys, RateLimits) + (if ev.RateLimitEvent? then 1 else 0)
  {
    var i := FindKey(p.keys, id).value;
    var k := KeyAfterEvent(p.keys[i], cfg, ev, now);
    TallyUpdate(p.keys, i, k, Requests);
    TallyUpdate(p.keys, i, k, Successes);
    TallyUpdate(p.keys, i, k, Errors);
    TallyUpdate(p.keys, i, k, RateLimits);
  }

  // ---------------------------------------------------------------------
  // Health check and status
  // ---------------------------------------------------------------------

  /** A probation key whose last error is old enough (or absent) is promoted. */
  predicate DueForPromotion(k: KeyRecord, now: Time) {
    k.health == Testing && (k.metrics.lastError.None? || now - k.metrics.lastError.value > PROBATION_QUIET)
  }

  /** `_perform_health_checks`, one pass over the pool. */
  function HealthCheck(ks: seq<KeyRecord>, now: Time): (r: seq<KeyRecord>)
    ensures |r| == |ks|
  {
    seq(|ks|, i requires 0 <= i < |ks| => if DueForPromotion(ks[i], now) then ks[i].(health := Healthy) else ks[i])
  }

  /** One entry of the `keys` list of `get_pool_status`. */
  datatype KeyStatus = KeyStatus(
    id: string,
    health: Health,
    successRate: real,
    totalRequests: nat,
    consecutiveFailures: nat,
    lastUsed: Option<Time>,
    weight: real)

  function StatusOf(k: KeyRecord): (entry: KeyStatus) {
    KeyStatus(k.id, k.health, SuccessRate(k.metrics), k.metrics.totalRequests,
              k.metrics.consecutiveFailures, k.metrics.lastUsed, EffectiveWeight(k))
  }

  /** The report `get_pool_status` returns. */
  datatype PoolStatus = PoolStatus(totalKeys: nat, availableKeys: nat, strategy: Strategy, keys: seq<KeyStatus>)

  /**
   * `get_pool_status`: the report, and the pool it leaves behind. Counting the
   * available keys heals them first, so the per-key entries show healed states.
   */
  function Status(p: PoolState, cfg: Config, now: Time): (result: (PoolStatus, PoolState))
  {
    var healed := HealAll(p.keys, now);
    (PoolStatus(|p.keys|, |AvailableIndices(healed)|, cfg.strategy, StatusList(healed)), p.(keys := healed))
  }

  function StatusList(ks: seq<KeyRecord>): (r: seq<KeyStatus>)
    ensures |r| == |ks| && forall i :: 0 <= i < |ks| ==> r[i] == StatusOf(ks[i])
  {
    seq(|ks|, i requires 0 <= i < |ks| => StatusOf(ks[i]))
  }

  // ---------------------------------------------------------------------
  // Adding and removing keys
  // ---------------------------------------------------------------------

  /** `add_key`: the key goes to the end of the pool and its id to the end of the LRU order. */
  function Added(p: PoolState, k: KeyRecord): (r: PoolState) {
    p.(keys := p.keys + [k], lruOrder := p.lruOrder + [k.id])
  }

  /** `[k for k in keys if k.id != key_id]` on records. */
  function RemoveId(ks: seq<KeyRecord>, id: string): (r: seq<KeyRecord>)
    ensures forall x :: multiset(Ids(r))[x] == if x == id then 0 else multiset(Ids(ks))[x]
  {
    if ks == [] then []
    else
      var rest := RemoveId(ks[1..], id);
      IdsCons(ks[0], ks[1..]);
      assert ks == [ks[0]] + ks[1..];
      if ks[0].id == id then rest
      else
        IdsCons(ks[0], rest);
        [ks[0]] + rest
  }

  /** The filter keeps exactly the records without the id. */
  lemma {:induction false} RemoveIdKeeps(ks: seq<KeyRecord>, id: string)
    ensures forall i :: 0 <= i < |RemoveId(ks, id)| ==> RemoveId(ks, id)[i] in ks
    ensures forall i :: 0 <= i < |ks| && ks[i].id != id ==> ks[i] in RemoveId(ks, id)
  {
    if ks != [] {
      RemoveIdKeeps(ks[1..], id);
      assert forall i :: 1 <= i < |ks| ==> ks[i] == ks[1..][i - 1];
    }
  }

  lemma IdsCons(k: KeyRecord, ks: seq<KeyRecord>)
    ensures Ids([k] + ks) == [k.id] + Ids(ks)
  {
  }

  /** `remove_key`: every key with the id leaves the pool, its first occurrence leaves the LRU order. */
  function Removed(p: PoolState, id: string): (r: PoolState) {
    p.(keys := RemoveId(p.keys, id), lruOrder := RemoveFirst(p.lruOrder, id))
  }

  // =====================================================================
  // Properties
  // =====================================================================

  /** A position is in the available list exactly when that key is usable. */
  lemma AvailableIndicesExact(ks: seq<KeyRecord>, i: nat)
    requires i < |ks|
    ensures i in AvailableIndices(ks) <==> Usable(ks[i].health)
  {
  }

  /**
   * Selection hands out nothing exactly when no key is available at `now`;
   * otherwise it hands out a key that is available, leaves every key healed
   * and changes neither the ids nor their order.
   */
  lemma SelectReturnsAvailableKey(p: PoolState, cfg: Config, now: Time, d: Draw)
    ensures var r := Select(p, cfg, now, d);
      && r.pool.keys == HealAll(p.keys, now)
      && (r.chosen.None? <==> forall i :: 0 <= i < |p.keys| ==> !IsAvailable(p.keys[i], now))
      && (r.chosen.Some? ==> r.chosen.value < |p.keys| && IsAvailable(p.keys[r.chosen.value], now))
  {
    var healed := HealAll(p.keys, now);
    var avail := AvailableIndices(healed);
    if |avail| == 0 {
      forall i | 0 <= i < |p.keys| ensures !IsAvailable(p.keys[i], now) {
        AvailableIndicesExact(healed, i);
      }
    } else {
      DispatchChoosesCandidate(p.(keys := healed), avail, cfg, now, d);
    }
  }

  /** Every strategy hands out one of its candidates and leaves the keys alone. */
  lemma DispatchChoosesCandidate(p: PoolState, avail: seq<nat>, cfg: Config, now: Time, d: Draw)
    requires Candidates(p.keys, avail)
    ensures var r := Dispatch(p, avail, cfg, now, d);
      && r.pool.keys == p.keys && r.chosen.Some? && r.chosen.value in avail
      && (r.pool.lruOrder == p.lruOrder || r == ByLeastRecent(p, avail))
  {
    var r := Dispatch(p, avail, cfg, now, d);
    if cfg.strategy == Weighted || (cfg.strategy == Adaptive && RateLimitedRecently(p.keys, now)) {
      var w := WeightsOf(p.keys, avail);
      if Total(w) != 0.0 {
        assert avail[WeightedPick(w, d.fraction * Total(w))] in avail;
      } else {
        assert avail[d.pick % |avail|] in avail;
      }
    } else if cfg.strategy == LeastRecentlyUsed || cfg.strategy == Adaptive {
      assert avail[LeastRecent(LastUsedOf(p.keys, avail))] in avail;
    } else if cfg.strategy == RoundRobin {
      assert avail[RoundRobinPick(p.cursor, |avail|).0] in avail;
    } else {
      assert avail[d.pick % |avail|] in avail;
    }
  }

  /** With distinct ids, looking an id up finds the one key that has it. */
  lemma FindKeyDistinct(ks: seq<KeyRecord>, id: string, i: nat)
    requires i < |ks| && ks[i].id == id && DistinctIds(ks)
    ensures FindKey(ks, id) == Some(i)
  {
    assert Ids(ks)[i] == id;
    var r := FindKey(ks, id);
    assert r.Some? && r.value <= i;
    assert ks[r.value].id == ks[i].id;
  }

  /** With every key usable, the available list is the whole pool in order. */
  lemma {:induction false} AllUsableAllAvailable(ks: seq<KeyRecord>)
    requires forall i :: 0 <= i < |ks| ==> Usable(ks[i].health)
    ensures AvailableIndices(ks) == seq(|ks|, i requires 0 <= i < |ks| => i)
  {
    if ks != [] {
      var last := |ks| - 1;
      AllUsableAllAvailable(ks[..last]);
    }
  }

  /** `count` selections in a row at one instant with one draw, listing the positions handed out. */
  function SelectRun(p: PoolState, cfg: Config, now: Time, d: Draw, count: nat): (r: seq<Option<nat>>)
    decreases count
    ensures |r| == count
  {
    if count == 0 then []
    else
      var s := Select(p, cfg, now, d);
      [s.chosen] + SelectRun(s.pool, cfg, now, d, count - 1)
  }

  /**
   * Round robin over a pool whose keys are all usable hands them out in
   * insertion order, starting at the cursor and wrapping around: the j-th
   * selection returns key (cursor + j) mod N. The stored cursor may exceed N
   * (`remove_key` leaves it alone); only its remainder matters.
   */
  lemma {:induction false} RoundRobinVisitsInOrder(p: PoolState, cfg: Config, now: Time, d: Draw, count: nat)
    decreases count
    requires cfg.strategy == RoundRobin
    requires |p.keys| > 0
    requires forall i :: 0 <= i < |p.keys| ==> Usable(p.keys[i].health)
    ensures forall j :: 0 <= j < count ==> SelectRun(p, cfg, now, d, count)[j] == Some((p.cursor + j) % |p.keys|)
  {
    if count > 0 {
      var n := |p.keys|;
      var c := p.cursor % n;
      var next := if c == n - 1 then 0 else c + 1;
      RoundRobinStep(p, cfg, now, d);
      var p' := p.(cursor := next);
      RoundRobinVisitsInOrder(p', cfg, now, d, count - 1);
      var run := SelectRun(p, cfg, now, d, count);
      var rest := SelectRun(p', cfg, now, d, count - 1);
      assert run == [Some(c)] + rest;
      assert |p'.keys| == n && p'.cursor == next;
      RunFromCursor(run, rest, c, n, count);
      forall j | 0 <= j < count ensures run[j] == Some((p.cursor + j) % n) {
        ModShift(p.cursor, n, j);
      }
    }
  }

  /** Reducing the cursor first does not change where `j` steps on from it lands. */
  lemma ModShift(c: nat, n: nat, j: nat)
    requires n > 0
    ensures (c % n + j) % n == (c + j) % n
  {
    var q, m := (c % n + j) / n, (c % n + j) % n;
    assert c == (c / n) * n + c % n;
    assert c + j == (c / n + q) * n + m;
    ModUnique(c + j, n, c / n + q, m);
  }

  /** A run that starts at the cursor and continues from the next position visits positions in cyclic order. */
  lemma RunFromCursor(run: seq<Option<nat>>, rest: seq<Option<nat>>, c: nat, n: nat, count: nat)
    requires c < n && count > 0 && run == [Some(c)] + rest && |rest| == count - 1
    requires forall j :: 0 <= j < count - 1 ==> rest[j] == Some(((if c == n - 1 then 0 else c + 1) + j) % n)
    ensures forall j :: 0 <= j < count ==> run[j] == Some((c + j) % n)
  {
    forall j | 0 <= j < count ensures run[j] == Some((c + j) % n) {
      if j == 0 {
        ModUnique(c, n, 0, c);
      } else {
        assert run[j] == rest[j - 1];
        NextCursorShift(c, n, j);
      }
    }
  }

  /** One round-robin selection over an all-usable pool: the key at the cursor modulo the pool size, and the cursor moves on. */
  lemma RoundRobinStep(p: PoolState, cfg: Config, now: Time, d: Draw)
    requires cfg.strategy == RoundRobin
    requires |p.keys| > 0
    requires forall i :: 0 <= i < |p.keys| ==> Usable(p.keys[i].health)
    ensures var c := p.cursor % |p.keys|;
      Select(p, cfg, now, d) == Picked(p.(cursor := if c == |p.keys| - 1 then 0 else c + 1), Some(c))
  {
    var n := |p.keys|;
    assert HealAll(p.keys, now) == p.keys;
    AllUsableAllAvailable(p.keys);
    var avail := AvailableIndices(p.keys);
    assert avail[p.cursor % n] == p.cursor % n;
  }

  /** Starting one place on (wrapping) and going j - 1 further is going j places. */
  lemma NextCursorShift(c: nat, n: nat, j: nat)
    requires c < n && j > 0
    ensures ((if c == n - 1 then 0 else c + 1) + (j - 1)) % n == (c + j) % n
  {
    if c == n - 1 {
      var a := j - 1;
      ModUnique(a + n, n, a / n + 1, a % n);
      assert c + j == a + n;
    }
  }

  /** Selection with the least-recently-used strategy, once the pool is healed and has candidates. */
  lemma SelectByLeastRecent(p: PoolState, now: Time, d: Draw)
    requires |AvailableIndices(HealAll(p.keys, now))| > 0
    ensures var healed := HealAll(p.keys, now);
      Select(p, Config(LeastRecentlyUsed, 0, 0), now, d) == ByLeastRecent(p.(keys := healed), AvailableIndices(healed))
  {
  }

  /**
   * The least-recently-used selector hands out an available key whose
   * `last_used` is not after that of any other available key (a never-used
   * key first).
   */
  lemma LeastRecentSelectionIsOldest(p: PoolState, now: Time, d: Draw)
    ensures var r := Select(p, Config(LeastRecentlyUsed, 0, 0), now, d);
      r.chosen.Some? ==>
        var i := r.chosen.value;
        i < |p.keys| &&
        forall j :: 0 <= j < |p.keys| && IsAvailable(p.keys[j], now) ==>
          NotAfter(p.keys[i].metrics.lastUsed, p.keys[j].metrics.lastUsed)
  {
    var healed := HealAll(p.keys, now);
    var avail := AvailableIndices(healed);
    if |avail| > 0 {
      var hp := p.(keys := healed);
      SelectByLeastRecent(p, now, d);
      var i := ByLeastRecent(hp, avail).chosen.value;
      LeastRecentChoosesOldest(hp, avail);
      forall j | 0 <= j < |p.keys| && IsAvailable(p.keys[j], now)
        ensures NotAfter(p.keys[i].metrics.lastUsed, p.keys[j].metrics.lastUsed)
      {
        AvailableIndicesExact(healed, j);
        var m :| 0 <= m < |avail| && avail[m] == j;
        HealIdempotent(p.keys[i], now);
        HealIdempotent(p.keys[j], now);
        assert NotAfter(healed[i].metrics.lastUsed, healed[j].metrics.lastUsed);
      }
    }
  }

  /**
   * The least-recently-used selector moves the chosen key's id to the end of
   * the LRU order, which stays a permutation of the pool's ids.
   */
  lemma LeastRecentSelectionMovesToEnd(p: PoolState, now: Time, d: Draw)
    requires multiset(p.lruOrder) == multiset(Ids(p.keys))
    ensures var r := Select(p, Config(LeastRecentlyUsed, 0, 0), now, d);
      r.chosen.Some? ==>
        && r.chosen.value < |p.keys|
        && |r.pool.lruOrder| > 0 && r.pool.lruOrder[|r.pool.lruOrder| - 1] == p.keys[r.chosen.value].id
        && multiset(r.pool.lruOrder) == multiset(p.lruOrder)
  {
    var healed := HealAll(p.keys, now);
    var avail := AvailableIndices(healed);
    if |avail| > 0 {
      var hp := p.(keys := healed);
      SelectByLeastRecent(p, now, d);
      HealAllKeepsIds(p.keys, now);
      LeastRecentKeepsOrderPermutation(hp, avail);
      var i := ByLeastRecent(hp, avail).chosen.value;
      HealIdempotent(p.keys[i], now);
    }
  }

  /** Healing changes no id. */
  lemma HealAllKeepsIds(ks: seq<KeyRecord>, now: Time)
    ensures Ids(HealAll(ks, now)) == Ids(ks)
  {
    var healed := HealAll(ks, now);
    forall i | 0 <= i < |ks| ensures Ids(healed)[i] == Ids(ks)[i] {
      HealIdempotent(ks[i], now);
    }
  }

  /** The least-recently-used selector picks a candidate used no later than any other candidate. */
  lemma LeastRecentChoosesOldest(p: PoolState, avail: seq<nat>)
    requires Candidates(p.keys, avail)
    ensures var i := ByLeastRecent(p, avail).chosen.value;
      forall m :: 0 <= m < |avail| ==> NotAfter(p.keys[i].metrics.lastUsed, p.keys[avail[m]].metrics.lastUsed)
  {
    var lu := LastUsedOf(p.keys, avail);
    var k := LeastRecent(lu);
    forall m | 0 <= m < |avail| ensures NotAfter(lu[k], lu[m]) {
    }
  }

  /** Moving the chosen id to the end keeps the LRU order a permutation. */
  lemma LeastRecentKeepsOrderPermutation(p: PoolState, avail: seq<nat>)
    requires Candidates(p.keys, avail)
    requires multiset(p.lruOrder) == multiset(Ids(p.keys))
    ensures var r := ByLeastRecent(p, avail);
      && multiset(r.pool.lruOrder) == multiset(p.lruOrder)
      && |r.pool.lruOrder| > 0 && r.pool.lruOrder[|r.pool.lruOrder| - 1] == p.keys[r.chosen.value].id
  {
    var i := avail[LeastRecent(LastUsedOf(p.keys, avail))];
    var id := p.keys[i].id;
    assert Ids(p.keys)[i] == id;
    assert id in multiset(Ids(p.keys));
    assert id in p.lruOrder;
  }

  /** Selection keeps the LRU order a permutation of the pool's ids. */
  lemma SelectKeepsOrderPermutation(p: PoolState, cfg: Config, now: Time, d: Draw)
    requires multiset(p.lruOrder) == multiset(Ids(p.keys))
    ensures multiset(Select(p, cfg, now, d).pool.lruOrder) == multiset(p.lruOrder)
  {
    var healed := HealAll(p.keys, now);
    assert Ids(healed) == Ids(p.keys);
    var avail := AvailableIndices(healed);
    if |avail| > 0 {
      DispatchChoosesCandidate(p.(keys := healed), avail, cfg, now, d);
      LeastRecentKeepsOrderPermutation(p.(keys := healed), avail);
    }
  }

  /**
   * An error on a known key counts the attempt, the error and the failure
   * streak, and opens the circuit exactly when the streak reaches the
   * threshold; an open circuit keeps the key out of the available set until
   * the cooldown has passed.
   */
  lemma ErrorEventOpensCircuitAtThreshold(p: PoolState, cfg: Config, id: string, now: Time, i: nat)
    requires i < |p.keys| && p.keys[i].id == id && DistinctIds(p.keys)
    ensures var k := p.keys[i];
      var k' := ApplyEvent(p, cfg, id, ErrorEvent, now).keys[i];
      && k' == KeyAfterEvent(k, cfg, ErrorEvent, now)
      && k'.metrics.totalRequests == k.metrics.totalRequests + 1
      && k'.metrics.errorRequests == k.metrics.errorRequests + 1
      && k'.metrics.consecutiveFailures == k.metrics.consecutiveFailures + 1
      && k'.metrics.successfulRequests == k.metrics.successfulRequests
      && k'.metrics.lastError == Some(now)
      && (k'.health == Error <==> k.metrics.consecutiveFailures + 1 >= cfg.circuitBreakerThreshold || k.health == Error)
      && (k.metrics.consecutiveFailures + 1 >= cfg.circuitBreakerThreshold ==>
            && k'.circuitBreakerResetTime == Some(now + cfg.circuitBreakerTimeout * MINUTE)
            && forall t :: t <= now + cfg.circuitBreakerTimeout * MINUTE ==> !IsAvailable(k', t))
      && (k.metrics.consecutiveFailures + 1 < cfg.circuitBreakerThreshold ==>
            k'.health == k.health && k'.circuitBreakerResetTime == k.circuitBreakerResetTime &&
            k'.rateLimitResetTime == k.rateLimitResetTime)
  {
    FindKeyDistinct(p.keys, id, i);
    assert ApplyEvent(p, cfg, id, ErrorEvent, now).keys[i] == KeyAfterEvent(p.keys[i], cfg, ErrorEvent, now);
    ErrorOnKey(p.keys[i], cfg, now);
  }

  /**
   * The error event on one key record: one more counted error; the breaker
   * trips at the threshold, and below it health and breaker timer stay as
   * they were.
   */
  lemma ErrorOnKey(k: KeyRecord, cfg: Config, now: Time)
    ensures var k' := KeyAfterEvent(k, cfg, ErrorEvent, now);
      && k'.metrics.totalRequests == k.metrics.totalRequests + 1
      && k'.metrics.errorRequests == k.metrics.errorRequests + 1
      && k'.metrics.consecutiveFailures == k.metrics.consecutiveFailures + 1
      && k'.metrics.successfulRequests == k.metrics.successfulRequests
      && k'.metrics.lastError == Some(now)
      && (k'.health == Error <==> k.metrics.consecutiveFailures + 1 >= cfg.circuitBreakerThreshold || k.health == Error)
      && (k.metrics.consecutiveFailures + 1 >= cfg.circuitBreakerThreshold ==>
            && k'.circuitBreakerResetTime == Some(now + cfg.circuitBreakerTimeout * MINUTE)
            && forall t :: t <= now + cfg.circuitBreakerTimeout * MINUTE ==> !IsAvailable(k', t))
      && (k.metrics.consecutiveFailures + 1 < cfg.circuitBreakerThreshold ==>
            k'.health == k.health && k'.circuitBreakerResetTime == k.circuitBreakerResetTime &&
            k'.rateLimitResetTime == k.rateLimitResetTime)
  {
  }

  /** An event for an id that is not in the pool leaves the whole pool as it was. */
  lemma UnknownIdLeavesPoolUnchanged(p: PoolState, cfg: Config, id: string, ev: Event, now: Time)
    requires forall i :: 0 <= i < |p.keys| ==> p.keys[i].id != id
    ensures ApplyEvent(p, cfg, id, ev, now) == p
  {
  }

  /** The same event for the same id, `count` times at one instant. */
  function Repeat(p: PoolState, cfg: Config, id: string, ev: Event, now: Time, count: nat): (r: PoolState)
    decreases count
    ensures |r.keys| == |p.keys| && Ids(r.keys) == Ids(p.keys)
  {
    if count == 0 then p else Repeat(ApplyEvent(p, cfg, id, ev, now), cfg, id, ev, now, count - 1)
  }

  /**
   * From a clean failure streak, `count` errors in a row leave a streak of
   * `count`; once `count` reaches the threshold the key's circuit is open and
   * it is not available for the cooldown.
   */
  lemma {:induction false} RepeatedErrorsOpenCircuit(p: PoolState, cfg: Config, id: string, now: Time, i: nat, count: nat)
    decreases count
    requires i < |p.keys| && p.keys[i].id == id && DistinctIds(p.keys)
    requires cfg.circuitBreakerTimeout >= 0
    ensures var k' := Repeat(p, cfg, id, ErrorEvent, now, count).keys[i];
      && |Repeat(p, cfg, id, ErrorEvent, now, count).keys| == |p.keys|
      && k'.metrics.consecutiveFailures == p.keys[i].metrics.consecutiveFailures + count
      && (p.keys[i].metrics.consecutiveFailures + count >= cfg.circuitBreakerThreshold && count > 0 ==>
            k'.health == Error && !IsAvailable(k', now))
  {
    if count > 0 {
      var p1 := ApplyEvent(p, cfg, id, ErrorEvent, now);
      ErrorEventOpensCircuitAtThreshold(p, cfg, id, now, i);
      assert Ids(p1.keys) == Ids(p.keys);
      assert DistinctIds(p1.keys);
      RepeatedErrorsOpenCircuit(p1, cfg, id, now, i, count - 1);
      assert Repeat(p, cfg, id, ErrorEvent, now, count) == Repeat(p1, cfg, id, ErrorEvent, now, count - 1);
      if count == 1 {
        assert Repeat(p1, cfg, id, ErrorEvent, now, 0) == p1;
        assert now <= now + cfg.circuitBreakerTimeout * MINUTE;
      }
    }
  }

  /**
   * After a rate-limit event on a key, that key is absent from the available
   * set until the clock passes the recorded reset instant, and present after.
   */
  lemma RateLimitEventBlocksUntilReset(p: PoolState, cfg: Config, id: string, reset: Option<Time>, t0: Time, i: nat, now: Time)
    requires i < |p.keys| && p.keys[i].id == id && DistinctIds(p.keys)
    ensures var ks := ApplyEvent(p, cfg, id, RateLimitEvent(reset), t0).keys;
      i < |ks| && (i in AvailableIndices(HealAll(ks, now)) <==> now > RateLimitResetAt(reset, t0))
  {
    FindKeyDistinct(p.keys, id, i);
    var ks := ApplyEvent(p, cfg, id, RateLimitEvent(reset), t0).keys;
    assert ks[i] == RecordRateLimit(p.keys[i], reset, t0);
    RateLimitedUntilReset(p.keys[i], reset, t0, now);
    AvailableIndicesExact(HealAll(ks, now), i);
  }

  /** Every key holding `id` is rate limited with a reset no earlier than `until`. */
  ghost predicate Blocked(ks: seq<KeyRecord>, id: string, until: Time) {
    forall i :: 0 <= i < |ks| && ks[i].id == id ==>
      ks[i].health == RateLimited && ks[i].rateLimitResetTime.Some? && until <= ks[i].rateLimitResetTime.value
  }

  /** A rate-limit event blocks its key until the recorded reset instant. */
  lemma RateLimitEventBlocks(p: PoolState, cfg: Config, id: string, reset: Option<Time>, now: Time, until: Time)
    requires DistinctIds(p.keys) && until <= RateLimitResetAt(reset, now)
    ensures Blocked(ApplyEvent(p, cfg, id, RateLimitEvent(reset), now).keys, id, until)
  {
    var found := FindKey(p.keys, id);
    if found.Some? {
      forall i | 0 <= i < |p.keys| && p.keys[i].id == id ensures i == found.value {
        FindKeyDistinct(p.keys, id, i);
      }
    }
  }

  /** An event on another key leaves a blocked key blocked. */
  lemma EventKeepsOtherBlocked(p: PoolState, cfg: Config, other: string, ev: Event, now: Time, id: string, until: Time)
    requires other != id && Blocked(p.keys, id, until)
    ensures Blocked(ApplyEvent(p, cfg, other, ev, now).keys, id, until)
  {
  }

  /**
   * Before its reset instant a blocked key is never handed out, and selection
   * (which heals only expired timers) leaves it blocked.
   */
  lemma SelectAvoidsBlocked(p: PoolState, cfg: Config, now: Time, d: Draw, id: string, until: Time)
    requires Blocked(p.keys, id, until) && now <= until
    ensures var r := Select(p, cfg, now, d);
      && Blocked(r.pool.keys, id, until)
      && (r.chosen.Some? ==> r.chosen.value < |r.pool.keys| && r.pool.keys[r.chosen.value].id != id)
  {
    SelectReturnsAvailableKey(p, cfg, now, d);
  }

  /**
   * The health check promotes exactly the probation keys that are due and
   * touches nothing else; afterwards no key on probation is due, and running
   * it again at the same instant changes nothing.
   */
  lemma HealthCheckPromotesDueKeys(ks: seq<KeyRecord>, now: Time)
    ensures var r := HealthCheck(ks, now);
      && (forall i :: 0 <= i < |ks| ==>
            r[i].health == (if DueForPromotion(ks[i], now) then Healthy else ks[i].health) &&
            r[i] == ks[i].(health := r[i].health))
      && (forall i :: 0 <= i < |ks| ==> Usable(r[i].health) == Usable(ks[i].health))
      && (forall i :: 0 <= i < |ks| ==> !DueForPromotion(r[i], now))
      && HealthCheck(r, now) == r
  {
  }

  /**
   * The report counts every key and, among them, the available ones (none
   * exactly when no key is available), and it leaves every key healed.
   */
  lemma StatusCountsAvailable(p: PoolState, cfg: Config, now: Time)
    ensures var (s, after) := Status(p, cfg, now);
      && s.totalKeys == |p.keys| && s.availableKeys <= s.totalKeys
      && (s.availableKeys == 0 <==> forall i :: 0 <= i < |p.keys| ==> !IsAvailable(p.keys[i], now))
      && after == p.(keys := HealAll(p.keys, now))
  {
    var healed := HealAll(p.keys, now);
    if |AvailableIndices(healed)| == 0 {
      forall i | 0 <= i < |p.keys| ensures !IsAvailable(p.keys[i], now) {
        AvailableIndicesExact(healed, i);
      }
    } else {
      assert AvailableIndices(healed)[0] in AvailableIndices(healed);
    }
  }

  /**
   * The report lists every key in pool order with its healed state and its
   * statistics; in a pool satisfying `PoolInv` every success rate is a fraction.
   */
  lemma StatusListsKeys(p: PoolState, cfg: Config, now: Time)
    requires PoolInv(p)
    ensures var s := Status(p, cfg, now).0;
      && |s.keys| == |p.keys|
      && forall i :: 0 <= i < |p.keys| ==>
           && s.keys[i].id == p.keys[i].id
           && s.keys[i].health == Heal(p.keys[i], now).health
           && s.keys[i].totalRequests == p.keys[i].metrics.totalRequests
           && 0.0 <= s.keys[i].successRate <= 1.0
  {
    var s := Status(p, cfg, now).0;
    forall i | 0 <= i < |p.keys| ensures 0.0 <= s.keys[i].successRate <= 1.0 {
      SuccessRateBounds(p.keys[i]);
    }
  }

  /** Removing a key that was just added gives back the pool it was added to. */
  lemma RemoveUndoesAdd(p: PoolState, k: KeyRecord)
    requires PoolInv(p) && k.id !in Ids(p.keys)
    ensures Removed(Added(p, k), k.id) == p
  {
    assert k.id !in multiset(p.lruOrder);
    RemoveAddedRecord(p.keys, k);
    RemoveAppendedId(p.lruOrder, k.id);
  }

  lemma RemoveAddedRecord(ks: seq<KeyRecord>, k: KeyRecord)
    requires k.id !in Ids(ks)
    ensures RemoveId(ks + [k], k.id) == ks
  {
    RemoveIdAppend(ks, [k], k.id);
    RemoveIdAbsent(ks, k.id);
    assert RemoveId([k], k.id) == RemoveId([], k.id);
  }

  lemma RemoveAppendedId(order: seq<string>, id: string)
    requires id !in order
    ensures RemoveFirst(order + [id], id) == order
  {
    RemoveFirstDropsFirstOccurrence(order + [id], id, |order|);
    assert (order + [id])[..|order|] == order;
  }

  /** Filtering distributes over concatenation. */
  lemma {:induction false} RemoveIdAppend(a: seq<KeyRecord>, b: seq<KeyRecord>, id: string)
    ensures RemoveId(a + b, id) == RemoveId(a, id) + RemoveId(b, id)
  {
    if a != [] {
      RemoveIdAppend(a[1..], b, id);
      assert (a + b)[1..] == a[1..] + b;
    } else {
      assert a + b == b;
    }
  }

  /** Filtering on an absent id drops nothing. */
  lemma {:induction false} RemoveIdAbsent(ks: seq<KeyRecord>, id: string)
    requires id !in Ids(ks)
    ensures RemoveId(ks, id) == ks
  {
    if ks != [] {
      IdsCons(ks[0], ks[1..]);
      assert ks == [ks[0]] + ks[1..];
      RemoveIdAbsent(ks[1..], id);
    }
  }

  /** After a removal no key carries the id, and every key without it is still there. */
  lemma RemovedDropsOnlyId(p: PoolState, id: string)
    ensures id !in Ids(Removed(p, id).keys)
    ensures forall i :: 0 <= i < |p.keys| && p.keys[i].id != id ==> p.keys[i] in Removed(p, id).keys
    ensures |Removed(p, id).lruOrder| == |p.lruOrder| - (if id in p.lruOrder then 1 else 0)
  {
    var r := RemoveId(p.keys, id);
    assert multiset(Ids(r))[id] == 0;
    RemoveIdKeeps(p.keys, id);
    if id in p.lruOrder {
      assert |multiset(RemoveFirst(p.lruOrder, id))| == |multiset(p.lruOrder) - multiset{id}|;
    }
  }

  /** Selection keeps `PoolInv`. */
  lemma SelectPreservesPoolInv(p: PoolState, cfg: Config, now: Time, d: Draw)
    requires PoolInv(p)
    ensures PoolInv(Select(p, cfg, now, d).pool)
  {
    HealPreservesPoolInv(p, now);
    SelectKeepsOrderPermutation(p, cfg, now, d);
    SelectReturnsAvailableKey(p, cfg, now, d);
  }

  /** Recording an event keeps `PoolInv`. */
  lemma ApplyEventPreservesPoolInv(p: PoolState, cfg: Config, id: string, ev: Event, now: Time)
    requires PoolInv(p)
    ensures PoolInv(ApplyEvent(p, cfg, id, ev, now))
  {
    var found := FindKey(p.keys, id);
    if found.Some? {
      var k := p.keys[found.value];
      OperationsPreserveInv(k, now, if ev.RateLimitEvent? then ev.resetTime else None, cfg.circuitBreakerTimeout);
      OperationsPreserveInv(RecordError(k, now), now, None, cfg.circuitBreakerTimeout);
      assert Inv(KeyAfterEvent(k, cfg, ev, now));
    }
  }

  /** The health check keeps `PoolInv`. */
  lemma HealthCheckPreservesPoolInv(p: PoolState, now: Time)
    requires PoolInv(p)
    ensures PoolInv(p.(keys := HealthCheck(p.keys, now)))
  {
    var checked := HealthCheck(p.keys, now);
    assert Ids(checked) == Ids(p.keys);
  }

  /** Healing every key keeps `PoolInv`. */
  lemma HealPreservesPoolInv(p: PoolState, now: Time)
    requires PoolInv(p)
    ensures PoolInv(p.(keys := HealAll(p.keys, now)))
  {
    var healed := HealAll(p.keys, now);
    forall i | 0 <= i < |p.keys| ensures Inv(healed[i]) {
      OperationsPreserveInv(p.keys[i], now, None, 0);
    }
    assert Ids(healed) == Ids(p.keys);
  }

  /** Adding a valid key with a fresh id keeps `PoolInv`. */
  lemma AddedPreservesPoolInv(p: PoolState, k: KeyRecord)
    requires PoolInv(p) && Inv(k) && k.id !in Ids(p.keys)
    ensures PoolInv(Added(p, k))
  {
    assert Ids(p.keys + [k]) == Ids(p.keys) + [k.id];
  }

  /** Removing an id keeps `PoolInv`. */
  lemma {:induction false} RemovedPreservesPoolInv(p: PoolState, id: string)
    requires PoolInv(p)
    ensures PoolInv(Removed(p, id))
  {
    var r := RemoveId(p.keys, id);
    RemoveIdKeepsDistinct(p.keys, id);
    assert multiset(Ids(p.keys))[id] <= 1 by { AtMostOnce(p.keys, id); }
    assert multiset(Ids(p.keys))[id := 0] == multiset(Ids(p.keys)) - multiset{id};
    RemoveIdKeeps(p.keys, id);
    forall i | 0 <= i < |r| ensures Inv(r[i]) {
      var j :| 0 <= j < |p.keys| && p.keys[j] == r[i];
    }
  }

  lemma {:induction false} RemoveIdKeepsDistinct(ks: seq<KeyRecord>, id: string)
    requires DistinctIds(ks)
    ensures DistinctIds(RemoveId(ks, id))
  {
    if ks != [] {
      RemoveIdKeepsDistinct(ks[1..], id);
      var rest := RemoveId(ks[1..], id);
      if ks[0].id != id {
        RemoveIdKeeps(ks[1..], id);
        forall j | 0 <= j < |rest| ensures rest[j].id != ks[0].id {
          assert rest[j] in ks[1..];
        }
      }
    }
  }

  /** With distinct ids an id occurs at most once. */
  lemma {:induction false} AtMostOnce(ks: seq<KeyRecord>, id: string)
    requires DistinctIds(ks)
    ensures multiset(Ids(ks))[id] <= 1
  {
    if ks != [] {
      assert Ids(ks) == [ks[0].id] + Ids(ks[1..]);
      AtMostOnce(ks[1..], id);
      if ks[0].id == id {
        assert id !in Ids(ks[1..]);
      }
    }
  }
}
