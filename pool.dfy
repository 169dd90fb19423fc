/**
 * `KeyPoolManager` from src/key_rotation.py: an ordered list of `KeyPair`
 * objects, a round-robin cursor and an LRU id order, all updated in place.
 * The lock is not modelled: each method runs as one step. `Model()` is the
 * value the `PoolModel` functions describe; every method is proved to move it
 * exactly as they do and to keep `Valid()`, so the lemmas of `PoolModel` carry
 * over to the objects.
 */
module Pool {
  import opened Base
  import opened KeyState
  import opened KeyPairs
  import opened Selection
  import opened PoolModel

  /** The snapshots of a list of keys, in order. */
  function StatesOf(ks: seq<KeyPair>): (r: seq<KeyRecord>)
    reads ks
    ensures |r| == |ks| && forall i :: 0 <= i < |ks| ==> r[i] == ks[i].State()
  {
    seq(|ks|, i requires 0 <= i < |ks| reads ks => ks[i].State())
  }

  /** The keys at the given positions, in the given order. */
  function Pick(ks: seq<KeyPair>, idx: seq<nat>): (r: seq<KeyPair>)
    requires forall j :: 0 <= j < |idx| ==> idx[j] < |ks|
    ensures |r| == |idx| && forall j :: 0 <= j < |idx| ==> r[j] == ks[idx[j]]
  {
    seq(|idx|, j requires 0 <= j < |idx| => ks[idx[j]])
  }

  lemma PickSnoc(ks: seq<KeyPair>, idx: seq<nat>, i: nat)
    requires forall j :: 0 <= j < |idx| ==> idx[j] < |ks|
    requires i < |ks|
    ensures Pick(ks, idx + [i]) == Pick(ks, idx) + [ks[i]]
  {
  }

  /** `Select` taken apart into the steps `get_key_by_strategy` performs, with what the class needs of it. */
  lemma SelectSteps(p: PoolState, cfg: Config, now: Time, d: Draw)
    requires PoolInv(p)
    ensures var healed := p.(keys := HealAll(p.keys, now));
      var idx := AvailableIndices(healed.keys);
      var r := Select(p, cfg, now, d);
      && r == (if |idx| == 0 then Picked(healed, None) else Dispatch(healed, idx, cfg, now, d))
      && (r.chosen.Some? ==> r.chosen.value < |p.keys|)
      && PoolInv(r.pool)
  {
    SelectReturnsAvailableKey(p, cfg, now, d);
    SelectPreservesPoolInv(p, cfg, now, d);
  }

  /** The key handed out is the one at the position the selection chose. */
  lemma ChosenKey(keys: seq<KeyPair>, r: Picked, dispatched: Picked, k: KeyPair)
    requires r == dispatched && dispatched.chosen.Some? && dispatched.chosen.value < |keys|
    requires k == keys[dispatched.chosen.value]
    ensures r.chosen.Some? && r.chosen.value < |keys| && Some(k) == Some(keys[r.chosen.value])
  {
  }

  /** `[k for k in keys if k.id != key_id]` on the objects. */
  function WithoutId(ks: seq<KeyPair>, id: string): (kept: seq<KeyPair>) {
    if ks == [] then []
    else if ks[0].id == id then WithoutId(ks[1..], id)
    else [ks[0]] + WithoutId(ks[1..], id)
  }

  /** Filtering the objects filters their snapshots the same way. */
  lemma {:induction false} WithoutIdStates(ks: seq<KeyPair>, id: string)
    ensures StatesOf(WithoutId(ks, id)) == RemoveId(StatesOf(ks), id)
  {
    if ks != [] {
      WithoutIdStates(ks[1..], id);
      assert StatesOf(ks)[1..] == StatesOf(ks[1..]);
      if ks[0].id != id {
        assert StatesOf([ks[0]] + WithoutId(ks[1..], id)) == [ks[0].State()] + StatesOf(WithoutId(ks[1..], id));
      }
    }
  }

  class KeyPoolManager {
    var keys: seq<KeyPair>
    const rotationStrategy: Strategy
    const circuitBreakerThreshold: int
    const circuitBreakerTimeout: int
    const healthCheckInterval: int
    var currentIndex: nat
    var lruOrder: seq<string>

    function Cfg(): (cfg: Config) {
      Config(rotationStrategy, circuitBreakerThreshold, circuitBreakerTimeout)
    }

    function Model(): (p: PoolState)
      reads this, keys
    {
      PoolState(StatesOf(keys), currentIndex, lruOrder)
    }

    ghost predicate Valid()
      reads this, keys
    {
      PoolInv(Model())
    }

    /** Distinct ids make distinct objects: updating one key leaves the others alone. */
    lemma DistinctObjects()
      requires Valid()
      ensures forall i, j :: 0 <= i < |keys| && 0 <= j < |keys| && i != j ==> keys[i] != keys[j]
    {
      forall i, j | 0 <= i < |keys| && 0 <= j < |keys| && i != j ensures keys[i] != keys[j] {
        if i < j {
          assert StatesOf(keys)[i].id != StatesOf(keys)[j].id;
        } else {
          assert StatesOf(keys)[j].id != StatesOf(keys)[i].id;
        }
      }
    }

    /** An empty pool: adaptive selection, a breaker after 5 failures for 10 minutes, health checks every 300 seconds unless given. */
    constructor (rotationStrategy: Strategy := Adaptive, circuitBreakerThreshold: int := 5, circuitBreakerTimeout: int := 10,
                 healthCheckInterval: int := 300)
      ensures Valid() && Model() == PoolState([], 0, [])
      ensures Cfg() == Config(rotationStrategy, circuitBreakerThreshold, circuitBreakerTimeout)
      ensures this.healthCheckInterval == healthCheckInterval
    {
      keys := [];
      this.rotationStrategy := rotationStrategy;
      this.circuitBreakerThreshold := circuitBreakerThreshold;
      this.circuitBreakerTimeout := circuitBreakerTimeout;
      this.healthCheckInterval := healthCheckInterval;
      currentIndex := 0;
      lruOrder := [];
    }

    /** `add_key`, for a key whose id is not in the pool yet. */
    method AddKey(key: KeyPair)
      requires Valid() && key.Valid()
      requires key.id !in Ids(Model().keys)
      modifies this
      ensures Valid() && keys == old(keys) + [key]
      ensures Model() == Added(old(Model()), key.State())
    {
      ghost var before := Model();
      keys := keys + [key];
      lruOrder := lruOrder + [key.id];
      assert StatesOf(keys) == before.keys + [key.State()];
      AddedPreservesPoolInv(before, key.State());
    }

    /** `remove_key`. */
    method RemoveKey(id: string)
      requires Valid()
      modifies this
      ensures Valid() && keys == WithoutId(old(keys), id)
      ensures Model() == Removed(old(Model()), id)
    {
      ghost var before := Model();
      ghost var after := Removed(before, id);
      WithoutIdStates(keys, id);
      keys := WithoutId(keys, id);
      assert StatesOf(keys) == after.keys;
      if id in lruOrder {
        lruOrder := RemoveFirst(lruOrder, id);
      }
      assert Model() == after;
      RemovedPreservesPoolInv(before, id);
    }

    /** `get_available_keys`: asks every key in turn (healing it) and keeps the available ones, in order. */
    method GetAvailableKeys(now: Time) returns (available: seq<KeyPair>)
      requires Valid()
      modifies keys
      ensures Valid() && keys == old(keys)
      ensures Model() == old(Model()).(keys := HealAll(old(Model()).keys, now))
      ensures available == Pick(keys, AvailableIndices(Model().keys))
    {
      DistinctObjects();
      ghost var healed := HealAll(Model().keys, now);
      ghost var before := Model();
      available := [];
      var i := 0;
      while i < |keys|
        invariant 0 <= i <= |keys|
        invariant forall a, b :: 0 <= a < |keys| && 0 <= b < |keys| && a != b ==> keys[a] != keys[b]
        invariant forall j :: 0 <= j < i ==> keys[j].State() == healed[j]
        invariant forall j :: i <= j < |keys| ==> keys[j].State() == before.keys[j]
        invariant available == Pick(keys, AvailableIndices(healed[..i]))
      {
        available := CollectIfAvailable(i, healed, before, available, now);
        i := i + 1;
      }
      assert healed[..i] == healed;
      assert StatesOf(keys) == healed;
      assert Model().keys == healed;
      HealPreservesPoolInv(old(Model()), now);
    }

    /** One pass of the `get_available_keys` comprehension: ask key `i`, keep it when available. */
    method CollectIfAvailable(i: nat, ghost healed: seq<KeyRecord>, ghost before: PoolState, available: seq<KeyPair>, now: Time)
      returns (available': seq<KeyPair>)
      requires i < |keys| == |healed| && healed[i] == Heal(keys[i].State(), now)
      requires available == Pick(keys, AvailableIndices(healed[..i]))
      requires PoolInv(before) && i < |before.keys| && keys[i].State() == before.keys[i]
      modifies keys[i]
      ensures keys[i].State() == healed[i]
      ensures available' == Pick(keys, AvailableIndices(healed[..i + 1]))
    {
      var ok := keys[i].IsAvailable(now);
      AvailableIndicesStep(healed, i);
      available' := available;
      if ok {
        PickSnoc(keys, AvailableIndices(healed[..i]), i);
        available' := available + [keys[i]];
      }
    }

    /**
     * `get_key_by_strategy`: the key the configured strategy picks among the
     * available ones, or nothing when no key is available.
     */
    method GetKeyByStrategy(now: Time, d: Draw) returns (key: Option<KeyPair>)
      requires Valid()
      modifies this, keys
      ensures Valid() && keys == old(keys)
      ensures var r := Select(old(Model()), Cfg(), now, d);
        && Model() == r.pool
        && (r.chosen.Some? ==> r.chosen.value < |keys|)
        && key == if r.chosen.Some? then Some(keys[r.chosen.value]) else None
    {
      ghost var before := Model();
      var available := GetAvailableKeys(now);
      ghost var healed := Model();
      ghost var idx := AvailableIndices(healed.keys);
      SelectSteps(before, Cfg(), now, d);
      assert |available| == |idx|;
      if |available| == 0 {
        return None;
      }
      var k := SelectByStrategy(available, idx, now, d);
      ChosenKey(keys, Select(before, Cfg(), now, d), Dispatch(healed, idx, Cfg(), now, d), k);
      key := Some(k);
    }

    /** The dispatch of `get_key_by_strategy` on the configured strategy, over non-empty candidates. */
    method SelectByStrategy(available: seq<KeyPair>, ghost idx: seq<nat>, now: Time, d: Draw) returns (key: KeyPair)
      requires Candidates(Model().keys, idx) && available == Pick(keys, idx)
      modifies this
      ensures keys == old(keys)
      ensures var r := Dispatch(old(Model()), idx, Cfg(), now, d);
        Model() == r.pool && key == keys[r.chosen.value]
    {
      if rotationStrategy == RoundRobin {
        key := SelectRoundRobin(available, idx);
      } else if rotationStrategy == LeastRecentlyUsed {
        key := SelectLru(available, idx);
      } else if rotationStrategy == Weighted {
        key := SelectWeighted(available, idx, d);
      } else if rotationStrategy == Adaptive {
        key := SelectAdaptive(available, idx, now, d);
      } else {
        key := SelectRandom(available, idx, d);
      }
    }

    /** `_select_round_robin`. */
    method SelectRoundRobin(available: seq<KeyPair>, ghost idx: seq<nat>) returns (key: KeyPair)
      requires Candidates(Model().keys, idx) && available == Pick(keys, idx)
      modifies this
      ensures keys == old(keys)
      ensures var r := ByRoundRobin(old(Model()), idx);
        Model() == r.pool && key == keys[r.chosen.value]
    {
      key := available[currentIndex % |available|];
      currentIndex := (currentIndex + 1) % |available|;
    }

    /** `_select_lru`: the first available key with the oldest `last_used`, moved to the end of the LRU order. */
    method SelectLru(available: seq<KeyPair>, ghost idx: seq<nat>) returns (key: KeyPair)
      requires Candidates(Model().keys, idx) && available == Pick(keys, idx)
      modifies this
      ensures keys == old(keys)
      ensures var r := ByLeastRecent(old(Model()), idx);
        Model() == r.pool && key == keys[r.chosen.value]
    {
      var lastUsed := seq(|available|, j requires 0 <= j < |available| reads available => available[j].metrics.lastUsed);
      assert lastUsed == LastUsedOf(Model().keys, idx);
      key := available[LeastRecent(lastUsed)];
      if key.id in lruOrder {
        lruOrder := RemoveFirst(lruOrder, key.id);
      }
      lruOrder := lruOrder + [key.id];
    }

    /** `_select_weighted`: a draw proportional to the effective weights, uniform when they sum to zero. */
    method SelectWeighted(available: seq<KeyPair>, ghost idx: seq<nat>, d: Draw) returns (key: KeyPair)
      requires Candidates(Model().keys, idx) && available == Pick(keys, idx)
      ensures var r := ByWeight(Model(), idx, d);
        r.pool == Model() && key == keys[r.chosen.value]
    {
      var weights := seq(|available|, j requires 0 <= j < |available| reads available => available[j].GetWeight());
      ghost var w := WeightsOf(Model().keys, idx);
      assert weights == w by {
        forall j | 0 <= j < |available| ensures weights[j] == w[j] {
          assert available[j].State() == Model().keys[idx[j]];
        }
      }
      var j := WeightedDraw(weights, d);
      key := available[j];
    }

    /** `_select_adaptive`: weighted while any key of the pool was rate limited in the last thirty minutes, LRU otherwise. */
    method SelectAdaptive(available: seq<KeyPair>, ghost idx: seq<nat>, now: Time, d: Draw) returns (key: KeyPair)
      requires Candidates(Model().keys, idx) && available == Pick(keys, idx)
      modifies this
      ensures keys == old(keys)
      ensures var r := Dispatch(old(Model()), idx, Config(Adaptive, 0, 0), now, d);
        Model() == r.pool && key == keys[r.chosen.value]
    {
      var rateLimitedRecently := (exists i :: 0 <= i < |keys| && keys[i].metrics.lastRateLimit.Some? &&
                                                now - keys[i].metrics.lastRateLimit.value < RECENT_RATE_LIMIT);
      assert rateLimitedRecently == RateLimitedRecently(Model().keys, now);
      if rateLimitedRecently {
        key := SelectWeighted(available, idx, d);
      } else {
        key := SelectLru(available, idx);
      }
    }

    /** `_select_random`. */
    method SelectRandom(available: seq<KeyPair>, ghost idx: seq<nat>, d: Draw) returns (key: KeyPair)
      requires Candidates(Model().keys, idx) && available == Pick(keys, idx)
      ensures key == keys[idx[d.pick % |idx|]]
    {
      key := available[d.pick % |available|];
    }

    /** `record_key_event`: the first key with the id takes the event; an unknown id changes nothing. */
    method RecordKeyEvent(id: string, ev: Event, now: Time)
      requires Valid()
      modifies keys
      ensures Valid() && keys == old(keys)
      ensures Model() == ApplyEvent(old(Model()), Cfg(), id, ev, now)
    {
      DistinctObjects();
      ghost var before := Model();
      var i := 0;
      while i < |keys| && keys[i].id != id
        invariant 0 <= i <= |keys|
        invariant forall j :: 0 <= j < i ==> keys[j].id != id
      {
        i := i + 1;
      }
      if i == |keys| {
        assert id !in Ids(before.keys);
        return;
      }
      FindKeyDistinct(before.keys, id, i);
      var key := keys[i];
      if ev.SuccessEvent? {
        key.RecordSuccess(now);
      } else if ev.RateLimitEvent? {
        key.RecordRateLimit(ev.resetTime, now);
      } else if ev.ErrorEvent? {
        key.RecordError(now);
        if key.metrics.consecutiveFailures >= circuitBreakerThreshold {
          key.TriggerCircuitBreaker(circuitBreakerTimeout, now);
        }
      }
      assert StatesOf(keys) == before.keys[i := KeyAfterEvent(before.keys[i], Cfg(), ev, now)];
      ApplyEventPreservesPoolInv(before, Cfg(), id, ev, now);
    }

    /** `get_pool_status`. */
    method GetPoolStatus(now: Time) returns (status: PoolStatus)
      requires Valid()
      modifies keys
      ensures Valid() && keys == old(keys)
      ensures (status, Model()) == Status(old(Model()), Cfg(), now)
    {
      var available := GetAvailableKeys(now);
      var entries := StatusEntries();
      status := PoolStatus(|keys|, |available|, rotationStrategy, entries);
    }

    /** The per-key part of `get_pool_status`: one entry per key, in pool order. */
    method StatusEntries() returns (entries: seq<KeyStatus>)
      requires Valid()
      ensures entries == StatusList(Model().keys)
    {
      entries := [];
      var i := 0;
      while i < |keys|
        invariant 0 <= i <= |keys|
        invariant |entries| == i && forall j :: 0 <= j < i ==> entries[j] == StatusOf(Model().keys[j])
      {
        var key := keys[i];
        assert key.State() == Model().keys[i];
        assert key.Valid() by { assert Inv(Model().keys[i]); }
        entries := entries + [KeyStatus(key.id, key.health, key.GetSuccessRate(), key.metrics.totalRequests,
                                        key.metrics.consecutiveFailures, key.metrics.lastUsed, key.GetWeight())];
        i := i + 1;
      }
    }

    /** `_perform_health_checks`: every key on probation whose last error is over five minutes old becomes healthy. */
    method PerformHealthChecks(now: Time)
      requires Valid()
      modifies keys
      ensures Valid() && keys == old(keys)
      ensures Model() == old(Model()).(keys := HealthCheck(old(Model()).keys, now))
    {
      DistinctObjects();
      ghost var checked := HealthCheck(Model().keys, now);
      var i := 0;
      while i < |keys|
        invariant 0 <= i <= |keys|
        invariant forall a, b :: 0 <= a < |keys| && 0 <= b < |keys| && a != b ==> keys[a] != keys[b]
        invariant forall j :: 0 <= j < i ==> keys[j].State() == checked[j]
        invariant forall j :: i <= j < |keys| ==> keys[j].State() == old(keys[j].State())
      {
        var key := keys[i];
        if key.health == Testing {
          if key.metrics.lastError.None? || now - key.metrics.lastError.value > PROBATION_QUIET {
            key.health := Healthy;
          }
        }
        i := i + 1;
      }
      assert StatesOf(keys) == checked;
      HealthCheckPreservesPoolInv(old(Model()), now);
    }
  }
}
