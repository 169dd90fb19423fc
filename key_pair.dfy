/**
 * `KeyPair` from src/key_rotation.py: one API key pair whose health, timers
 * and statistics are updated in place. `State()` is the snapshot the pool
 * reasons about; every method is proved to move it exactly as the matching
 * function of `KeyState` does.
 */
module KeyPairs {
  import opened Base
  import opened KeyState

  const DEFAULT_SITE: string := "us3.datadoghq.com"

  class KeyPair {
    const id: string
    const apiKey: string
    const appKey: string
    const site: string
    const weight: real

    var health: Health
    var metrics: Metrics
    var rateLimitResetTime: Option<Time>
    var circuitBreakerResetTime: Option<Time>

    function State(): (k: KeyRecord)
      reads this
    {
      KeyRecord(id, health, metrics, rateLimitResetTime, circuitBreakerResetTime, weight)
    }

    ghost predicate Valid()
      reads this
    {
      Inv(State())
    }

    /** A new key starts on probation with empty statistics. */
    constructor (id: string, apiKey: string, appKey: string, site: string := DEFAULT_SITE, weight: real := 1.0)
      ensures State() == NewKey(id, weight) && Valid()
      ensures this.apiKey == apiKey && this.appKey == appKey && this.site == site
    {
      this.id := id;
      this.apiKey := apiKey;
      this.appKey := appKey;
      this.site := site;
      this.weight := weight;
      health := Testing;
      metrics := NoMetrics;
      rateLimitResetTime := None;
      circuitBreakerResetTime := None;
    }

    /** `is_available`: heals expired timers, then reports eligibility. */
    method IsAvailable(now: Time) returns (available: bool)
      requires Valid()
      modifies this
      ensures Valid()
      ensures State() == Heal(old(State()), now)
      ensures available == KeyState.IsAvailable(old(State()), now)
    {
      if health == Disabled {
        return false;
      }
      if health == RateLimited {
        if rateLimitResetTime.Some? && now > rateLimitResetTime.value {
          health := Healthy;
          rateLimitResetTime := None;
        }
      }
      if health == Error {
        if circuitBreakerResetTime.Some? && now > circuitBreakerResetTime.value {
          health := Testing;
          circuitBreakerResetTime := None;
        }
      }
      available := health == Healthy || health == Testing;
    }

    method RecordSuccess(now: Time)
      requires Valid()
      modifies this
      ensures Valid()
      ensures State() == KeyState.RecordSuccess(old(State()), now)
    {
      metrics := metrics.(totalRequests := metrics.totalRequests + 1,
                          successfulRequests := metrics.successfulRequests + 1,
                          lastUsed := Some(now),
                          consecutiveFailures := 0);
      if health == Testing {
        health := Healthy;
      }
    }

    method RecordRateLimit(resetTime: Option<Time>, now: Time)
      requires Valid()
      modifies this
      ensures Valid()
      ensures State() == KeyState.RecordRateLimit(old(State()), resetTime, now)
    {
      metrics := metrics.(totalRequests := metrics.totalRequests + 1,
                          rateLimitedRequests := metrics.rateLimitedRequests + 1,
                          lastRateLimit := Some(now));
      health := RateLimited;
      rateLimitResetTime := Some(if resetTime.Some? then resetTime.value else now + HOUR);
    }

    method RecordError(now: Time)
      requires Valid()
      modifies this
      ensures Valid()
      ensures State() == KeyState.RecordError(old(State()), now)
    {
      metrics := metrics.(totalRequests := metrics.totalRequests + 1,
                          errorRequests := metrics.errorRequests + 1,
                          lastError := Some(now),
                          consecutiveFailures := metrics.consecutiveFailures + 1);
    }

    method TriggerCircuitBreaker(timeoutMinutes: int, now: Time)
      requires Valid()
      modifies this
      ensures Valid()
      ensures State() == KeyState.TripCircuitBreaker(old(State()), timeoutMinutes, now)
    {
      health := Error;
      circuitBreakerResetTime := Some(now + timeoutMinutes * MINUTE);
    }

    function GetSuccessRate(): (rate: real)
      reads this
      requires Valid()
      ensures 0.0 <= rate <= 1.0
      ensures metrics.totalRequests == 0 ==> rate == 0.0
    {
      SuccessRateBounds(State());
      SuccessRate(metrics)
    }

    function GetWeight(): (w: real)
      reads this
      ensures weight >= 0.0 ==> weight * 0.1 <= w <= weight * 1.2
    {
      WeightBounds(State());
      EffectiveWeight(State())
    }
  }
}
