/**
 * The value-level view of one API key pair: its health state machine and its
 * usage statistics (`KeyHealth`, `KeyUsageMetrics` and the mutable part of
 * `KeyPair` in src/key_rotation.py). Every operation on a key is a function
 * from the old record to the new one; the class `KeyPairs.KeyPair` performs
 * the same updates in place and is proved to agree with these functions.
 */
module KeyState {
  import opened Base

  datatype Health = Healthy | RateLimited | Error | Disabled | Testing

  /** The states from which a key may be handed out. */
  predicate Usable(h: Health) {
    h == Healthy || h == Testing
  }

  /**
   * Usage statistics of one key. `average_response_time` is not part of the
   * model (a floating-point moving average over wall-clock latencies).
   */
  datatype Metrics = Metrics(
    totalRequests: nat,
    successfulRequests: nat,
    rateLimitedRequests: nat,
    errorRequests: nat,
    lastUsed: Option<Time>,
    lastRateLimit: Option<Time>,
    lastError: Option<Time>,
    consecutiveFailures: nat)

  const NoMetrics: Metrics := Metrics(0, 0, 0, 0, None, None, None, 0)

  /** Everything about a key that the pool reads or writes. */
  datatype KeyRecord = KeyRecord(
    id: string,
    health: Health,
    metrics: Metrics,
    rateLimitResetTime: Option<Time>,
    circuitBreakerResetTime: Option<Time>,
    weight: real)

  /** A freshly constructed key: on probation, with no history. */
  function NewKey(id: string, weight: real): (k: KeyRecord)
    ensures k.health == Testing && Usable(k.health)
    ensures k.metrics.totalRequests == 0 && k.rateLimitResetTime.None? && k.circuitBreakerResetTime.None?
    ensures Inv(k)
  {
    KeyRecord(id, Testing, NoMetrics, None, None, weight)
  }

  /** A timer that is set and that `now` has strictly passed. */
  predicate Expired(reset: Option<Time>, now: Time) {
    reset.Some? && now > reset.value
  }

  /**
   * The side effect of `is_available`: an expired rate limit heals to
   * Healthy, an expired circuit breaker half-opens to Testing, and the timer
   * that expired is cleared.
   */
  function Heal(k: KeyRecord, now: Time): (healed: KeyRecord) {
    if k.health == RateLimited && Expired(k.rateLimitResetTime, now) then
      k.(health := Healthy, rateLimitResetTime := None)
    else if k.health == Error && Expired(k.circuitBreakerResetTime, now) then
      k.(health := Testing, circuitBreakerResetTime := None)
    else
      k
  }

  /** The answer `is_available` gives at `now`. */
  predicate IsAvailable(k: KeyRecord, now: Time) {
    Usable(Heal(k, now).health)
  }

  function RecordSuccess(k: KeyRecord, now: Time): (k': KeyRecord) {
    var m := k.metrics;
    k.(metrics := m.(totalRequests := m.totalRequests + 1,
                     successfulRequests := m.successfulRequests + 1,
                     lastUsed := Some(now),
                     consecutiveFailures := 0),
       health := if k.health == Testing then Healthy else k.health)
  }

  /** The reset instant `record_rate_limit` stores: the one given, else an hour on. */
  function RateLimitResetAt(reset: Option<Time>, now: Time): (at: Time) {
    if reset.Some? then reset.value else now + HOUR
  }

  function RecordRateLimit(k: KeyRecord, reset: Option<Time>, now: Time): (k': KeyRecord) {
    var m := k.metrics;
    k.(metrics := m.(totalRequests := m.totalRequests + 1,
                     rateLimitedRequests := m.rateLimitedRequests + 1,
                     lastRateLimit := Some(now)),
       health := RateLimited,
       rateLimitResetTime := Some(RateLimitResetAt(reset, now)))
  }

  function RecordError(k: KeyRecord, now: Time): (k': KeyRecord) {
    var m := k.metrics;
    k.(metrics := m.(totalRequests := m.totalRequests + 1,
                     errorRequests := m.errorRequests + 1,
                     lastError := Some(now),
                     consecutiveFailures := m.consecutiveFailures + 1))
  }

  function TripCircuitBreaker(k: KeyRecord, timeoutMinutes: int, now: Time): (k': KeyRecord) {
    k.(health := Error, circuitBreakerResetTime := Some(now + timeoutMinutes * MINUTE))
  }

  /** `get_success_rate`: successes over attempts, 0 before the first attempt. */
  function SuccessRate(m: Metrics): (rate: real) {
    if m.totalRequests == 0 then 0.0
    else m.successfulRequests as real / m.totalRequests as real
  }

  /** `get_weight`: the base weight scaled by recent performance. */
  function EffectiveWeight(k: KeyRecord): (w: real) {
    var failures := k.metrics.consecutiveFailures;
    if failures > 3 then k.weight * 0.1
    else if failures > 0 then k.weight * 0.5
    else if SuccessRate(k.metrics) > 0.95 then k.weight * 1.2
    else k.weight
  }

  /**
   * What every reachable key satisfies: each attempt is counted under exactly
   * one outcome, the failure streak is made of counted errors, and a key that
   * is rate limited or circuit-broken always has the timer that ends it.
   */
  ghost predicate Inv(k: KeyRecord) {
    var m := k.metrics;
    && m.totalRequests == m.successfulRequests + m.rateLimitedRequests + m.errorRequests
    && m.consecutiveFailures <= m.errorRequests
    && (k.health == RateLimited ==> k.rateLimitResetTime.Some?)
    && (k.health == Error ==> k.circuitBreakerResetTime.Some?)
  }

  // ---------------------------------------------------------------------
  // Properties of the state machine
  // ---------------------------------------------------------------------

  /** Eligibility, case by case: the two resting states, and the two timed states once their timer expired. */
  lemma AvailabilityCases(k: KeyRecord, now: Time)
    ensures IsAvailable(k, now) <==>
      || Usable(k.health)
      || (k.health == RateLimited && Expired(k.rateLimitResetTime, now))
      || (k.health == Error && Expired(k.circuitBreakerResetTime, now))
    ensures k.health == Disabled ==> !IsAvailable(k, now)
    ensures k.health == RateLimited && Expired(k.rateLimitResetTime, now) ==>
      Heal(k, now).health == Healthy && Heal(k, now).rateLimitResetTime.None?
    ensures k.health == Error && Expired(k.circuitBreakerResetTime, now) ==>
      Heal(k, now).health == Testing && Heal(k, now).circuitBreakerResetTime.None?
  {
  }

  /** Checking availability again at the same instant changes nothing further. */
  lemma HealIdempotent(k: KeyRecord, now: Time)
    ensures Heal(Heal(k, now), now) == Heal(k, now)
    ensures Heal(k, now).metrics == k.metrics && Heal(k, now).id == k.id && Heal(k, now).weight == k.weight
  {
  }

  /** Every recorded outcome and every state change keeps `Inv`. */
  lemma OperationsPreserveInv(k: KeyRecord, now: Time, reset: Option<Time>, timeoutMinutes: int)
    requires Inv(k)
    ensures Inv(Heal(k, now))
    ensures Inv(RecordSuccess(k, now))
    ensures Inv(RecordRateLimit(k, reset, now))
    ensures Inv(RecordError(k, now))
    ensures Inv(TripCircuitBreaker(k, timeoutMinutes, now))
  {
  }

  /**
   * A rate-limit event counts one more request, under rate limits, and stamps
   * the instant; the key is then unavailable exactly until the clock passes
   * the stored reset instant.
   */
  lemma RateLimitedUntilReset(k: KeyRecord, reset: Option<Time>, t0: Time, now: Time)
    ensures var m, m' := k.metrics, RecordRateLimit(k, reset, t0).metrics;
      && m'.totalRequests == m.totalRequests + 1
      && m'.rateLimitedRequests == m.rateLimitedRequests + 1
      && m'.successfulRequests == m.successfulRequests && m'.errorRequests == m.errorRequests
      && m'.consecutiveFailures == m.consecutiveFailures
      && m'.lastRateLimit == Some(t0)
    ensures RecordRateLimit(k, reset, t0).health == RateLimited
    ensures IsAvailable(RecordRateLimit(k, reset, t0), now) <==> now > RateLimitResetAt(reset, t0)
  {
  }

  /** A success resets the failure streak and ends probation; nothing else changes state. */
  lemma SuccessEffect(k: KeyRecord, now: Time)
    ensures RecordSuccess(k, now).metrics.consecutiveFailures == 0
    ensures RecordSuccess(k, now).metrics.successfulRequests == k.metrics.successfulRequests + 1
    ensures RecordSuccess(k, now).metrics.totalRequests == k.metrics.totalRequests + 1
    ensures RecordSuccess(k, now).health == (if k.health == Testing then Healthy else k.health)
  {
  }

  /**
   * A key that is not disabled and satisfies `Inv` becomes available once the
   * clock is past both of its timers: no state is a trap.
   */
  lemma EventuallyAvailable(k: KeyRecord, now: Time)
    requires Inv(k) && k.health != Disabled
    requires k.health == RateLimited ==> now > k.rateLimitResetTime.value
    requires k.health == Error ==> now > k.circuitBreakerResetTime.value
    ensures IsAvailable(k, now)
  {
  }

  /** The success rate is a fraction between 0 and 1. */
  lemma SuccessRateBounds(k: KeyRecord)
    requires Inv(k)
    ensures 0.0 <= SuccessRate(k.metrics) <= 1.0
  {
    var m := k.metrics;
    if m.totalRequests > 0 {
      var s, t := m.successfulRequests as real, m.totalRequests as real;
      DivMonotone(0.0, 1.0, s, t);
      DivMonotone(s, t, 1.0, 1.0);
    }
  }

  /** Two successes then one error, from a fresh key: rate 2/3, streak 1. */
  lemma TwoSuccessesOneError(id: string, w: real, t1: Time, t2: Time, t3: Time)
    ensures var k := RecordError(RecordSuccess(RecordSuccess(NewKey(id, w), t1), t2), t3);
      SuccessRate(k.metrics) == 2.0 / 3.0 && k.metrics.consecutiveFailures == 1
  {
  }

  /** One more success never lowers the success rate. */
  lemma {:induction false} SuccessRaisesRate(m: Metrics)
    requires m.successfulRequests <= m.totalRequests
    ensures SuccessRate(m) <= SuccessRate(m.(totalRequests := m.totalRequests + 1,
                                              successfulRequests := m.successfulRequests + 1))
  {
    if m.totalRequests > 0 {
      var s, t := m.successfulRequests as real, m.totalRequests as real;
      assert s * (t + 1.0) <= (s + 1.0) * t;
      DivMonotone(s, t, s + 1.0, t + 1.0);
    }
  }

  /** a/b <= c/d for positive denominators when a*d <= c*b. */
  lemma DivMonotone(a: real, b: real, c: real, d: real)
    requires b > 0.0 && d > 0.0 && a * d <= c * b
    ensures a / b <= c / d
  {
    calc {
      a / b;
    ==  (a * d) / (b * d);
    <=  { assert b * d > 0.0; }
        (c * b) / (b * d);
    ==  c / d;
    }
  }

  /** The effective weight stays within a tenth and six fifths of a non-negative base weight. */
  lemma WeightBounds(k: KeyRecord)
    ensures k.weight >= 0.0 ==> k.weight * 0.1 <= EffectiveWeight(k) <= k.weight * 1.2
    ensures k.weight >= 0.0 && k.metrics.consecutiveFailures > 0 ==> EffectiveWeight(k) <= k.weight * 0.5
  {
  }

  /** An error never raises a key's effective weight. */
  lemma ErrorNeverRaisesWeight(k: KeyRecord, now: Time)
    requires k.weight >= 0.0
    ensures EffectiveWeight(RecordError(k, now)) <= EffectiveWeight(k)
  {
  }

  /** A success never lowers a key's effective weight. */
  lemma SuccessNeverLowersWeight(k: KeyRecord, now: Time)
    requires k.weight >= 0.0 && Inv(k)
    ensures EffectiveWeight(k) <= EffectiveWeight(RecordSuccess(k, now))
  {
    SuccessRaisesRate(k.metrics);
  }
}
