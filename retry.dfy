/**
 * The wrapper built by `create_retry_decorator` (src/key_rotation.py): up to
 * `max_retries` attempts, each with the key the pool's strategy selects; a
 * success is recorded and returned, a rate limit is recorded and the next
 * attempt follows at once, any other error is recorded, ends the run on an
 * authentication failure or on the last attempt, and otherwise is followed by
 * an exponential back-off sleep.
 *
 * The wrapped function is the parameter `op`, from the key id and the attempt
 * number to a value or a raised message. `clock(a)` is the instant attempt `a`
 * runs at, `draws(a)` the random numbers its selection uses. The pure
 * `RetryFrom` is the specification; the method `RetryWithRotation` runs the
 * loop on a `KeyPoolManager` and is proved to agree with it.
 */
module Retry {
  import opened Base
  import opened KeyState
  import opened Selection
  import opened PoolModel
  import opened RateLimit
  import opened Pool

  /** What one call of the wrapped function does. */
  datatype Outcome<R> = Ok(value: R) | Raise(message: string)

  /**
   * How the wrapper ends: it returns the function's value, returns `None`
   * (only when `max_retries` allows no attempt), re-raises an exception, or
   * raises `RuntimeError("No available API keys")`.
   */
  datatype Verdict<R> = Returned(value: R) | ReturnedNothing | Raised(message: string) | NoKeys

  /** A finished run: the verdict, the pool afterwards, the key ids called in order and the back-off sleeps in seconds. */
  datatype Run<R> = Run(verdict: Verdict<R>, pool: PoolState, calls: seq<string>, sleeps: seq<nat>)

  /** The outcome of one attempt: the run ends, or the loop goes on with the last exception's message. */
  datatype Step<R> = Stop(run: Run<R>) | Next(pool: PoolState, last: string, calls: seq<string>, sleeps: seq<nat>)

  function Pow2(n: nat): (r: nat)
    ensures r >= 1
  {
    if n == 0 then 1 else 2 * Pow2(n - 1)
  }

  /** A message that ends the run at once: an authentication failure that is not a rate limit. */
  predicate StopsRetrying(message: string) {
    !DetectRateLimitError(message, 0).0 && IsAuthFailure(message)
  }

  /** A message that sends the loop to the next key without a pause. */
  predicate IsRateLimit(message: string) {
    DetectRateLimitError(message, 0).0
  }

  /** One pass of the loop body, at attempt `attempt` of `maxRetries`. */
  function AttemptStep<R>(p: PoolState, cfg: Config, op: (string, nat) -> Outcome<R>, maxRetries: int,
                          now: Time, d: Draw, attempt: nat, last: Option<string>,
                          calls: seq<string>, sleeps: seq<nat>): (step: Step<R>)
  {
    var s := Select(p, cfg, now, d);
    SelectReturnsAvailableKey(p, cfg, now, d);
    if s.chosen.None? then
      Stop(Run(if last.Some? then Raised(last.value) else NoKeys, s.pool, calls, sleeps))
    else
      var id := s.pool.keys[s.chosen.value].id;
      match op(id, attempt)
      case Ok(v) => Stop(Run(Returned(v), ApplyEvent(s.pool, cfg, id, SuccessEvent, now), calls + [id], sleeps))
      case Raise(msg) =>
        var (rateLimited, reset) := DetectRateLimitError(msg, now);
        if rateLimited then
          Next(ApplyEvent(s.pool, cfg, id, RateLimitEvent(reset), now), msg, calls + [id], sleeps)
        else
          var after := ApplyEvent(s.pool, cfg, id, ErrorEvent, now);
          if IsAuthFailure(msg) || attempt == maxRetries - 1 then Stop(Run(Raised(msg), after, calls + [id], sleeps))
          else Next(after, msg, calls + [id], sleeps + [Pow2(attempt)])
  }

  /** The loop from attempt `attempt` on, and what follows it. */
  function RetryFrom<R>(p: PoolState, cfg: Config, op: (string, nat) -> Outcome<R>, maxRetries: int,
                        clock: nat -> Time, draws: nat -> Draw, attempt: nat, last: Option<string>,
                        calls: seq<string>, sleeps: seq<nat>): (outcome: Run<R>)
    decreases maxRetries - attempt
  {
    if attempt >= maxRetries then
      Run(if last.Some? then Raised(last.value) else ReturnedNothing, p, calls, sleeps)
    else
      match AttemptStep(p, cfg, op, maxRetries, clock(attempt), draws(attempt), attempt, last, calls, sleeps)
      case Stop(r) => r
      case Next(p', msg, calls', sleeps') =>
        RetryFrom(p', cfg, op, maxRetries, clock, draws, attempt + 1, Some(msg), calls', sleeps')
  }

  /** One call of the wrapped function through the wrapper. */
  function Retry<R>(p: PoolState, cfg: Config, op: (string, nat) -> Outcome<R>, maxRetries: int,
                    clock: nat -> Time, draws: nat -> Draw): (outcome: Run<R>)
  {
    RetryFrom(p, cfg, op, maxRetries, clock, draws, 0, None, [], [])
  }

  /** Unfolds the loop once at a pass that ends the call. */
  lemma RetryStopsAt<R>(p: PoolState, cfg: Config, op: (string, nat) -> Outcome<R>, maxRetries: int,
                        clock: nat -> Time, draws: nat -> Draw, attempt: nat, last: Option<string>,
                        calls: seq<string>, sleeps: seq<nat>, r: Run<R>)
    requires attempt < maxRetries
    requires AttemptStep(p, cfg, op, maxRetries, clock(attempt), draws(attempt), attempt, last, calls, sleeps) == Stop(r)
    ensures RetryFrom(p, cfg, op, maxRetries, clock, draws, attempt, last, calls, sleeps) == r
  {
  }

  /** Unfolds the loop once at a pass that goes on to the next attempt. */
  lemma RetryContinuesAt<R>(p: PoolState, cfg: Config, op: (string, nat) -> Outcome<R>, maxRetries: int,
                            clock: nat -> Time, draws: nat -> Draw, attempt: nat, last: Option<string>,
                            calls: seq<string>, sleeps: seq<nat>,
                            p': PoolState, msg: string, calls': seq<string>, sleeps': seq<nat>)
    requires attempt < maxRetries
    requires AttemptStep(p, cfg, op, maxRetries, clock(attempt), draws(attempt), attempt, last, calls, sleeps)
          == Next(p', msg, calls', sleeps')
    ensures RetryFrom(p, cfg, op, maxRetries, clock, draws, attempt, last, calls, sleeps)
         == RetryFrom(p', cfg, op, maxRetries, clock, draws, attempt + 1, Some(msg), calls', sleeps')
  {
  }

  /** The wrapper's loop over a live pool. */
  method RetryWithRotation<R>(pool: KeyPoolManager, op: (string, nat) -> Outcome<R>, maxRetries: int,
                              clock: nat -> Time, draws: nat -> Draw)
    returns (verdict: Verdict<R>, calls: seq<string>, sleeps: seq<nat>)
    requires pool.Valid()
    modifies pool, pool.keys
    ensures pool.Valid() && pool.keys == old(pool.keys)
    ensures Run(verdict, pool.Model(), calls, sleeps) == Retry(old(pool.Model()), pool.Cfg(), op, maxRetries, clock, draws)
  {
    ghost var spec := Retry(pool.Model(), pool.Cfg(), op, maxRetries, clock, draws);
    var last: Option<string> := None;
    calls, sleeps := [], [];
    var attempt: nat := 0;
    while attempt < maxRetries
      invariant pool.Valid() && pool.keys == old(pool.keys)
      invariant RetryFrom(pool.Model(), pool.Cfg(), op, maxRetries, clock, draws, attempt, last, calls, sleeps) == spec
      decreases maxRetries - attempt
    {
      var done, message;
      done, verdict, message, calls, sleeps := Attempt(pool, op, maxRetries, clock(attempt), draws(attempt), attempt, last, calls, sleeps);
      if done {
        return;
      }
      last := Some(message);
      attempt := attempt + 1;
    }
    verdict := if last.Some? then Raised(last.value) else ReturnedNothing;
  }

  /** One pass of the loop body over a live pool: `done` when the wrapper returns or raises. */
  method Attempt<R>(pool: KeyPoolManager, op: (string, nat) -> Outcome<R>, maxRetries: int, now: Time, d: Draw,
                    attempt: nat, last: Option<string>, calls: seq<string>, sleeps: seq<nat>)
    returns (done: bool, verdict: Verdict<R>, message: string, calls': seq<string>, sleeps': seq<nat>)
    requires pool.Valid()
    modifies pool, pool.keys
    ensures pool.Valid() && pool.keys == old(pool.keys)
    ensures var step := AttemptStep(old(pool.Model()), pool.Cfg(), op, maxRetries, now, d, attempt, last, calls, sleeps);
      if done then step == Stop(Run(verdict, pool.Model(), calls', sleeps'))
      else step == Next(pool.Model(), message, calls', sleeps')
  {
    message, calls', sleeps' := "", calls, sleeps;
    var key := pool.GetKeyByStrategy(now, d);
    if key.None? {
      done, verdict := true, if last.Some? then Raised(last.value) else NoKeys;
      return;
    }
    var id := key.value.id;
    calls' := calls + [id];
    var outcome := op(id, attempt);
    if outcome.Ok? {
      pool.RecordKeyEvent(id, SuccessEvent, now);
      done, verdict := true, Returned(outcome.value);
      return;
    }
    message := outcome.message;
    var (rateLimited, reset) := DetectRateLimitError(message, now);
    if rateLimited {
      pool.RecordKeyEvent(id, RateLimitEvent(reset), now);
      done, verdict := false, NoKeys;
      return;
    }
    pool.RecordKeyEvent(id, ErrorEvent, now);
    if IsAuthFailure(message) || attempt == maxRetries - 1 {
      done, verdict := true, Raised(message);
      return;
    }
    sleeps' := sleeps + [Pow2(attempt)];
    done, verdict := false, NoKeys;
  }

  // ---------------------------------------------------------------------
  // Properties
  // ---------------------------------------------------------------------

  /** Doubling: `Pow2` grows strictly. */
  lemma {:induction false} Pow2Increasing(a: nat, b: nat)
    requires a < b
    ensures Pow2(a) < Pow2(b)
    decreases b
  {
    if a < b - 1 {
      Pow2Increasing(a, b - 1);
    }
  }

  /** Strictly increasing back-offs, the `i`-th of them at least `2^i` seconds. */
  ghost predicate Backoff(sleeps: seq<nat>) {
    && (forall i, k :: 0 <= i < k < |sleeps| ==> sleeps[i] < sleeps[k])
    && (forall i :: 0 <= i < |sleeps| ==> Pow2(i) <= sleeps[i])
  }

  /**
   * A loop state the wrapper can reach at attempt `attempt`: one call per
   * attempt so far, the carried message is the latest call's exception, and
   * the sleeps so far are increasing, each shorter than the next one due.
   */
  ghost predicate Consistent<R>(op: (string, nat) -> Outcome<R>, attempt: nat, last: Option<string>,
                                calls: seq<string>, sleeps: seq<nat>) {
    && |calls| == attempt
    && (last.None? <==> attempt == 0)
    && (last.Some? ==> op(calls[attempt - 1], attempt - 1) == Raise(last.value))
    && |sleeps| <= attempt
    && Backoff(sleeps)
    && (forall i :: 0 <= i < |sleeps| ==> sleeps[i] < Pow2(attempt))
  }

  /** An attempt that ends the run: before any call, or with the outcome of its one call. */
  ghost predicate StopShape<R>(op: (string, nat) -> Outcome<R>, attempt: nat, last: Option<string>,
                               calls: seq<string>, sleeps: seq<nat>, r: Run<R>) {
    && r.sleeps == sleeps
    && ((r.calls == calls && r.verdict == (if last.Some? then Raised(last.value) else NoKeys)) ||
        (|r.calls| == |calls| + 1 && r.calls[..|calls|] == calls &&
         ((op(r.calls[|calls|], attempt).Ok? && r.verdict == Returned(op(r.calls[|calls|], attempt).value)) ||
          (op(r.calls[|calls|], attempt).Raise? && r.verdict == Raised(op(r.calls[|calls|], attempt).message)))))
  }

  /**
   * An attempt after which the loop goes on: its one call raised, and it sleeps
   * `2^attempt` seconds unless the exception was a rate limit.
   */
  ghost predicate NextShape<R>(op: (string, nat) -> Outcome<R>, attempt: nat, calls: seq<string>, sleeps: seq<nat>,
                               msg: string, calls': seq<string>, sleeps': seq<nat>) {
    && |calls'| == |calls| + 1 && calls'[..|calls|] == calls && op(calls'[|calls|], attempt) == Raise(msg)
    && ((IsRateLimit(msg) && sleeps' == sleeps) ||
        (!IsRateLimit(msg) && !IsAuthFailure(msg) && sleeps' == sleeps + [Pow2(attempt)]))
  }

  /** One attempt calls at most one key: it stops before calling, or records the call's outcome. */
  lemma AttemptStepShape<R>(p: PoolState, cfg: Config, op: (string, nat) -> Outcome<R>, maxRetries: int,
                            now: Time, d: Draw, attempt: nat, last: Option<string>, calls: seq<string>, sleeps: seq<nat>)
    ensures var step := AttemptStep(p, cfg, op, maxRetries, now, d, attempt, last, calls, sleeps);
      step.Stop? ==> StopShape(op, attempt, last, calls, sleeps, step.run)
    ensures var step := AttemptStep(p, cfg, op, maxRetries, now, d, attempt, last, calls, sleeps);
      step.Next? ==> NextShape(op, attempt, calls, sleeps, step.last, step.calls, step.sleeps)
  {
    var step := AttemptStep(p, cfg, op, maxRetries, now, d, attempt, last, calls, sleeps);
    var s := Select(p, cfg, now, d);
    SelectReturnsAvailableKey(p, cfg, now, d);
    if s.chosen.Some? {
      var id := s.pool.keys[s.chosen.value].id;
      assert (calls + [id])[..|calls|] == calls;
    }
  }

  /**
   * The shape of a run from a consistent loop state: each attempt makes one
   * call, every call of the run but its last failed, a return hands back the
   * last call's value, a raise re-raises the last call's exception, an
   * authentication failure ends the run, "No available API keys" and the bare
   * return happen only before any call, and the back-offs stay exponential.
   */
  ghost predicate Shape<R>(op: (string, nat) -> Outcome<R>, maxRetries: int, attempt: nat, calls: seq<string>, r: Run<R>) {
    && calls <= r.calls
    && |r.calls| <= (if maxRetries > attempt then maxRetries else attempt)
    && (forall j :: attempt <= j < |r.calls| - 1 ==> op(r.calls[j], j).Raise?)
    && (r.verdict.Returned? ==> |r.calls| > attempt && op(r.calls[|r.calls| - 1], |r.calls| - 1) == Ok(r.verdict.value))
    && (r.verdict.Raised? ==> |r.calls| > 0 && op(r.calls[|r.calls| - 1], |r.calls| - 1) == Raise(r.verdict.message))
    && (r.verdict == NoKeys ==> r.calls == [])
    && (r.verdict == ReturnedNothing ==> r.calls == [] && maxRetries <= 0)
    && (forall j :: attempt <= j < |r.calls| - 1 ==> !StopsRetrying(op(r.calls[j], j).message))
    && |r.sleeps| <= |r.calls|
    && Backoff(r.sleeps)
  }

  lemma ShapeAtEnd<R>(op: (string, nat) -> Outcome<R>, maxRetries: int, attempt: nat, last: Option<string>,
                      calls: seq<string>, sleeps: seq<nat>, p: PoolState)
    requires Consistent(op, attempt, last, calls, sleeps) && attempt >= maxRetries
    ensures Shape(op, maxRetries, attempt, calls,
                  Run(if last.Some? then Raised(last.value) else ReturnedNothing, p, calls, sleeps))
  {
  }

  lemma ShapeAfterStop<R>(op: (string, nat) -> Outcome<R>, maxRetries: int, attempt: nat, last: Option<string>,
                          calls: seq<string>, sleeps: seq<nat>, r: Run<R>)
    requires Consistent(op, attempt, last, calls, sleeps) && attempt < maxRetries
    requires StopShape(op, attempt, last, calls, sleeps, r)
    ensures Shape(op, maxRetries, attempt, calls, r)
  {
  }

  /** The loop state after a failed call that does not end the run is again consistent. */
  lemma NextConsistent<R>(op: (string, nat) -> Outcome<R>, attempt: nat, last: Option<string>,
                          calls: seq<string>, sleeps: seq<nat>, msg: string, calls': seq<string>, sleeps': seq<nat>)
    requires Consistent(op, attempt, last, calls, sleeps)
    requires NextShape(op, attempt, calls, sleeps, msg, calls', sleeps')
    ensures Consistent(op, attempt + 1, Some(msg), calls', sleeps')
  {
    Pow2Increasing(attempt, attempt + 1);
    if sleeps' != sleeps {
      var n := |sleeps|;
      if n < attempt {
        Pow2Increasing(n, attempt);
      }
      assert Pow2(n) <= sleeps'[n];
    }
  }

  lemma ShapeAfterNext<R>(op: (string, nat) -> Outcome<R>, maxRetries: int, attempt: nat, last: Option<string>,
                          calls: seq<string>, sleeps: seq<nat>, msg: string, calls': seq<string>, sleeps': seq<nat>,
                          r: Run<R>)
    requires Consistent(op, attempt, last, calls, sleeps) && attempt < maxRetries
    requires NextShape(op, attempt, calls, sleeps, msg, calls', sleeps')
    requires Shape(op, maxRetries, attempt + 1, calls', r)
    ensures Shape(op, maxRetries, attempt, calls, r)
  {
    assert calls <= calls';
    PrefixTrans(calls, calls', r.calls);
    assert r.calls[attempt] == calls'[attempt];
  }

  lemma PrefixTrans<T>(a: seq<T>, b: seq<T>, c: seq<T>)
    requires a <= b && b <= c
    ensures a <= c
  {
    assert c[..|a|] == b[..|a|];
  }

  lemma {:induction false} RetryFromShape<R>(p: PoolState, cfg: Config, op: (string, nat) -> Outcome<R>, maxRetries: int,
                                             clock: nat -> Time, draws: nat -> Draw, attempt: nat, last: Option<string>,
                                             calls: seq<string>, sleeps: seq<nat>)
    requires Consistent(op, attempt, last, calls, sleeps)
    decreases if attempt < maxRetries then maxRetries - attempt else 0, 1
    ensures Shape(op, maxRetries, attempt, calls, RetryFrom(p, cfg, op, maxRetries, clock, draws, attempt, last, calls, sleeps))
  {
    if attempt >= maxRetries {
      ShapeAtEnd(op, maxRetries, attempt, last, calls, sleeps, p);
    } else {
      var step := AttemptStep(p, cfg, op, maxRetries, clock(attempt), draws(attempt), attempt, last, calls, sleeps);
      AttemptStepShape(p, cfg, op, maxRetries, clock(attempt), draws(attempt), attempt, last, calls, sleeps);
      if step.Stop? {
        ShapeAfterStop(op, maxRetries, attempt, last, calls, sleeps, step.run);
      } else {
        RetryAfterNextShape(step.pool, cfg, op, maxRetries, clock, draws, attempt, last, calls, sleeps, step.last, step.calls, step.sleeps);
      }
    }
  }

  lemma {:induction false} RetryAfterNextShape<R>(p': PoolState, cfg: Config, op: (string, nat) -> Outcome<R>, maxRetries: int,
                                        clock: nat -> Time, draws: nat -> Draw, attempt: nat, last: Option<string>,
                                        calls: seq<string>, sleeps: seq<nat>, msg: string, calls': seq<string>, sleeps': seq<nat>)
    requires Consistent(op, attempt, last, calls, sleeps) && attempt < maxRetries
    requires NextShape(op, attempt, calls, sleeps, msg, calls', sleeps')
    decreases maxRetries - attempt, 0
    ensures Shape(op, maxRetries, attempt, calls, RetryFrom(p', cfg, op, maxRetries, clock, draws, attempt + 1, Some(msg), calls', sleeps'))
  {
    NextConsistent(op, attempt, last, calls, sleeps, msg, calls', sleeps');
    RetryFromShape(p', cfg, op, maxRetries, clock, draws, attempt + 1, Some(msg), calls', sleeps');
    ShapeAfterNext(op, maxRetries, attempt, last, calls, sleeps, msg, calls', sleeps',
                   RetryFrom(p', cfg, op, maxRetries, clock, draws, attempt + 1, Some(msg), calls', sleeps'));
  }

  // ---------------------------------------------------------------------
  // Rotation away from a rate-limited key
  // ---------------------------------------------------------------------

  /** Call `j` of the run raised a rate limit. */
  ghost predicate RateLimitedCall<R>(op: (string, nat) -> Outcome<R>, calls: seq<string>, j: nat)
    requires j < |calls|
  {
    op(calls[j], j).Raise? && IsRateLimit(op(calls[j], j).message)
  }

  /** Every key that raised a rate limit so far is still blocked until `until`. */
  ghost predicate BlockedSoFar<R>(p: PoolState, op: (string, nat) -> Outcome<R>, calls: seq<string>, until: Time) {
    forall j :: 0 <= j < |calls| && RateLimitedCall(op, calls, j) ==> Blocked(p.keys, calls[j], until)
  }

  /** From call `from` on, no call goes to a key that raised a rate limit earlier in the run. */
  ghost predicate NoRepeatAfterRateLimit<R>(op: (string, nat) -> Outcome<R>, calls: seq<string>, from: nat) {
    forall j, k :: 0 <= j < k < |calls| && from <= k && RateLimitedCall(op, calls, j) ==> calls[k] != calls[j]
  }

  /** What one attempt does to the pool: select, then record the called key's outcome. */
  lemma AttemptStepEffect<R>(p: PoolState, cfg: Config, op: (string, nat) -> Outcome<R>, maxRetries: int,
                             now: Time, d: Draw, attempt: nat, last: Option<string>,
                             calls: seq<string>, sleeps: seq<nat>)
    ensures var step := AttemptStep(p, cfg, op, maxRetries, now, d, attempt, last, calls, sleeps);
      var s := Select(p, cfg, now, d);
      && (s.chosen.None? ==> step.Stop? && step.run.calls == calls)
      && (s.chosen.Some? ==>
            && s.chosen.value < |s.pool.keys|
            && (step.Stop? ==> step.run.calls == calls + [s.pool.keys[s.chosen.value].id])
            && (step.Next? ==>
                  && step.calls == calls + [s.pool.keys[s.chosen.value].id]
                  && op(s.pool.keys[s.chosen.value].id, attempt) == Raise(step.last)
                  && step.pool == ApplyEvent(s.pool, cfg, s.pool.keys[s.chosen.value].id,
                                             if IsRateLimit(step.last) then RateLimitEvent(Some(now + HOUR)) else ErrorEvent, now)))
  {
    SelectReturnsAvailableKey(p, cfg, now, d);
  }

  /** Selection before `until` keeps every earlier rate-limited key blocked and hands out none of them. */
  lemma SelectRotation<R>(p: PoolState, cfg: Config, now: Time, d: Draw, op: (string, nat) -> Outcome<R>,
                          calls: seq<string>, until: Time)
    requires BlockedSoFar(p, op, calls, until) && now <= until
    ensures var s := Select(p, cfg, now, d);
      && BlockedSoFar(s.pool, op, calls, until)
      && (s.chosen.Some? ==>
            && s.chosen.value < |s.pool.keys|
            && forall j :: 0 <= j < |calls| && RateLimitedCall(op, calls, j) ==> s.pool.keys[s.chosen.value].id != calls[j])
  {
    SelectReturnsAvailableKey(p, cfg, now, d);
    forall j | 0 <= j < |calls| && RateLimitedCall(op, calls, j)
      ensures Blocked(Select(p, cfg, now, d).pool.keys, calls[j], until)
    {
      SelectAvoidsBlocked(p, cfg, now, d, calls[j], until);
    }
  }

  /**
   * Recording the outcome of a call to a key that is not blocked keeps the
   * earlier keys blocked, and blocks this one when it raised a rate limit.
   */
  lemma EventRotation<R>(p: PoolState, cfg: Config, id: string, ev: Event, now: Time, op: (string, nat) -> Outcome<R>,
                         calls: seq<string>, until: Time)
    requires PoolInv(p) && BlockedSoFar(p, op, calls, until) && until <= now + HOUR
    requires forall j :: 0 <= j < |calls| && RateLimitedCall(op, calls, j) ==> id != calls[j]
    requires RateLimitedCall(op, calls + [id], |calls|) ==> ev == RateLimitEvent(Some(now + HOUR))
    ensures PoolInv(ApplyEvent(p, cfg, id, ev, now))
    ensures BlockedSoFar(ApplyEvent(p, cfg, id, ev, now), op, calls + [id], until)
  {
    ApplyEventPreservesPoolInv(p, cfg, id, ev, now);
    var calls' := calls + [id];
    forall j | 0 <= j < |calls'| && RateLimitedCall(op, calls', j)
      ensures Blocked(ApplyEvent(p, cfg, id, ev, now).keys, calls'[j], until)
    {
      if j < |calls| {
        assert calls'[j] == calls[j] && RateLimitedCall(op, calls, j);
        EventKeepsOtherBlocked(p, cfg, id, ev, now, calls[j], until);
      } else {
        RateLimitEventBlocks(p, cfg, id, Some(now + HOUR), now, until);
      }
    }
  }

  /** Appending a call to a key no earlier rate-limited call used keeps the run free of repeats. */
  lemma AppendNoRepeat<R>(op: (string, nat) -> Outcome<R>, calls: seq<string>, id: string)
    requires forall j :: 0 <= j < |calls| && RateLimitedCall(op, calls, j) ==> id != calls[j]
    ensures calls <= calls + [id]
    ensures NoRepeatAfterRateLimit(op, calls + [id], |calls|)
  {
    var calls' := calls + [id];
    forall j, k | 0 <= j < k < |calls'| && |calls| <= k && RateLimitedCall(op, calls', j)
      ensures calls'[k] != calls'[j]
    {
      assert calls'[j] == calls[j] && RateLimitedCall(op, calls, j);
    }
  }

  /**
   * One attempt at an instant before `until` calls no key that raised a rate
   * limit earlier, and, when the loop goes on, leaves all those keys, and the
   * one it just called if that raised a rate limit, blocked until `until`.
   */
  lemma AttemptStepRotation<R>(p: PoolState, cfg: Config, op: (string, nat) -> Outcome<R>, maxRetries: int,
                               now: Time, d: Draw, attempt: nat, last: Option<string>,
                               calls: seq<string>, sleeps: seq<nat>, until: Time)
    requires PoolInv(p) && |calls| == attempt && BlockedSoFar(p, op, calls, until)
    requires now <= until <= now + HOUR
    ensures var step := AttemptStep(p, cfg, op, maxRetries, now, d, attempt, last, calls, sleeps);
      step.Stop? ==> calls <= step.run.calls && |step.run.calls| <= attempt + 1 &&
                     NoRepeatAfterRateLimit(op, step.run.calls, attempt)
    ensures var step := AttemptStep(p, cfg, op, maxRetries, now, d, attempt, last, calls, sleeps);
      step.Next? ==> calls <= step.calls && |step.calls| == attempt + 1 &&
                     NoRepeatAfterRateLimit(op, step.calls, attempt) &&
                     PoolInv(step.pool) && BlockedSoFar(step.pool, op, step.calls, until)
  {
    var step := AttemptStep(p, cfg, op, maxRetries, now, d, attempt, last, calls, sleeps);
    var s := Select(p, cfg, now, d);
    AttemptStepEffect(p, cfg, op, maxRetries, now, d, attempt, last, calls, sleeps);
    SelectRotation(p, cfg, now, d, op, calls, until);
    SelectPreservesPoolInv(p, cfg, now, d);
    if s.chosen.Some? {
      var id := s.pool.keys[s.chosen.value].id;
      AppendNoRepeat(op, calls, id);
      if step.Next? {
        var ev := if IsRateLimit(step.last) then RateLimitEvent(Some(now + HOUR)) else ErrorEvent;
        EventRotation(s.pool, cfg, id, ev, now, op, calls, until);
      }
    }
  }

  lemma RotationAfterNext<R>(op: (string, nat) -> Outcome<R>, attempt: nat, calls: seq<string>, calls': seq<string>, rcalls: seq<string>)
    requires |calls| == attempt && calls <= calls' && |calls'| == attempt + 1
    requires NoRepeatAfterRateLimit(op, calls', attempt)
    requires calls' <= rcalls && NoRepeatAfterRateLimit(op, rcalls, attempt + 1)
    ensures calls <= rcalls && NoRepeatAfterRateLimit(op, rcalls, attempt)
  {
    PrefixTrans(calls, calls', rcalls);
    forall j, k | 0 <= j < k < |rcalls| && attempt <= k && RateLimitedCall(op, rcalls, j)
      ensures rcalls[k] != rcalls[j]
    {
      if k == attempt {
        assert rcalls[k] == calls'[k] && rcalls[j] == calls'[j];
        assert RateLimitedCall(op, calls', j);
      }
    }
  }

  lemma {:induction false} RetryFromRotation<R>(p: PoolState, cfg: Config, op: (string, nat) -> Outcome<R>, maxRetries: int,
                                                clock: nat -> Time, draws: nat -> Draw, attempt: nat, last: Option<string>,
                                                calls: seq<string>, sleeps: seq<nat>, lo: Time)
    requires PoolInv(p) && |calls| == attempt && BlockedSoFar(p, op, calls, lo + HOUR)
    requires forall a :: lo <= clock(a) <= lo + HOUR
    decreases if attempt < maxRetries then maxRetries - attempt else 0, 1
    ensures var r := RetryFrom(p, cfg, op, maxRetries, clock, draws, attempt, last, calls, sleeps);
      calls <= r.calls && NoRepeatAfterRateLimit(op, r.calls, attempt)
  {
    if attempt < maxRetries {
      var step := AttemptStep(p, cfg, op, maxRetries, clock(attempt), draws(attempt), attempt, last, calls, sleeps);
      AttemptStepRotation(p, cfg, op, maxRetries, clock(attempt), draws(attempt), attempt, last, calls, sleeps, lo + HOUR);
      if step.Next? {
        RotationNext(step.pool, cfg, op, maxRetries, clock, draws, attempt, calls, step.last, step.calls, step.sleeps, lo);
      }
    }
  }

  lemma {:induction false} RotationNext<R>(p': PoolState, cfg: Config, op: (string, nat) -> Outcome<R>, maxRetries: int,
                                           clock: nat -> Time, draws: nat -> Draw, attempt: nat, calls: seq<string>,
                                           msg: string, calls': seq<string>, sleeps': seq<nat>, lo: Time)
    requires attempt < maxRetries && |calls| == attempt
    requires calls <= calls' && |calls'| == attempt + 1 && NoRepeatAfterRateLimit(op, calls', attempt)
    requires PoolInv(p') && BlockedSoFar(p', op, calls', lo + HOUR)
    requires forall a :: lo <= clock(a) <= lo + HOUR
    decreases maxRetries - attempt, 0
    ensures var r := RetryFrom(p', cfg, op, maxRetries, clock, draws, attempt + 1, Some(msg), calls', sleeps');
      calls <= r.calls && NoRepeatAfterRateLimit(op, r.calls, attempt)
  {
    RetryFromRotation(p', cfg, op, maxRetries, clock, draws, attempt + 1, Some(msg), calls', sleeps', lo);
    RotationAfterNext(op, attempt, calls, calls',
                      RetryFrom(p', cfg, op, maxRetries, clock, draws, attempt + 1, Some(msg), calls', sleeps').calls);
  }

  // ---------------------------------------------------------------------
  // Recording every call in the pool
  // ---------------------------------------------------------------------

  /**
   * One attempt records one event per call it makes: the pool's request count
   * grows by the calls added, and its success count by one exactly when the
   * attempt returns a value.
   */
  lemma AttemptStepTallies<R>(p: PoolState, cfg: Config, op: (string, nat) -> Outcome<R>, maxRetries: int,
                              now: Time, d: Draw, attempt: nat, last: Option<string>, calls: seq<string>, sleeps: seq<nat>)
    ensures var step := AttemptStep(p, cfg, op, maxRetries, now, d, attempt, last, calls, sleeps);
      step.Stop? ==>
        && Tally(step.run.pool.keys, Requests) + |calls| == Tally(p.keys, Requests) + |step.run.calls|
        && Tally(step.run.pool.keys, Successes) == Tally(p.keys, Successes) + (if step.run.verdict.Returned? then 1 else 0)
    ensures var step := AttemptStep(p, cfg, op, maxRetries, now, d, attempt, last, calls, sleeps);
      step.Next? ==>
        && Tally(step.pool.keys, Requests) + |calls| == Tally(p.keys, Requests) + |step.calls|
        && Tally(step.pool.keys, Successes) == Tally(p.keys, Successes)
  {
    var s := Select(p, cfg, now, d);
    SelectReturnsAvailableKey(p, cfg, now, d);
    HealKeepsTallies(p.keys, now, Requests);
    HealKeepsTallies(p.keys, now, Successes);
    if s.chosen.Some? {
      var id := s.pool.keys[s.chosen.value].id;
      assert Ids(s.pool.keys)[s.chosen.value] == id;
      match op(id, attempt)
      case Ok(_) =>
        EventTallies(s.pool, cfg, id, SuccessEvent, now);
      case Raise(msg) =>
        var (rateLimited, reset) := DetectRateLimitError(msg, now);
        if rateLimited {
          EventTallies(s.pool, cfg, id, RateLimitEvent(reset), now);
        } else {
          EventTallies(s.pool, cfg, id, ErrorEvent, now);
        }
    }
  }

  /** How many of the calls raised, with a message that is a rate limit (`rateLimit`) or is not one. */
  function RaisedCalls<R>(op: (string, nat) -> Outcome<R>, calls: seq<string>, rateLimit: bool): (n: nat)
    ensures n <= |calls|
    decreases |calls|
  {
    if calls == [] then 0
    else
      var a := |calls| - 1;
      var o := op(calls[a], a);
      RaisedCalls(op, calls[..a], rateLimit) + (if o.Raise? && IsRateLimit(o.message) == rateLimit then 1 else 0)
  }

  /** The event the loop records for a call's outcome. */
  function EventFor<R>(o: Outcome<R>, now: Time): (ev: Event)
    ensures ev.RateLimitEvent? <==> o.Raise? && IsRateLimit(o.message)
    ensures ev == ErrorEvent <==> o.Raise? && !IsRateLimit(o.message)
  {
    match o
    case Ok(_) => SuccessEvent
    case Raise(m) => if IsRateLimit(m) then RateLimitEvent(Some(now + HOUR)) else ErrorEvent
  }

  /** The pool and the calls after one attempt, as plain values: the selection, then the called key's event. */
  lemma AttemptStepAfter<R>(p: PoolState, cfg: Config, op: (string, nat) -> Outcome<R>, maxRetries: int,
                            now: Time, d: Draw, attempt: nat, last: Option<string>, calls: seq<string>, sleeps: seq<nat>)
    returns (after: PoolState, calls': seq<string>)
    ensures var step := AttemptStep(p, cfg, op, maxRetries, now, d, attempt, last, calls, sleeps);
      if step.Stop? then after == step.run.pool && calls' == step.run.calls
      else after == step.pool && calls' == step.calls
    ensures var s := Select(p, cfg, now, d);
      && s.pool.keys == HealAll(p.keys, now)
      && (s.chosen.None? ==> after == s.pool && calls' == calls)
      && (s.chosen.Some? ==>
            && s.chosen.value < |s.pool.keys|
            && s.pool.keys[s.chosen.value].id in Ids(s.pool.keys)
            && calls' == calls + [s.pool.keys[s.chosen.value].id]
            && after == ApplyEvent(s.pool, cfg, s.pool.keys[s.chosen.value].id,
                                   EventFor(op(s.pool.keys[s.chosen.value].id, attempt), now), now))
  {
    var step := AttemptStep(p, cfg, op, maxRetries, now, d, attempt, last, calls, sleeps);
    after, calls' := if step.Stop? then step.run.pool else step.pool, if step.Stop? then step.run.calls else step.calls;
    var s := Select(p, cfg, now, d);
    SelectReturnsAvailableKey(p, cfg, now, d);
    if s.chosen.Some? {
      var id := s.pool.keys[s.chosen.value].id;
      assert Ids(s.pool.keys)[s.chosen.value] == id;
      match op(id, attempt)
      case Ok(_) =>
      case Raise(msg) =>
        assert DetectRateLimitError(msg, now).0 == IsRateLimit(msg);
    }
  }

  /** Recording one more call's outcome adds it to the rate-limit or the error count, as it was detected. */
  lemma CallFailureTallies<R>(pool: PoolState, cfg: Config, op: (string, nat) -> Outcome<R>, id: string, now: Time,
                              calls: seq<string>)
    requires id in Ids(pool.keys)
    ensures var after := ApplyEvent(pool, cfg, id, EventFor(op(id, |calls|), now), now);
      && Tally(after.keys, Errors) + RaisedCalls(op, calls, false) == Tally(pool.keys, Errors) + RaisedCalls(op, calls + [id], false)
      && Tally(after.keys, RateLimits) + RaisedCalls(op, calls, true) == Tally(pool.keys, RateLimits) + RaisedCalls(op, calls + [id], true)
  {
    assert (calls + [id])[..|calls|] == calls;
    EventTallies(pool, cfg, id, EventFor(op(id, |calls|), now), now);
  }

  /**
   * One attempt records a raised rate limit as a rate limit and any other
   * raised exception as an error, on the key it called.
   */
  lemma AttemptStepFailureTallies<R>(p: PoolState, cfg: Config, op: (string, nat) -> Outcome<R>, maxRetries: int,
                                     now: Time, d: Draw, attempt: nat, last: Option<string>, calls: seq<string>, sleeps: seq<nat>)
    requires |calls| == attempt
    ensures var step := AttemptStep(p, cfg, op, maxRetries, now, d, attempt, last, calls, sleeps);
      var (after, calls') := if step.Stop? then (step.run.pool, step.run.calls) else (step.pool, step.calls);
      && Tally(after.keys, Errors) + RaisedCalls(op, calls, false) == Tally(p.keys, Errors) + RaisedCalls(op, calls', false)
      && Tally(after.keys, RateLimits) + RaisedCalls(op, calls, true) == Tally(p.keys, RateLimits) + RaisedCalls(op, calls', true)
  {
    var s := Select(p, cfg, now, d);
    var after, calls' := AttemptStepAfter(p, cfg, op, maxRetries, now, d, attempt, last, calls, sleeps);
    HealKeepsTallies(p.keys, now, Errors);
    HealKeepsTallies(p.keys, now, RateLimits);
    if s.chosen.Some? {
      CallFailureTallies(s.pool, cfg, op, s.pool.keys[s.chosen.value].id, now, calls);
    }
  }

  /** The loop from attempt `attempt` on records each raised exception as a rate limit or an error, as it was detected. */
  lemma {:induction false} RetryFromFailureTallies<R>(p: PoolState, cfg: Config, op: (string, nat) -> Outcome<R>, maxRetries: int,
                                                      clock: nat -> Time, draws: nat -> Draw, attempt: nat, last: Option<string>,
                                                      calls: seq<string>, sleeps: seq<nat>)
    requires |calls| == attempt
    decreases if attempt < maxRetries then maxRetries - attempt else 0
    ensures var r := RetryFrom(p, cfg, op, maxRetries, clock, draws, attempt, last, calls, sleeps);
      && Tally(r.pool.keys, Errors) + RaisedCalls(op, calls, false) == Tally(p.keys, Errors) + RaisedCalls(op, r.calls, false)
      && Tally(r.pool.keys, RateLimits) + RaisedCalls(op, calls, true) == Tally(p.keys, RateLimits) + RaisedCalls(op, r.calls, true)
  {
    if attempt < maxRetries {
      var step := AttemptStep(p, cfg, op, maxRetries, clock(attempt), draws(attempt), attempt, last, calls, sleeps);
      AttemptStepFailureTallies(p, cfg, op, maxRetries, clock(attempt), draws(attempt), attempt, last, calls, sleeps);
      if step.Stop? {
        RetryStopsAt(p, cfg, op, maxRetries, clock, draws, attempt, last, calls, sleeps, step.run);
      } else {
        AttemptStepShape(p, cfg, op, maxRetries, clock(attempt), draws(attempt), attempt, last, calls, sleeps);
        RetryContinuesAt(p, cfg, op, maxRetries, clock, draws, attempt, last, calls, sleeps,
                         step.pool, step.last, step.calls, step.sleeps);
        RetryFromFailureTallies(step.pool, cfg, op, maxRetries, clock, draws, attempt + 1, Some(step.last), step.calls, step.sleeps);
      }
    }
  }

  /** The loop from attempt `attempt` on records every call it makes, and a success only for a return. */
  lemma {:induction false} RetryFromTallies<R>(p: PoolState, cfg: Config, op: (string, nat) -> Outcome<R>, maxRetries: int,
                                               clock: nat -> Time, draws: nat -> Draw, attempt: nat, last: Option<string>,
                                               calls: seq<string>, sleeps: seq<nat>)
    decreases if attempt < maxRetries then maxRetries - attempt else 0
    ensures var r := RetryFrom(p, cfg, op, maxRetries, clock, draws, attempt, last, calls, sleeps);
      && Tally(r.pool.keys, Requests) + |calls| == Tally(p.keys, Requests) + |r.calls|
      && Tally(r.pool.keys, Successes) == Tally(p.keys, Successes) + (if r.verdict.Returned? then 1 else 0)
  {
    if attempt < maxRetries {
      var step := AttemptStep(p, cfg, op, maxRetries, clock(attempt), draws(attempt), attempt, last, calls, sleeps);
      AttemptStepTallies(p, cfg, op, maxRetries, clock(attempt), draws(attempt), attempt, last, calls, sleeps);
      if step.Stop? {
        RetryStopsAt(p, cfg, op, maxRetries, clock, draws, attempt, last, calls, sleeps, step.run);
      } else {
        RetryContinuesAt(p, cfg, op, maxRetries, clock, draws, attempt, last, calls, sleeps,
                         step.pool, step.last, step.calls, step.sleeps);
        RetryFromTallies(step.pool, cfg, op, maxRetries, clock, draws, attempt + 1, Some(step.last), step.calls, step.sleeps);
      }
    }
  }

  // ---------------------------------------------------------------------
  // When the loop gives up, and the sleeps it takes
  // ---------------------------------------------------------------------

  /** No key of the pool is available at `now`. */
  ghost predicate NoneAvailable(ks: seq<KeyRecord>, now: Time) {
    forall i :: 0 <= i < |ks| ==> !IsAvailable(ks[i], now)
  }

  /**
   * A run that raises before using all its attempts was stopped by an
   * authentication failure or by finding no key for the next attempt, and
   * "No available API keys" means no key was available at the first one.
   */
  ghost predicate GaveUpForCause<R>(maxRetries: int, clock: nat -> Time, r: Run<R>) {
    && (r.verdict.Raised? && |r.calls| < maxRetries ==>
          StopsRetrying(r.verdict.message) || NoneAvailable(r.pool.keys, clock(|r.calls|)))
    && (r.verdict == NoKeys ==> NoneAvailable(r.pool.keys, clock(|r.calls|)))
  }

  /** The back-off after call `a` with outcome `o`: `2^a` seconds after an error that neither rotates nor ends the run. */
  function BackoffAfter<R>(o: Outcome<R>, a: nat, maxRetries: int): (sleep: seq<nat>)
    ensures |sleep| <= 1
  {
    if o.Raise? && !IsRateLimit(o.message) && !IsAuthFailure(o.message) && a != maxRetries - 1 then [Pow2(a)] else []
  }

  /** The back-offs due after the calls `calls`, in the order of the calls. */
  function BackoffsOf<R>(op: (string, nat) -> Outcome<R>, maxRetries: int, calls: seq<string>): (sleeps: seq<nat>)
    ensures |sleeps| <= |calls|
    decreases |calls|
  {
    if calls == [] then []
    else
      var a := |calls| - 1;
      BackoffsOf(op, maxRetries, calls[..a]) + BackoffAfter(op(calls[a], a), a, maxRetries)
  }

  /** Healing cannot make a key available that was not already available. */
  lemma NoneAvailableAfterHeal(ks: seq<KeyRecord>, now: Time)
    requires NoneAvailable(ks, now)
    ensures NoneAvailable(HealAll(ks, now), now)
  {
    forall i | 0 <= i < |ks| ensures !IsAvailable(HealAll(ks, now)[i], now) {
      HealIdempotent(ks[i], now);
    }
  }

  /** One attempt that ends the run does so for a cause, and takes the back-off its call is due. */
  lemma AttemptStepCause<R>(p: PoolState, cfg: Config, op: (string, nat) -> Outcome<R>, maxRetries: int,
                            clock: nat -> Time, draws: nat -> Draw, attempt: nat, last: Option<string>,
                            calls: seq<string>, sleeps: seq<nat>)
    requires |calls| == attempt < maxRetries && sleeps == BackoffsOf(op, maxRetries, calls)
    ensures var step := AttemptStep(p, cfg, op, maxRetries, clock(attempt), draws(attempt), attempt, last, calls, sleeps);
      step.Stop? ==> GaveUpForCause(maxRetries, clock, step.run) && step.run.sleeps == BackoffsOf(op, maxRetries, step.run.calls)
    ensures var step := AttemptStep(p, cfg, op, maxRetries, clock(attempt), draws(attempt), attempt, last, calls, sleeps);
      step.Next? ==> |step.calls| == attempt + 1 && step.sleeps == BackoffsOf(op, maxRetries, step.calls)
  {
    var now := clock(attempt);
    var s := Select(p, cfg, now, draws(attempt));
    SelectReturnsAvailableKey(p, cfg, now, draws(attempt));
    if s.chosen.None? {
      NoneAvailableAfterHeal(p.keys, now);
    } else {
      var id := s.pool.keys[s.chosen.value].id;
      assert (calls + [id])[..attempt] == calls;
      assert BackoffsOf(op, maxRetries, calls + [id]) == sleeps + BackoffAfter(op(id, attempt), attempt, maxRetries);
    }
  }

  /** The loop from a state with one call per attempt so far gives up only for a cause, and sleeps exactly the back-offs due. */
  lemma {:induction false} RetryFromCause<R>(p: PoolState, cfg: Config, op: (string, nat) -> Outcome<R>, maxRetries: int,
                                             clock: nat -> Time, draws: nat -> Draw, attempt: nat, last: Option<string>,
                                             calls: seq<string>, sleeps: seq<nat>)
    requires |calls| == attempt && sleeps == BackoffsOf(op, maxRetries, calls)
    decreases if attempt < maxRetries then maxRetries - attempt else 0
    ensures var r := RetryFrom(p, cfg, op, maxRetries, clock, draws, attempt, last, calls, sleeps);
      GaveUpForCause(maxRetries, clock, r) && r.sleeps == BackoffsOf(op, maxRetries, r.calls)
  {
    if attempt < maxRetries {
      var step := AttemptStep(p, cfg, op, maxRetries, clock(attempt), draws(attempt), attempt, last, calls, sleeps);
      AttemptStepCause(p, cfg, op, maxRetries, clock, draws, attempt, last, calls, sleeps);
      if step.Stop? {
        RetryStopsAt(p, cfg, op, maxRetries, clock, draws, attempt, last, calls, sleeps, step.run);
      } else {
        RetryContinuesAt(p, cfg, op, maxRetries, clock, draws, attempt, last, calls, sleeps,
                         step.pool, step.last, step.calls, step.sleeps);
        RetryFromCause(step.pool, cfg, op, maxRetries, clock, draws, attempt + 1, Some(step.last), step.calls, step.sleeps);
      }
    }
  }

  // ---------------------------------------------------------------------
  // Properties of a whole call through the wrapper
  // ---------------------------------------------------------------------

  /**
   * A call through the wrapper makes at most `max_retries` calls of the
   * wrapped function, one per attempt; "No available API keys" is raised only
   * when no call was made, and `None` is returned exactly when `max_retries`
   * allows no attempt.
   */
  lemma RetryCallCount<R>(p: PoolState, cfg: Config, op: (string, nat) -> Outcome<R>, maxRetries: int,
                          clock: nat -> Time, draws: nat -> Draw)
    ensures var r := Retry(p, cfg, op, maxRetries, clock, draws);
      && |r.calls| <= (if maxRetries > 0 then maxRetries else 0)
      && (r.verdict == NoKeys ==> r.calls == [])
      && (r.verdict == ReturnedNothing <==> maxRetries <= 0)
  {
    RetryFromShape(p, cfg, op, maxRetries, clock, draws, 0, None, [], []);
    NoAttemptReturnsNothing(p, cfg, op, maxRetries, clock, draws);
  }

  /**
   * Every call is recorded in the pool exactly once: the pool's request count
   * grows by the number of calls, its success count by one exactly when the
   * wrapper returned a value, its rate-limit count by the calls that raised a
   * rate limit, and its error count by the calls that raised anything else,
   * the re-raised last one and an authentication failure included.
   */
  lemma RetryRecordsEveryCall<R>(p: PoolState, cfg: Config, op: (string, nat) -> Outcome<R>, maxRetries: int,
                                 clock: nat -> Time, draws: nat -> Draw)
    ensures var r := Retry(p, cfg, op, maxRetries, clock, draws);
      && Tally(r.pool.keys, Requests) == Tally(p.keys, Requests) + |r.calls|
      && Tally(r.pool.keys, Successes) == Tally(p.keys, Successes) + (if r.verdict.Returned? then 1 else 0)
      && Tally(r.pool.keys, RateLimits) == Tally(p.keys, RateLimits) + RaisedCalls(op, r.calls, true)
      && Tally(r.pool.keys, Errors) == Tally(p.keys, Errors) + RaisedCalls(op, r.calls, false)
  {
    RetryFromTallies(p, cfg, op, maxRetries, clock, draws, 0, None, [], []);
    RetryFromFailureTallies(p, cfg, op, maxRetries, clock, draws, 0, None, [], []);
  }

  /**
   * With no key available at the first attempt, the wrapper calls nothing and
   * raises "No available API keys"; the only change to the pool is the
   * healing that looking for a key does.
   */
  lemma NoAvailableKeyMakesNoCall<R>(p: PoolState, cfg: Config, op: (string, nat) -> Outcome<R>, maxRetries: int,
                                     clock: nat -> Time, draws: nat -> Draw)
    requires maxRetries > 0
    requires forall i :: 0 <= i < |p.keys| ==> !IsAvailable(p.keys[i], clock(0))
    ensures var r := Retry(p, cfg, op, maxRetries, clock, draws);
      r.verdict == NoKeys && r.calls == [] && r.sleeps == [] && r.pool.keys == HealAll(p.keys, clock(0))
  {
    SelectReturnsAvailableKey(p, cfg, clock(0), draws(0));
  }

  /** What the last call of a run did. */
  function LastOutcome<R>(op: (string, nat) -> Outcome<R>, calls: seq<string>): (o: Outcome<R>)
    requires |calls| > 0
  {
    op(calls[|calls| - 1], |calls| - 1)
  }

  /** Every call but the last one raised, and none of those was an authentication failure. */
  lemma RetryEarlierCallsFailed<R>(p: PoolState, cfg: Config, op: (string, nat) -> Outcome<R>, maxRetries: int,
                                   clock: nat -> Time, draws: nat -> Draw)
    ensures var r := Retry(p, cfg, op, maxRetries, clock, draws);
      forall j :: 0 <= j < |r.calls| - 1 ==> op(r.calls[j], j).Raise? && !StopsRetrying(op(r.calls[j], j).message)
  {
    RetryFromShape(p, cfg, op, maxRetries, clock, draws, 0, None, [], []);
  }

  /** A return hands back the last call's value. */
  lemma RetryReturnsLastValue<R>(p: PoolState, cfg: Config, op: (string, nat) -> Outcome<R>, maxRetries: int,
                                 clock: nat -> Time, draws: nat -> Draw)
    ensures var r := Retry(p, cfg, op, maxRetries, clock, draws);
      r.verdict.Returned? ==> |r.calls| > 0 && LastOutcome(op, r.calls) == Ok(r.verdict.value)
  {
    RetryFromShape(p, cfg, op, maxRetries, clock, draws, 0, None, [], []);
  }

  /** A raise re-raises the last call's exception. */
  lemma RetryRaisesLastException<R>(p: PoolState, cfg: Config, op: (string, nat) -> Outcome<R>, maxRetries: int,
                                    clock: nat -> Time, draws: nat -> Draw)
    ensures var r := Retry(p, cfg, op, maxRetries, clock, draws);
      r.verdict.Raised? ==> |r.calls| > 0 && LastOutcome(op, r.calls) == Raise(r.verdict.message)
  {
    RetryFromShape(p, cfg, op, maxRetries, clock, draws, 0, None, [], []);
  }

  /**
   * The sleeps are exactly the back-offs due: `2^a` seconds after each call
   * `a` that raised an error neither a rate limit nor an authentication
   * failure, unless it was the last attempt, in the order of the calls. So
   * there are no more sleeps than calls; they increase, the `i`-th lasting at
   * least `2^i` seconds.
   */
  lemma RetryBackoffGrows<R>(p: PoolState, cfg: Config, op: (string, nat) -> Outcome<R>, maxRetries: int,
                             clock: nat -> Time, draws: nat -> Draw)
    ensures var r := Retry(p, cfg, op, maxRetries, clock, draws);
      && r.sleeps == BackoffsOf(op, maxRetries, r.calls)
      && |r.sleeps| <= |r.calls|
      && (forall i, k :: 0 <= i < k < |r.sleeps| ==> r.sleeps[i] < r.sleeps[k])
      && (forall i :: 0 <= i < |r.sleeps| ==> Pow2(i) <= r.sleeps[i])
  {
    RetryFromShape(p, cfg, op, maxRetries, clock, draws, 0, None, [], []);
    RetryFromCause(p, cfg, op, maxRetries, clock, draws, 0, None, [], []);
  }

  /**
   * The loop gives up early only for a cause: a run that raises before using
   * all `max_retries` attempts either re-raised an authentication failure or
   * found no key available for the next attempt, and "No available API keys"
   * is raised only when no key was available at the first attempt.
   */
  lemma RetryGivesUpOnlyForCause<R>(p: PoolState, cfg: Config, op: (string, nat) -> Outcome<R>, maxRetries: int,
                                    clock: nat -> Time, draws: nat -> Draw)
    ensures var r := Retry(p, cfg, op, maxRetries, clock, draws);
      && (r.verdict.Raised? && |r.calls| < maxRetries ==>
            StopsRetrying(r.verdict.message) || NoneAvailable(r.pool.keys, clock(|r.calls|)))
      && (r.verdict == NoKeys ==> NoneAvailable(r.pool.keys, clock(0)))
  {
    RetryFromCause(p, cfg, op, maxRetries, clock, draws, 0, None, [], []);
    RetryFromShape(p, cfg, op, maxRetries, clock, draws, 0, None, [], []);
  }

  /**
   * A failed call before the last attempt that is not an authentication
   * failure (a rate limit or any other error) is followed by another attempt:
   * a later call was made, or no key was available for the next attempt and
   * the run re-raised that call's exception.
   */
  lemma RetryGoesOnAfterFailure<R>(p: PoolState, cfg: Config, op: (string, nat) -> Outcome<R>, maxRetries: int,
                                   clock: nat -> Time, draws: nat -> Draw)
    ensures var r := Retry(p, cfg, op, maxRetries, clock, draws);
      forall j :: 0 <= j < |r.calls| && j + 1 < maxRetries && op(r.calls[j], j).Raise? &&
                  !StopsRetrying(op(r.calls[j], j).message) ==>
        j + 1 < |r.calls| || (r.verdict == Raised(op(r.calls[j], j).message) && NoneAvailable(r.pool.keys, clock(j + 1)))
  {
    RetryGivesUpOnlyForCause(p, cfg, op, maxRetries, clock, draws);
    RetryCallCount(p, cfg, op, maxRetries, clock, draws);
    RetryReturnsLastValue(p, cfg, op, maxRetries, clock, draws);
    RetryRaisesLastException(p, cfg, op, maxRetries, clock, draws);
    GoesOnAfterFailureRun(op, maxRetries, clock, Retry(p, cfg, op, maxRetries, clock, draws));
  }

  /** The step from the facts above to `RetryGoesOnAfterFailure`, on a plain run value. */
  lemma GoesOnAfterFailureRun<R>(op: (string, nat) -> Outcome<R>, maxRetries: int, clock: nat -> Time, r: Run<R>)
    requires r.verdict.Raised? && |r.calls| < maxRetries ==>
      StopsRetrying(r.verdict.message) || NoneAvailable(r.pool.keys, clock(|r.calls|))
    requires r.verdict.Returned? ==> |r.calls| > 0 && LastOutcome(op, r.calls) == Ok(r.verdict.value)
    requires r.verdict.Raised? ==> |r.calls| > 0 && LastOutcome(op, r.calls) == Raise(r.verdict.message)
    requires r.verdict == NoKeys ==> r.calls == []
    requires r.verdict == ReturnedNothing ==> maxRetries <= 0
    requires |r.calls| <= (if maxRetries > 0 then maxRetries else 0)
    ensures forall j :: 0 <= j < |r.calls| && j + 1 < maxRetries && op(r.calls[j], j).Raise? &&
                        !StopsRetrying(op(r.calls[j], j).message) ==>
      j + 1 < |r.calls| || (r.verdict == Raised(op(r.calls[j], j).message) && NoneAvailable(r.pool.keys, clock(j + 1)))
  {
  }

  /** `range(max_retries)` is empty when `max_retries <= 0`: the wrapper returns `None` without a call. */
  lemma NoAttemptReturnsNothing<R>(p: PoolState, cfg: Config, op: (string, nat) -> Outcome<R>, maxRetries: int,
                                   clock: nat -> Time, draws: nat -> Draw)
    ensures maxRetries <= 0 ==> Retry(p, cfg, op, maxRetries, clock, draws) == Run(ReturnedNothing, p, [], [])
  {
  }

  /**
   * Rotation: while the whole call stays within the hour a detected rate limit
   * blocks its key for, a key whose call raised a rate limit is not called
   * again; the next attempt goes to another key.
   */
  lemma RateLimitedKeyNotRetried<R>(p: PoolState, cfg: Config, op: (string, nat) -> Outcome<R>, maxRetries: int,
                                    clock: nat -> Time, draws: nat -> Draw, lo: Time)
    requires PoolInv(p)
    requires forall a :: lo <= clock(a) <= lo + HOUR
    ensures var r := Retry(p, cfg, op, maxRetries, clock, draws);
      forall j, k :: 0 <= j < k < |r.calls| && op(r.calls[j], j).Raise? && IsRateLimit(op(r.calls[j], j).message) ==>
        r.calls[k] != r.calls[j]
  {
    RetryFromRotation(p, cfg, op, maxRetries, clock, draws, 0, None, [], [], lo);
    var r := Retry(p, cfg, op, maxRetries, clock, draws);
    assert NoRepeatAfterRateLimit(op, r.calls, 0);
    forall j, k | 0 <= j < k < |r.calls| && op(r.calls[j], j).Raise? && IsRateLimit(op(r.calls[j], j).message)
      ensures r.calls[k] != r.calls[j]
    {
      assert RateLimitedCall(op, r.calls, j);
    }
  }

  // ---------------------------------------------------------------------
  // The scenarios of the test suite
  // ---------------------------------------------------------------------

  /** `KeyPoolManager()` with its defaults: adaptive, threshold 5, timeout 10 minutes. */
  const DEFAULT_CONFIG: Config := Config(Adaptive, 5, 10)

  /** A default pool after `add_key` of fresh keys `key_1` and `key_2`. */
  function TwoKeyPool(): (p: PoolState) {
    Added(Added(PoolState([], 0, []), NewKey("key_1", 1.0)), NewKey("key_2", 1.0))
  }

  /** The value the test operations build from a key id, spelled out. */
  lemma SuccessMessage(id: string, expected: string)
    requires |expected| == 13 + |id| && expected[..13] == "success_with_" && expected[13..] == id
    ensures "success_with_" + id == expected
  {
  }

  /** The operation of the rotation test: `key_1` is rate limited, any other key succeeds. */
  function RateLimitedOnKey1(id: string, attempt: nat): (o: Outcome<string>) {
    if id == "key_1" then Raise("429 Too Many Requests") else Ok("success_with_" + id)
  }

  /** With both keys fresh and no recent rate limit, the adaptive strategy takes the first never-used key. */
  lemma FirstAttemptTakesKey1(now: Time, d: Draw)
    ensures var s := Select(TwoKeyPool(), DEFAULT_CONFIG, now, d);
      s.chosen == Some(0) && s.pool.keys == TwoKeyPool().keys
  {
    var p := TwoKeyPool();
    assert HealAll(p.keys, now) == p.keys;
    var avail := AvailableIndices(p.keys);
    assert 0 in avail && 1 in avail;
    assert avail == [0, 1];
    assert !RateLimitedRecently(p.keys, now);
    assert LeastRecent(LastUsedOf(p.keys, avail)) == 0;
  }

  /** Once `key_1` is rate limited, a selection before its reset takes `key_2`. */
  lemma SecondAttemptTakesKey2(p: PoolState, t0: Time, d0: Draw, now: Time, d: Draw)
    requires p == ApplyEvent(Select(TwoKeyPool(), DEFAULT_CONFIG, t0, d0).pool, DEFAULT_CONFIG, "key_1",
                             RateLimitEvent(Some(t0 + HOUR)), t0)
    requires now <= t0 + HOUR
    ensures var s := Select(p, DEFAULT_CONFIG, now, d);
      s.chosen == Some(1) && |s.pool.keys| == 2 && s.pool.keys[1].id == "key_2"
  {
    FirstAttemptTakesKey1(t0, d0);
    assert p.keys[0].health == RateLimited && p.keys[0].rateLimitResetTime == Some(t0 + HOUR);
    assert p.keys[1] == NewKey("key_2", 1.0);
    assert !IsAvailable(p.keys[0], now) && IsAvailable(p.keys[1], now);
    SelectReturnsAvailableKey(p, DEFAULT_CONFIG, now, d);
  }

  /**
   * The rotation test: the first key raises "429 Too Many Requests", the
   * wrapper records the rate limit and moves on at once, the second key
   * (called before the first one's reset) succeeds, its value is returned,
   * exactly two calls are made and there is no back-off, whatever the draws.
   */
  lemma RateLimitRetryRotates(clock: nat -> Time, draws: nat -> Draw)
    requires clock(1) <= clock(0) + HOUR
    ensures var r := Retry(TwoKeyPool(), DEFAULT_CONFIG, RateLimitedOnKey1, 3, clock, draws);
      r.verdict == Returned("success_with_key_2") && r.calls == ["key_1", "key_2"] && r.sleeps == []
  {
    var p := TwoKeyPool();
    var t0 := clock(0);
    FirstAttemptTakesKey1(t0, draws(0));
    TooManyRequestsDetected(t0);
    var s0 := Select(p, DEFAULT_CONFIG, t0, draws(0));
    var p1 := ApplyEvent(s0.pool, DEFAULT_CONFIG, "key_1", RateLimitEvent(Some(t0 + HOUR)), t0);
    assert AttemptStep(p, DEFAULT_CONFIG, RateLimitedOnKey1, 3, t0, draws(0), 0, None, [], [])
        == Next(p1, "429 Too Many Requests", ["key_1"], []);
    SecondAttemptTakesKey2(p1, t0, draws(0), clock(1), draws(1));
    var step1 := AttemptStep(p1, DEFAULT_CONFIG, RateLimitedOnKey1, 3, clock(1), draws(1), 1, Some("429 Too Many Requests"), ["key_1"], []);
    SuccessMessage("key_2", "success_with_key_2");
    assert step1.Stop? && step1.run.verdict == Returned("success_with_key_2") && step1.run.calls == ["key_1", "key_2"];
    RetryContinuesAt(p, DEFAULT_CONFIG, RateLimitedOnKey1, 3, clock, draws, 0, None, [], [],
                     p1, "429 Too Many Requests", ["key_1"], []);
    RetryStopsAt(p1, DEFAULT_CONFIG, RateLimitedOnKey1, 3, clock, draws, 1, Some("429 Too Many Requests"), ["key_1"], [], step1.run);
  }

  /** The operation of the success test: it succeeds with whichever key it is given. */
  function SucceedsWithAnyKey(id: string, attempt: nat): (o: Outcome<string>) {
    Ok("success_with_" + id)
  }

  /** The pool of the success test: one fresh key. */
  function OneKeyPool(): (p: PoolState) {
    Added(PoolState([], 0, []), NewKey("test_key", 1.0))
  }

  /** With a single fresh key, every strategy takes it. */
  lemma OneKeyPoolSelectsIt(now: Time, d: Draw)
    ensures var s := Select(OneKeyPool(), DEFAULT_CONFIG, now, d);
      s.chosen == Some(0) && |s.pool.keys| == 1 && s.pool.keys[0].id == "test_key"
  {
    var p := OneKeyPool();
    assert IsAvailable(p.keys[0], now);
    SelectReturnsAvailableKey(p, DEFAULT_CONFIG, now, d);
  }

  /** The success test: a single fresh key, an operation that succeeds, one call and its value returned. */
  lemma SuccessfulOperationReturnsAtOnce(clock: nat -> Time, draws: nat -> Draw)
    ensures var r := Retry(OneKeyPool(), DEFAULT_CONFIG, SucceedsWithAnyKey, 3, clock, draws);
      r.verdict == Returned("success_with_test_key") && r.calls == ["test_key"] && r.sleeps == []
  {
    var p := OneKeyPool();
    OneKeyPoolSelectsIt(clock(0), draws(0));
    var s := Select(p, DEFAULT_CONFIG, clock(0), draws(0));
    SuccessMessage("test_key", "success_with_test_key");
    var step := AttemptStep(p, DEFAULT_CONFIG, SucceedsWithAnyKey, 3, clock(0), draws(0), 0, None, [], []);
    assert step == Stop(Run(Returned("success_with_test_key"), ApplyEvent(s.pool, DEFAULT_CONFIG, "test_key", SuccessEvent, clock(0)), ["test_key"], []));
    RetryStopsAt(p, DEFAULT_CONFIG, SucceedsWithAnyKey, 3, clock, draws, 0, None, [], [], step.run);
  }

  /** An operation rejected for its credentials on every key. */
  function AlwaysUnauthorized(id: string, attempt: nat): (o: Outcome<string>) {
    Raise("401 Unauthorized")
  }

  /**
   * An authentication failure is not retried: whatever the pool, the strategy
   * and `max_retries`, at most one call is made, and when one is made it is
   * recorded as an error, not a rate limit, and its exception is re-raised.
   */
  lemma AuthFailureNotRetried(p: PoolState, cfg: Config, maxRetries: int, clock: nat -> Time, draws: nat -> Draw)
    ensures var r := Retry(p, cfg, AlwaysUnauthorized, maxRetries, clock, draws);
      |r.calls| <= 1 && (r.calls != [] ==> r.verdict == Raised("401 Unauthorized"))
    ensures var r := Retry(p, cfg, AlwaysUnauthorized, maxRetries, clock, draws);
      && Tally(r.pool.keys, Errors) == Tally(p.keys, Errors) + |r.calls|
      && Tally(r.pool.keys, RateLimits) == Tally(p.keys, RateLimits)
  {
    RetryRecordsEveryCall(p, cfg, AlwaysUnauthorized, maxRetries, clock, draws);
    UnauthorizedRaisedCalls(Retry(p, cfg, AlwaysUnauthorized, maxRetries, clock, draws).calls);
    UnauthorizedNotDetected(0);
    assert OccursAt("401 Unauthorized", "401", 0);
    ContainsAt("401 Unauthorized", "401");
    RetryCallCount(p, cfg, AlwaysUnauthorized, maxRetries, clock, draws);
    RetryEarlierCallsFailed(p, cfg, AlwaysUnauthorized, maxRetries, clock, draws);
    RetryReturnsLastValue(p, cfg, AlwaysUnauthorized, maxRetries, clock, draws);
    RetryRaisesLastException(p, cfg, AlwaysUnauthorized, maxRetries, clock, draws);
    UnauthorizedRun(Retry(p, cfg, AlwaysUnauthorized, maxRetries, clock, draws));
  }

  /** Every call of `AlwaysUnauthorized` raises, and none of them raises a rate limit. */
  lemma {:induction false} UnauthorizedRaisedCalls(calls: seq<string>)
    ensures RaisedCalls(AlwaysUnauthorized, calls, false) == |calls|
    ensures RaisedCalls(AlwaysUnauthorized, calls, true) == 0
    decreases |calls|
  {
    if calls != [] {
      UnauthorizedNotDetected(0);
      UnauthorizedRaisedCalls(calls[..|calls| - 1]);
    }
  }

  /** The facts about a run of `AlwaysUnauthorized` that pin it down, on a plain run value. */
  lemma UnauthorizedRun(r: Run<string>)
    requires StopsRetrying("401 Unauthorized")
    requires forall j :: 0 <= j < |r.calls| - 1 ==>
      !StopsRetrying(AlwaysUnauthorized(r.calls[j], j).message)
    requires r.verdict.Returned? ==> |r.calls| > 0 && LastOutcome(AlwaysUnauthorized, r.calls) == Ok(r.verdict.value)
    requires r.verdict.Raised? ==> |r.calls| > 0 && LastOutcome(AlwaysUnauthorized, r.calls) == Raise(r.verdict.message)
    requires r.verdict == NoKeys || r.verdict == ReturnedNothing ==> r.calls == []
    ensures |r.calls| <= 1
    ensures r.calls != [] ==> r.verdict == Raised("401 Unauthorized")
  {
    FirstUnauthorized(r.calls);
  }

  /** Names the first call's outcome, so that the premise about earlier calls applies to it. */
  lemma FirstUnauthorized(calls: seq<string>)
    ensures |calls| > 1 ==> AlwaysUnauthorized(calls[0], 0) == Raise("401 Unauthorized")
  {
  }
}
