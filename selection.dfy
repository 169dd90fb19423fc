/**
 * The arithmetic behind the pool's selection strategies, on plain values:
 * the round-robin cursor step, the least-recently-used pick, the weighted
 * cumulative-sum draw and the `list.remove` used on the LRU order.
 */
module Selection {
  import opened Base

  // ---------------------------------------------------------------------
  // Round robin
  // ---------------------------------------------------------------------

  /**
   * One round-robin step over `n` candidates: the position handed out and the
   * cursor left behind. The new cursor is always below `n` and is the
   * position after the one handed out, wrapping at the end.
   */
  function RoundRobinPick(cursor: nat, n: nat): (r: (nat, nat))
    requires n > 0
    ensures r.0 < n && r.1 < n
    ensures r.1 == if r.0 == n - 1 then 0 else r.0 + 1
  {
    ModSuccessor(cursor, n);
    (cursor % n, (cursor + 1) % n)
  }

  lemma ModSuccessor(c: nat, n: nat)
    requires n > 0
    ensures (c + 1) % n == if c % n == n - 1 then 0 else c % n + 1
  {
    var q, m := c / n, c % n;
    if m == n - 1 {
      ModUnique(c + 1, n, q + 1, 0);
    } else {
      ModUnique(c + 1, n, q, m + 1);
    }
  }

  /** Euclidean division has one quotient and one remainder. */
  lemma ModUnique(a: int, n: int, q: int, m: int)
    requires n > 0 && 0 <= m < n && a == q * n + m
    ensures a % n == m
  {
    var q' := a / n;
    Distribute(q, q', n);
    if q > q' {
      MulAtLeast(q - q', n);
    } else if q < q' {
      MulAtLeast(q' - q, n);
      Distribute(q', q, n);
    }
  }

  lemma Distribute(q: int, q': int, n: int)
    ensures q * n - q' * n == (q - q') * n
  {
  }

  lemma MulAtLeast(d: int, n: int)
    requires d >= 1 && n > 0
    ensures d * n >= n
  {
  }

  // ---------------------------------------------------------------------
  // Least recently used
  // ---------------------------------------------------------------------

  /**
   * The order `sorted` uses on `last_used`: a key never used (None, sorted as
   * `datetime.min`) comes before every used key.
   */
  predicate NotAfter(a: Option<Time>, b: Option<Time>) {
    a.None? || (b.Some? && a.value <= b.value)
  }

  /**
   * The position `sorted(..., key=last_used)[0]` picks. Python's sort is
   * stable, so it is the FIRST position holding a least value.
   */
  function LeastRecent(lastUsed: seq<Option<Time>>): (i: nat)
    requires |lastUsed| > 0
    ensures i < |lastUsed|
    ensures forall j :: 0 <= j < |lastUsed| ==> NotAfter(lastUsed[i], lastUsed[j])
    ensures forall j :: 0 <= j < i ==> !NotAfter(lastUsed[j], lastUsed[i])
  {
    if |lastUsed| == 1 then 0
    else
      var init := lastUsed[..|lastUsed| - 1];
      var j := LeastRecent(init);
      assert forall k :: 0 <= k < |init| ==> init[k] == lastUsed[k];
      if NotAfter(lastUsed[j], lastUsed[|lastUsed| - 1]) then j else |lastUsed| - 1
  }

  // ---------------------------------------------------------------------
  // Random draws
  // ---------------------------------------------------------------------

  /**
   * The random numbers one selection may consume: `random.random()` (in
   * [0, 1)) and an index that `random.choice` reduces modulo the number of
   * candidates.
   */
  datatype Draw = Draw(fraction: real, pick: nat)

  // ---------------------------------------------------------------------
  // Weighted draw
  // ---------------------------------------------------------------------

  /** The sum of the first `k` weights, added left to right as `cumulative` is. */
  function PrefixSum(w: seq<real>, k: nat): (sum: real)
    requires k <= |w|
  {
    if k == 0 then 0.0 else PrefixSum(w, k - 1) + w[k - 1]
  }

  function Total(w: seq<real>): (sum: real) {
    PrefixSum(w, |w|)
  }

  /**
   * The position the cumulative-sum loop of `_select_weighted` stops at when
   * it starts looking at position `k`: the first position whose running sum
   * reaches `r`, or the last position when none does (the loop's fallback).
   */
  function FirstReaching(w: seq<real>, r: real, k: nat): (i: nat)
    requires k < |w|
    decreases |w| - k
    ensures k <= i < |w|
    ensures forall j :: k < j <= i ==> PrefixSum(w, j) < r
    ensures r <= PrefixSum(w, i + 1) || i == |w| - 1
  {
    if r <= PrefixSum(w, k + 1) || k == |w| - 1 then k else FirstReaching(w, r, k + 1)
  }

  function WeightedPick(w: seq<real>, r: real): (i: nat)
    requires |w| > 0
  {
    FirstReaching(w, r, 0)
  }

  /** The loop of `_select_weighted`: accumulate weights until the draw `r` is reached. */
  method WeightedIndex(w: seq<real>, r: real) returns (i: nat)
    requires |w| > 0
    ensures i == WeightedPick(w, r)
  {
    var cumulative := 0.0;
    i := 0;
    while i < |w|
      invariant i <= |w|
      invariant cumulative == PrefixSum(w, i)
      invariant i < |w| ==> FirstReaching(w, r, i) == FirstReaching(w, r, 0)
      invariant i == |w| ==> FirstReaching(w, r, 0) == |w| - 1
    {
      cumulative := cumulative + w[i];
      if r <= cumulative {
        return;
      }
      i := i + 1;
    }
    i := |w| - 1;
  }

  /**
   * The candidate position `_select_weighted` draws from the weights: uniform
   * when they sum to zero, otherwise where the draw scaled to the total lands.
   */
  function WeightedChoice(w: seq<real>, d: Draw): (j: nat)
    requires |w| > 0
    ensures j < |w|
  {
    var total := Total(w);
    if total == 0.0 then d.pick % |w| else WeightedPick(w, d.fraction * total)
  }


  /** The draw of `_select_weighted` over the computed weights. */
  method WeightedDraw(w: seq<real>, d: Draw) returns (j: nat)
    requires |w| > 0
    ensures j == WeightedChoice(w, d)
  {
    var total := Total(w);
    if total == 0.0 {
      return d.pick % |w|;
    }
    var r := d.fraction * total;
    j := WeightedIndex(w, r);
  }

  /**
   * With non-negative weights and a draw in `[0, total)` the loop always stops
   * on a position whose running sum reaches the draw (its fallback is never
   * needed), and a positive draw never lands on a zero-weight position.
   */
  lemma {:induction false} WeightedPickInRange(w: seq<real>, r: real)
    requires |w| > 0
    requires forall j :: 0 <= j < |w| ==> w[j] >= 0.0
    requires 0.0 <= r < Total(w)
    ensures var i := WeightedPick(w, r);
      PrefixSum(w, i) <= r <= PrefixSum(w, i + 1) && (r > 0.0 ==> w[i] > 0.0)
  {
    var i := WeightedPick(w, r);
    if i == |w| - 1 {
      assert r < PrefixSum(w, i + 1);
    }
    if i > 0 {
      assert 0 < i <= i;
    }
  }

  /** With a single candidate every draw picks it. */
  lemma WeightedPickSingle(w: seq<real>, r: real)
    requires |w| == 1
    ensures WeightedPick(w, r) == 0
  {
  }

  // ---------------------------------------------------------------------
  // list.remove
  // ---------------------------------------------------------------------

  /** `list.remove(x)` guarded by `x in list`: drops the first occurrence, if any. */
  function RemoveFirst<T(==)>(s: seq<T>, x: T): (r: seq<T>)
    ensures multiset(r) == multiset(s) - multiset{x}
    ensures x !in s ==> r == s
  {
    if s == [] then []
    else if s[0] == x then
      assert s == [s[0]] + s[1..];
      s[1..]
    else
      assert s == [s[0]] + s[1..];
      [s[0]] + RemoveFirst(s[1..], x)
  }

  /** What is removed is the first occurrence: the part before it is kept, and so is the part after it. */
  lemma {:induction false} RemoveFirstDropsFirstOccurrence<T>(s: seq<T>, x: T, i: nat)
    requires i < |s| && s[i] == x && x !in s[..i]
    ensures RemoveFirst(s, x) == s[..i] + s[i + 1..]
  {
    if i > 0 {
      assert s[0] != x by { assert s[0] == s[..i][0]; }
      assert x !in s[1..][..i - 1] by { assert s[1..][..i - 1] == s[1..i]; }
      RemoveFirstDropsFirstOccurrence(s[1..], x, i - 1);
      assert s[..i] == [s[0]] + s[1..][..i - 1];
      assert s[i + 1..] == s[1..][i..];
    }
  }
}
