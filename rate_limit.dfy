/**
 * `detect_rate_limit_error` from src/key_rotation.py: an exception counts as
 * a rate limit when its lower-cased text contains one of five indicator
 * phrases, and the reset instant is then always an hour from now. Also the
 * authentication test the retry loop applies to other errors.
 */
module RateLimit {
  import opened Base

  /** Python's `str.lower` on ASCII letters; every other character is kept. */
  function LowerChar(c: char): (l: char)
    ensures 'A' <= c <= 'Z' ==> l as int == c as int + 32
    ensures !('A' <= c <= 'Z') ==> l == c
    ensures !('A' <= l <= 'Z')
  {
    if 'A' <= c <= 'Z' then (c as int + 32) as char else c
  }

  /** `str.lower` on ASCII: no upper-case letter is left, and every other character stays where it was. */
  function Lower(s: string): (r: string)
    ensures |r| == |s| && forall i :: 0 <= i < |s| ==> r[i] == LowerChar(s[i])
    ensures forall i :: 0 <= i < |r| ==> !('A' <= r[i] <= 'Z')
    ensures forall i :: 0 <= i < |s| && !('A' <= s[i] <= 'Z') ==> r[i] == s[i]
  {
    seq(|s|, i requires 0 <= i < |s| => LowerChar(s[i]))
  }

  /** Python's `sub in s`: `sub` occurs as a contiguous run of `s` (the empty string occurs everywhere). */
  predicate Contains(s: string, sub: string)
    decreases |s|
  {
    if |sub| > |s| then false
    else if s[..|sub|] == sub then true
    else s != [] && Contains(s[1..], sub)
  }

  /** `sub` occurs in `s` starting at position `i`. */
  predicate OccursAt(s: string, sub: string, i: nat) {
    i + |sub| <= |s| && s[i..i + |sub|] == sub
  }

  const RATE_LIMIT_INDICATORS: seq<string> :=
    ["rate limit", "429", "too many requests", "quota exceeded", "throttled"]

  /** `any(indicator in text for indicator in indicators)`. */
  predicate AnyIndicator(text: string, indicators: seq<string>) {
    |indicators| > 0 && (Contains(text, indicators[0]) || AnyIndicator(text, indicators[1..]))
  }

  /** `detect_rate_limit_error` on the exception's text: the verdict, and a reset an hour on when it is a rate limit. */
  function DetectRateLimitError(message: string, now: Time): (r: (bool, Option<Time>))
    ensures r.0 <==> exists k :: 0 <= k < |RATE_LIMIT_INDICATORS| && Contains(Lower(message), RATE_LIMIT_INDICATORS[k])
    ensures r.1.Some? <==> r.0
    ensures r.0 ==> r.1 == Some(now + HOUR)
  {
    var text := Lower(message);
    AnyIndicatorExists(text, RATE_LIMIT_INDICATORS);
    if AnyIndicator(text, RATE_LIMIT_INDICATORS) then (true, Some(now + HOUR)) else (false, None)
  }

  /** The retry loop's test for an authentication failure: `"401"` or `"403"` in the text, as written. */
  predicate IsAuthFailure(message: string) {
    Contains(message, "401") || Contains(message, "403")
  }

  // ---------------------------------------------------------------------
  // Properties
  // ---------------------------------------------------------------------

  /** `any` over the indicators holds exactly when one of them is contained. */
  lemma {:induction false} AnyIndicatorExists(text: string, indicators: seq<string>)
    ensures AnyIndicator(text, indicators) <==> exists k :: 0 <= k < |indicators| && Contains(text, indicators[k])
  {
    if |indicators| > 0 {
      AnyIndicatorExists(text, indicators[1..]);
      if exists k :: 0 <= k < |indicators| && Contains(text, indicators[k]) {
        var k :| 0 <= k < |indicators| && Contains(text, indicators[k]);
        if k > 0 {
          assert indicators[1..][k - 1] == indicators[k];
        }
      }
      if AnyIndicator(text, indicators[1..]) {
        var k :| 0 <= k < |indicators[1..]| && Contains(text, indicators[1..][k]);
        assert indicators[k + 1] == indicators[1..][k];
      }
    }
  }

  /** `Contains` agrees with the positional definition of a substring. */
  lemma {:induction false} ContainsAt(s: string, sub: string)
    ensures Contains(s, sub) <==> exists i: nat :: OccursAt(s, sub, i)
  {
    if |sub| > |s| {
    } else if s[..|sub|] == sub {
      assert OccursAt(s, sub, 0);
    } else if s == [] {
    } else {
      ContainsAt(s[1..], sub);
      if Contains(s, sub) {
        var i: nat :| OccursAt(s[1..], sub, i);
        assert s[1..][i..i + |sub|] == s[i + 1..i + 1 + |sub|];
        assert OccursAt(s, sub, i + 1);
      }
      if exists i: nat :: OccursAt(s, sub, i) {
        var i: nat :| OccursAt(s, sub, i);
        assert i != 0;
        assert s[1..][i - 1..i - 1 + |sub|] == s[i..i + |sub|];
        assert OccursAt(s[1..], sub, i - 1);
      }
    }
  }

  /** A text containing a phrase still contains it with anything put before or after it. */
  lemma ContainsExtended(pre: string, s: string, post: string, sub: string)
    requires Contains(s, sub)
    ensures Contains(pre + s + post, sub)
  {
    ContainsAt(s, sub);
    var i: nat :| OccursAt(s, sub, i);
    assert (pre + s + post)[|pre| + i..|pre| + i + |sub|] == s[i..i + |sub|];
    assert OccursAt(pre + s + post, sub, |pre| + i);
    ContainsAt(pre + s + post, sub);
  }

  /** Every character of a contained phrase is a character of the text. */
  lemma CharsOfContained(s: string, sub: string, c: char)
    requires Contains(s, sub) && c in sub
    ensures c in s
  {
    ContainsAt(s, sub);
    var i: nat :| OccursAt(s, sub, i);
    var j :| 0 <= j < |sub| && sub[j] == c;
    assert s[i + j] == s[i..i + |sub|][j];
  }

  /** Lower-casing is idempotent, so detection does not depend on the message's case. */
  lemma DetectionIgnoresCase(message: string, now: Time)
    ensures Lower(Lower(message)) == Lower(message)
    ensures DetectRateLimitError(Lower(message), now) == DetectRateLimitError(message, now)
  {
    assert Lower(Lower(message)) == Lower(message);
  }

  /** A detected rate limit stays detected whatever text surrounds the message. */
  lemma DetectionSurvivesContext(pre: string, message: string, post: string, now: Time)
    requires DetectRateLimitError(message, now).0
    ensures DetectRateLimitError(pre + message + post, now).0
  {
    var k :| 0 <= k < |RATE_LIMIT_INDICATORS| && Contains(Lower(message), RATE_LIMIT_INDICATORS[k]);
    assert Lower(pre + message + post) == Lower(pre) + Lower(message) + Lower(post);
    ContainsExtended(Lower(pre), Lower(message), Lower(post), RATE_LIMIT_INDICATORS[k]);
  }

  /** The rate-limit messages of the test suite are detected, each with a reset. */
  lemma TooManyRequestsDetected(now: Time)
    ensures DetectRateLimitError("429 Too Many Requests", now) == (true, Some(now + HOUR))
  {
    Detected("429 Too Many Requests", 1, 0, now);
  }

  lemma RateLimitExceededDetected(now: Time)
    ensures DetectRateLimitError("Rate limit exceeded", now) == (true, Some(now + HOUR))
  {
    Detected("Rate limit exceeded", 0, 0, now);
  }

  lemma QuotaExceededDetected(now: Time)
    ensures DetectRateLimitError("API quota exceeded", now) == (true, Some(now + HOUR))
  {
    Detected("API quota exceeded", 3, 4, now);
  }

  lemma ThrottledDetected(now: Time)
    ensures DetectRateLimitError("Request throttled", now) == (true, Some(now + HOUR))
  {
    Detected("Request throttled", 4, 8, now);
  }

  /** A message is detected when indicator `k` appears, lower-cased, at position `i`. */
  lemma Detected(message: string, k: nat, i: nat, now: Time)
    requires k < |RATE_LIMIT_INDICATORS| && i + |RATE_LIMIT_INDICATORS[k]| <= |message|
    requires forall j :: 0 <= j < |RATE_LIMIT_INDICATORS[k]| ==> LowerChar(message[i + j]) == RATE_LIMIT_INDICATORS[k][j]
    ensures DetectRateLimitError(message, now) == (true, Some(now + HOUR))
  {
    var text, indicator := Lower(message), RATE_LIMIT_INDICATORS[k];
    assert text[i..i + |indicator|] == indicator;
    assert OccursAt(text, indicator, i);
    ContainsAt(text, indicator);
  }

  /**
   * The other messages of the test suite are not rate limits and carry no
   * reset, one lemma per message (each an instance of `NotDetected`).
   */
  lemma UnauthorizedNotDetected(now: Time)
    ensures DetectRateLimitError("401 Unauthorized", now) == (false, None)
  {
    NotDetected("401 Unauthorized", ['l', '9', 'm', 'q', 'l'], now);
  }

  lemma ServerErrorNotDetected(now: Time)
    ensures DetectRateLimitError("500 Internal Server Error", now) == (false, None)
  {
    NotDetected("500 Internal Server Error", ['m', '4', 'm', 'q', 'h'], now);
  }

  lemma TimeoutNotDetected(now: Time)
    ensures DetectRateLimitError("Network timeout", now) == (false, None)
  {
    NotDetected("Network timeout", ['a', '4', 'a', 'q', 'h'], now);
  }

  /** A message is not detected when each indicator has a character that no character of the message lowers to. */
  lemma NotDetected(message: string, missing: seq<char>, now: Time)
    requires |missing| == |RATE_LIMIT_INDICATORS|
    requires forall k :: 0 <= k < |missing| ==> missing[k] in RATE_LIMIT_INDICATORS[k]
    requires forall k, j :: 0 <= k < |missing| && 0 <= j < |message| ==> LowerChar(message[j]) != missing[k]
    ensures DetectRateLimitError(message, now) == (false, None)
  {
    var lowered := Lower(message);
    forall k | 0 <= k < |RATE_LIMIT_INDICATORS| ensures !Contains(lowered, RATE_LIMIT_INDICATORS[k]) {
      if Contains(lowered, RATE_LIMIT_INDICATORS[k]) {
        CharsOfContained(lowered, RATE_LIMIT_INDICATORS[k], missing[k]);
      }
    }
  }
}
