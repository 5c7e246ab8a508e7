/**
 The token bucket of the Rust service (rust/src/ratelimit.rs). Time is in seconds and, like
 the token counts, a real number; only the truncation of the retry time to whole milliseconds is kept.
 */
module RateLimit {
  import opened Common

  datatype Limits = Limits(capacity: int, refillPerSec: real) {
    /** What RateLimiter::new asserts. */
    predicate Valid() { capacity > 0 && refillPerSec > 0.0 }
  }

  datatype Bucket = Bucket(tokens: real, lastSeen: real)

  datatype Answer = Answer(allowed: bool, remaining: real, retryMs: int)

  function Min(a: real, b: real): real {
    if a < b then a else b
  }

  /** The tokens that flow in within a stretch of time. */
  function Flow(l: Limits, time: real): real {
    time * l.refillPerSec
  }

  lemma FlowAdds(l: Limits, a: real, b: real)
    requires l.Valid()
    ensures Flow(l, a + b) == Flow(l, a) + Flow(l, b)
  {}

  lemma FlowIsPositive(l: Limits, a: real)
    requires l.Valid() && a >= 0.0
    ensures Flow(l, a) >= 0.0
  {}

  /** The tokens a bucket holds at time `now`; a key never seen has a full bucket. */
  function Level(l: Limits, b: Option<Bucket>, now: real): real {
    match b
    case None => l.capacity as real
    case Some(b) =>
      if now > b.lastSeen then Min(b.tokens + Flow(l, now - b.lastSeen), l.capacity as real) else b.tokens
  }

  /** One call: the bucket it leaves and the answer it gives. */
  function Decide(l: Limits, b: Option<Bucket>, now: real): (Bucket, Answer)
    requires l.Valid()
  {
    var tokens := Level(l, b, now);
    if tokens < 1.0 then
      (Bucket(tokens, now), Answer(false, 0.0, ((1.0 - tokens) / l.refillPerSec * 1000.0).Floor))
    else (Bucket(tokens - 1.0, now), Answer(true, tokens - 1.0, 0))
  }

  function Get(m: map<string, Bucket>, k: string): Option<Bucket> {
    if k in m then Some(m[k]) else None
  }

  class RateLimiter {
    const limits: Limits
    var buckets: map<string, Bucket>

    constructor (limits: Limits)
      requires limits.Valid()
      ensures this.limits == limits && buckets == map[]
    {
      this.limits := limits;
      buckets := map[];
    }

    method Allow(key: string, now: real) returns (a: Answer)
      requires limits.Valid()
      modifies this
      ensures buckets == old(buckets)[key := Decide(limits, Get(old(buckets), key), now).0]
      ensures a == Decide(limits, Get(old(buckets), key), now).1
    {
      var b := if key in buckets then buckets[key] else Bucket(limits.capacity as real, now);
      var elapsed := now - b.lastSeen;
      if elapsed > 0.0 {
        b := b.(tokens := Min(b.tokens + elapsed * limits.refillPerSec, limits.capacity as real));
      }
      b := b.(lastSeen := now);
      if b.tokens < 1.0 {
        var need := 1.0 - b.tokens;
        var retrySecs := need / limits.refillPerSec;
        buckets := buckets[key := b];
        return Answer(false, 0.0, (retrySecs * 1000.0).Floor);
      }
      b := b.(tokens := b.tokens - 1.0);
      buckets := buckets[key := b];
      return Answer(true, b.tokens, 0);
    }
  }

  // ---------------------------------------------------------------- runs

  datatype Call = Call(key: string, at: real)

  /** The buckets after a list of calls on a new limiter. */
  function After(l: Limits, calls: seq<Call>): map<string, Bucket>
    requires l.Valid()
  {
    if calls == [] then map[]
    else
      var n := |calls| - 1;
      var before := After(l, calls[..n]);
      before[calls[n].key := Decide(l, Get(before, calls[n].key), calls[n].at).0]
  }

  function AnswerAt(l: Limits, calls: seq<Call>, i: nat): Answer
    requires l.Valid() && i < |calls|
  {
    Decide(l, Get(After(l, calls[..i]), calls[i].key), calls[i].at).1
  }

  ghost predicate InOrder(calls: seq<Call>) {
    forall i, j :: 0 <= i <= j < |calls| ==> calls[i].at <= calls[j].at
  }

  /** How many of the calls i..j are allowed calls on k. */
  function Allowed(l: Limits, calls: seq<Call>, k: string, i: nat, j: nat): nat
    requires l.Valid() && i <= j <= |calls|
    decreases j
  {
    if i == j then 0
    else Allowed(l, calls, k, i, j - 1) + (if calls[j - 1].key == k && AnswerAt(l, calls, j - 1).allowed then 1 else 0)
  }

  lemma AfterStep(l: Limits, calls: seq<Call>, j: nat)
    requires l.Valid() && j < |calls|
    ensures After(l, calls[..j + 1]) ==
            After(l, calls[..j])[calls[j].key := Decide(l, Get(After(l, calls[..j]), calls[j].key), calls[j].at).0]
  {
    assert calls[..j + 1][..j] == calls[..j];
  }

  /** Tokens stay between 0 and the capacity, and no bucket was last seen after the last call. */
  lemma {:induction false} TokensInRange(l: Limits, calls: seq<Call>, k: string)
    requires l.Valid() && InOrder(calls) && k in After(l, calls)
    ensures 0.0 <= After(l, calls)[k].tokens <= l.capacity as real
    ensures calls != [] && After(l, calls)[k].lastSeen <= calls[|calls| - 1].at
  {
    var n := |calls| - 1;
    var before := calls[..n];
    if k in After(l, before) { TokensInRange(l, before, k); }
    if calls[n].key == k { LevelInRange(l, Get(After(l, before), k), calls[n].at); }
  }

  lemma LevelInRange(l: Limits, b: Option<Bucket>, now: real)
    requires l.Valid() && (b.Some? ==> 0.0 <= b.value.tokens <= l.capacity as real)
    ensures 0.0 <= Level(l, b, now) <= l.capacity as real
  {
    hide Flow;
    if b.Some? && now > b.value.lastSeen { FlowIsPositive(l, now - b.value.lastSeen); }
  }

  lemma LevelGrows(l: Limits, b: Option<Bucket>, t: real, t': real)
    requires l.Valid() && t <= t' && (b.Some? ==> b.value.lastSeen <= t)
    ensures Level(l, b, t') <= Level(l, b, t) + Flow(l, t' - t)
  {
    hide Flow;
    FlowIsPositive(l, t' - t);
    if b.Some? {
      var s := b.value.lastSeen;
      assert t' - s == (t - s) + (t' - t);
      FlowAdds(l, t - s, t' - t);
    }
  }

  /** The level of k just before call i, seen at time t. */
  function LevelAt(l: Limits, calls: seq<Call>, k: string, i: nat, t: real): real
    requires l.Valid() && i <= |calls|
  {
    Level(l, Get(After(l, calls[..i]), k), t)
  }

  /** An allowed call takes one token from its own key; no other call takes any. */
  lemma Payment(l: Limits, calls: seq<Call>, k: string, j: nat)
    requires l.Valid() && j < |calls|
    ensures LevelAt(l, calls, k, j + 1, calls[j].at) ==
            LevelAt(l, calls, k, j, calls[j].at) - (if calls[j].key == k && AnswerAt(l, calls, j).allowed then 1.0 else 0.0)
  {
    hide Flow, After;
    AfterStep(l, calls, j);
  }

  /** What is allowed is paid for: by what was in the bucket, and by what has flowed in since. */
  lemma {:induction false} Balance(l: Limits, calls: seq<Call>, k: string, i: nat, j: nat, from: real, to: real)
    requires l.Valid() && InOrder(calls) && i <= j <= |calls| && from <= to
    requires i > 0 ==> calls[i - 1].at <= from
    requires forall m :: i <= m < j ==> from <= calls[m].at <= to
    ensures Allowed(l, calls, k, i, j) as real + LevelAt(l, calls, k, j, to) <=
            LevelAt(l, calls, k, i, from) + Flow(l, to - from)
    decreases j
  {
    hide Flow, LevelAt, AnswerAt;
    if i == j {
      LevelAtGrows(l, calls, k, i, from, to);
    } else {
      var c := calls[j - 1];
      Balance(l, calls, k, i, j - 1, from, c.at);
      Payment(l, calls, k, j - 1);
      LevelAtGrows(l, calls, k, j, c.at, to);
      assert to - from == (c.at - from) + (to - c.at);
      FlowAdds(l, c.at - from, to - c.at);
    }
  }

  lemma LevelAtGrows(l: Limits, calls: seq<Call>, k: string, i: nat, t: real, t': real)
    requires l.Valid() && InOrder(calls) && i <= |calls| && t <= t'
    requires i > 0 ==> calls[i - 1].at <= t
    ensures LevelAt(l, calls, k, i, t') <= LevelAt(l, calls, k, i, t) + Flow(l, t' - t)
  {
    hide Flow, After, Level;
    var b := Get(After(l, calls[..i]), k);
    if b.Some? { TokensInRange(l, calls[..i], k); }
    LevelGrows(l, b, t, t');
  }

  /**
   The bound: whatever the traffic, the calls allowed for one key within any stretch of time of
   length T are at most capacity + refill * T.
   */
  lemma {:induction false} AllowedIsBounded(l: Limits, calls: seq<Call>, k: string, i: nat, j: nat, from: real, T: real)
    requires l.Valid() && InOrder(calls) && i <= j <= |calls| && T >= 0.0
    requires forall m :: i <= m < j ==> from <= calls[m].at <= from + T
    ensures Allowed(l, calls, k, i, j) as real <= l.capacity as real + Flow(l, T)
  {
    hide Flow, After, Allowed;
    FlowIsPositive(l, T);
    if i < j {
      var start := calls[i].at;
      Balance(l, calls, k, i, j, start, from + T);
      BucketInRange(l, calls, k, i, start);
      BucketInRange(l, calls, k, j, from + T);
      assert T == (from + T - start) + (start - from);
      FlowAdds(l, from + T - start, start - from);
      FlowIsPositive(l, start - from);
    } else {
      NoneAllowed(l, calls, k, i);
    }
  }

  lemma NoneAllowed(l: Limits, calls: seq<Call>, k: string, i: nat)
    requires l.Valid() && i <= |calls|
    ensures Allowed(l, calls, k, i, i) == 0
  {}

  lemma BucketInRange(l: Limits, calls: seq<Call>, k: string, i: nat, t: real)
    requires l.Valid() && InOrder(calls) && i <= |calls|
    ensures 0.0 <= LevelAt(l, calls, k, i, t) <= l.capacity as real
  {
    hide Flow, After, Level;
    var b := Get(After(l, calls[..i]), k);
    if b.Some? { TokensInRange(l, calls[..i], k); }
    LevelInRange(l, b, t);
  }

  // ---------------------------------------------------------------- what has to be allowed

  /** How many of the calls i..j are calls on k. */
  function CallsOn(calls: seq<Call>, k: string, i: nat, j: nat): nat
    requires i <= j <= |calls|
    decreases j
  {
    if i == j then 0 else CallsOn(calls, k, i, j - 1) + (if calls[j - 1].key == k then 1 else 0)
  }

  /** Up to call i the key was not called, or not within the time in which an empty bucket fills up. */
  ghost predicate Rested(l: Limits, calls: seq<Call>, k: string, i: nat, t: real)
    requires l.Valid() && i <= |calls|
  {
    forall m :: 0 <= m < i && calls[m].key == k ==> t - calls[m].at >= l.capacity as real / l.refillPerSec
  }

  /** A bucket was last seen at a call on its key. */
  lemma {:induction false} SeenAtACall(l: Limits, calls: seq<Call>, k: string) returns (m: nat)
    requires l.Valid() && k in After(l, calls)
    ensures m < |calls| && calls[m].key == k && calls[m].at == After(l, calls)[k].lastSeen
  {
    var n := |calls| - 1;
    if calls[n].key == k { m := n; } else { m := SeenAtACall(l, calls[..n], k); }
  }

  lemma {:induction false} RestedIsFull(l: Limits, calls: seq<Call>, k: string, i: nat, t: real)
    requires l.Valid() && InOrder(calls) && i <= |calls| && Rested(l, calls, k, i, t)
    ensures LevelAt(l, calls, k, i, t) == l.capacity as real
  {
    hide After, Flow;
    var b := Get(After(l, calls[..i]), k);
    if b.Some? {
      TokensInRange(l, calls[..i], k);
      var m := SeenAtACall(l, calls[..i], k);
      assert calls[m].key == k && calls[m].at == b.value.lastSeen;
      EnoughFlow(l, l.capacity as real, t - b.value.lastSeen);
    }
  }

  /** A burst of calls at one instant empties a full bucket token by token. */
  lemma {:induction false} BurstLevel(l: Limits, calls: seq<Call>, k: string, i: nat, j: nat, t: real)
    requires l.Valid() && InOrder(calls) && i <= j <= |calls| && Rested(l, calls, k, i, t)
    requires forall m :: i <= m < j && calls[m].key == k ==> calls[m].at == t
    ensures var n := CallsOn(calls, k, i, j);
            LevelAt(l, calls, k, j, t) == if n < l.capacity then (l.capacity - n) as real else 0.0
    decreases j
  {
    hide After, Flow, Level, Rested;
    if i == j {
      RestedIsFull(l, calls, k, i, t);
    } else {
      BurstLevel(l, calls, k, i, j - 1, t);
      var c := calls[j - 1];
      if c.key == k {
        Payment(l, calls, k, j - 1);
        AllowedIffToken(l, calls, j - 1);
      } else {
        UntouchedBucket(l, calls, k, j - 1, j);
      }
    }
  }

  lemma AllowedIffToken(l: Limits, calls: seq<Call>, j: nat)
    requires l.Valid() && j < |calls|
    ensures var level := LevelAt(l, calls, calls[j].key, j, calls[j].at);
            (AnswerAt(l, calls, j).allowed <==> level >= 1.0) &&
            AnswerAt(l, calls, j).remaining == (if level >= 1.0 then level - 1.0 else 0.0) &&
            (level >= 1.0 ==> AnswerAt(l, calls, j).retryMs == 0)
  {}

  /**
   What has to be allowed: of the calls at one instant on a key that was never called, or not within the time in
   which an empty bucket fills up, the first `capacity` are allowed, and no other one; each answer says what remains, and an allowed call has no time to wait.
   */
  lemma {:induction false} BurstIsAllowedIff(l: Limits, calls: seq<Call>, i: nat, j: nat)
    requires l.Valid() && InOrder(calls) && i <= j < |calls| && Rested(l, calls, calls[j].key, i, calls[j].at)
    requires forall m :: i <= m < j && calls[m].key == calls[j].key ==> calls[m].at == calls[j].at
    ensures var n := CallsOn(calls, calls[j].key, i, j);
            (AnswerAt(l, calls, j).allowed <==> n < l.capacity) &&
            AnswerAt(l, calls, j).remaining == (if n < l.capacity then (l.capacity - n - 1) as real else 0.0) &&
            (n < l.capacity ==> AnswerAt(l, calls, j).retryMs == 0)
  {
    hide AnswerAt, LevelAt, CallsOn;
    BurstLevel(l, calls, calls[j].key, i, j, calls[j].at);
    AllowedIffToken(l, calls, j);
  }

  /** So a burst gets just what the bound leaves it: the capacity, or all of its calls. */
  lemma {:induction false} BurstReachesBound(l: Limits, calls: seq<Call>, k: string, i: nat, j: nat, t: real)
    requires l.Valid() && InOrder(calls) && i <= j <= |calls| && Rested(l, calls, k, i, t)
    requires forall m :: i <= m < j && calls[m].key == k ==> calls[m].at == t
    ensures var n := CallsOn(calls, k, i, j);
            Allowed(l, calls, k, i, j) == if n < l.capacity then n else l.capacity
    decreases j
  {
    hide AnswerAt, Rested;
    if i < j {
      BurstReachesBound(l, calls, k, i, j - 1, t);
      if calls[j - 1].key == k { BurstIsAllowedIff(l, calls, i, j - 1); }
    }
  }

  // ---------------------------------------------------------------- keys do not interfere

  function OnlyKey(calls: seq<Call>, k: string): seq<Call> {
    if calls == [] then []
    else
      var n := |calls| - 1;
      OnlyKey(calls[..n], k) + (if calls[n].key == k then [calls[n]] else [])
  }

  lemma {:induction false} BucketOfOwnCalls(l: Limits, calls: seq<Call>, k: string)
    requires l.Valid()
    ensures Get(After(l, calls), k) == Get(After(l, OnlyKey(calls, k)), k)
  {
    if calls != [] {
      hide After, Decide;
      var n := |calls| - 1;
      var own := OnlyKey(calls[..n], k);
      assert calls[..n + 1] == calls;
      AfterStep(l, calls, n);
      BucketOfOwnCalls(l, calls[..n], k);
      if calls[n].key == k {
        var all := own + [calls[n]];
        assert all[..|own|] == own && all[..|own| + 1] == all;
        AfterStep(l, all, |own|);
      } else {
        assert OnlyKey(calls, k) == own + [] == own;
      }
    }
  }

  /** A call is answered as if the calls on its own key were the only ones ever made. */
  lemma {:induction false} OtherKeysDoNotMatter(l: Limits, calls: seq<Call>, i: nat)
    requires l.Valid() && i < |calls|
    ensures var own := OnlyKey(calls[..i], calls[i].key) + [calls[i]];
            AnswerAt(l, calls, i) == AnswerAt(l, own, |own| - 1)
  {
    BucketOfOwnCalls(l, calls[..i], calls[i].key);
    var before := OnlyKey(calls[..i], calls[i].key);
    assert (before + [calls[i]])[..|before|] == before;
  }

  // ---------------------------------------------------------------- the retry time

  lemma {:induction false} UntouchedBucket(l: Limits, calls: seq<Call>, k: string, i: nat, j: nat)
    requires l.Valid() && i <= j <= |calls|
    requires forall m :: i <= m < j ==> calls[m].key != k
    ensures Get(After(l, calls[..j]), k) == Get(After(l, calls[..i]), k)
    decreases j
  {
    if i < j {
      AfterStep(l, calls, j - 1);
      UntouchedBucket(l, calls, k, i, j - 1);
    }
  }

  /** The exact time, in seconds, that call i found missing. */
  function Wait(l: Limits, calls: seq<Call>, i: nat): real
    requires l.Valid() && i < |calls|
  {
    (1.0 - LevelAt(l, calls, calls[i].key, i, calls[i].at)) / l.refillPerSec
  }

  /** A key that was denied at call i and is called next at call j is allowed then iff the exact wait is over. */
  lemma {:induction false} NextAnswer(l: Limits, calls: seq<Call>, i: nat, j: nat)
    requires l.Valid() && InOrder(calls) && i < j < |calls| && calls[i].key == calls[j].key
    requires !AnswerAt(l, calls, i).allowed && forall m :: i < m < j ==> calls[m].key != calls[i].key
    ensures AnswerAt(l, calls, j).allowed <==> calls[j].at - calls[i].at >= Wait(l, calls, i)
    ensures AnswerAt(l, calls, i).retryMs == (Wait(l, calls, i) * 1000.0).Floor && Wait(l, calls, i) > 0.0
  {
    hide After, Flow;
    var k, t, t' := calls[i].key, calls[i].at, calls[j].at;
    AfterStep(l, calls, i);
    UntouchedBucket(l, calls, k, i + 1, j);
    var tokens := LevelAt(l, calls, k, i, t);
    assert Get(After(l, calls[..j]), k) == Some(Bucket(tokens, t));
    EnoughFlow(l, 1.0 - tokens, t' - t);
  }

  lemma EnoughFlow(l: Limits, need: real, time: real)
    requires l.Valid() && need > 0.0
    ensures time >= need / l.refillPerSec <==> Flow(l, time) >= need
    ensures need / l.refillPerSec > 0.0 && Flow(l, 0.0) == 0.0
  {
    var rate, q := l.refillPerSec, need / l.refillPerSec;
    assert q * rate == need;
    if time >= q { assert (time - q) * rate >= 0.0; }
    else { assert (q - time) * rate > 0.0; }
  }

  /** After a denial with retry r ms, a call sooner than r ms later is denied, and one at least r + 1 ms later is allowed. */
  lemma {:induction false} RetryIsSharp(l: Limits, calls: seq<Call>, i: nat, j: nat)
    requires l.Valid() && InOrder(calls) && i < j < |calls| && calls[i].key == calls[j].key
    requires !AnswerAt(l, calls, i).allowed && forall m :: i < m < j ==> calls[m].key != calls[i].key
    ensures var r := AnswerAt(l, calls, i).retryMs;
            var waitedMs := (calls[j].at - calls[i].at) * 1000.0;
            (waitedMs < r as real ==> !AnswerAt(l, calls, j).allowed) &&
            (waitedMs >= (r + 1) as real ==> AnswerAt(l, calls, j).allowed)
  {
    NextAnswer(l, calls, i, j);
  }

  /** The Retry-After header: the truncated milliseconds, rounded up to seconds. */
  function RetryAfter(retryMs: int): int {
    (retryMs + 999) / 1000
  }

  /**
   A client that waits just the seconds of the Retry-After header is let in if and only if the
   truncated time was not a whole number of seconds, or nothing was cut off.
   */
  lemma {:induction false} HeaderSufficesIff(l: Limits, calls: seq<Call>, i: nat, j: nat)
    requires l.Valid() && InOrder(calls) && i < j < |calls| && calls[i].key == calls[j].key
    requires !AnswerAt(l, calls, i).allowed && forall m :: i < m < j ==> calls[m].key != calls[i].key
    requires calls[j].at - calls[i].at == RetryAfter(AnswerAt(l, calls, i).retryMs) as real
    ensures var r := AnswerAt(l, calls, i).retryMs;
            AnswerAt(l, calls, j).allowed <==> r % 1000 != 0 || Wait(l, calls, i) * 1000.0 == r as real
  {
    hide AnswerAt, Wait, RetryAfter;
    NextAnswer(l, calls, i, j);
    HeaderCovers(AnswerAt(l, calls, i).retryMs, Wait(l, calls, i));
  }

  lemma HeaderCovers(r: int, wait: real)
    requires r == (wait * 1000.0).Floor
    ensures RetryAfter(r) as real >= wait <==> r % 1000 != 0 || wait * 1000.0 == r as real
  {
    var h := RetryAfter(r);
    assert h * 1000 >= r && (r % 1000 == 0 ==> h * 1000 == r) && (r % 1000 != 0 ==> h * 1000 > r);
    assert h as real * 1000.0 == (h * 1000) as real;
  }

  /** A header that is too short: half a millisecond is missing, zero seconds are announced, and a call after zero seconds is denied. */
  lemma {:induction false} HeaderCanBeTooShort(k: string)
    ensures var l, calls := Limits(1, 1.0), [Call(k, 0.0), Call(k, 0.9995), Call(k, 0.9995)];
            InOrder(calls) && !AnswerAt(l, calls, 1).allowed &&
            Wait(l, calls, 1) == 0.0005 && RetryAfter(AnswerAt(l, calls, 1).retryMs) == 0 && !AnswerAt(l, calls, 2).allowed
  {
    var l, calls := Limits(1, 1.0), [Call(k, 0.0), Call(k, 0.9995), Call(k, 0.9995)];
    assert calls[..0] == [] && After(l, []) == map[];
    AfterStep(l, calls, 0);
    assert Get(After(l, calls[..1]), k) == Some(Bucket(0.0, 0.0));
    assert Level(l, Some(Bucket(0.0, 0.0)), 0.9995) == 0.9995;
    assert (0.0005 * 1000.0).Floor == 0;
    NextAnswer(l, calls, 1, 2);
  }
}
