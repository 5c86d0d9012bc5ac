/** The token-bucket rate limiter of src/lib/rate-limiter.ts: one bucket per model
    type, refilled continuously from the clock, with a process-wide singleton
    holding the buckets. The clock (`Date.now()`) is the parameter `now`, in
    milliseconds; `await setTimeout(w)` resumes at `now + w + lateness`, since a
    timer fires no earlier than asked and possibly later. */
module RateLimit {
  import opened Common

  const MsPerMinute: real := 60000.0

  /** The `RATE_LIMITS` table: requests per minute for each model type. */
  function RequestsPerMinute(modelType: string): (r: Option<nat>)
    ensures r.Some? <==> modelType == "generation" || modelType == "embedding"
    ensures r.Some? ==> r.value > 0
  {
    if modelType == "generation" then Some(15)
    else if modelType == "embedding" then Some(1500)
    else None
  }

  function MinReal(a: real, b: real): (m: real)
    ensures m <= a && m <= b && (m == a || m == b)
  {
    if a <= b then a else b
  }

  /** `Math.ceil` on an exact real. */
  function Ceil(x: real): (r: int)
    ensures x <= r as real < x + 1.0
  {
    -((-x).Floor)
  }

  /** The token count after `refill`: what had accumulated plus `elapsed`
      milliseconds at `rate` tokens per millisecond, capped at `maxTokens`. It
      never exceeds the cap, and with time moving forward it never drops. */
  function Refilled(tokens: real, maxTokens: real, rate: real, elapsed: int): (r: real)
    ensures r <= maxTokens
    ensures r == maxTokens || r == tokens + elapsed as real * rate
    ensures tokens <= maxTokens && elapsed >= 0 && rate >= 0.0 ==> tokens <= r
  {
    MinReal(maxTokens, tokens + elapsed as real * rate)
  }

  lemma MulMonotone(a: real, b: real, c: real)
    requires a <= b && c >= 0.0
    ensures a * c <= b * c
  {
  }

  lemma MulStrict(a: real, b: real, c: real)
    requires a < b && c > 0.0
    ensures a * c < b * c
  {
    assert b * c - a * c == (b - a) * c;
  }

  lemma CeilDivBounds(d: real, rate: real)
    requires d > 0.0 && rate > 0.0
    ensures Ceil(d / rate) >= 1
    ensures Ceil(d / rate) as real * rate >= d
    ensures (Ceil(d / rate) - 1) as real * rate < d
  {
    var x := d / rate;
    var c := Ceil(x);
    assert x * rate == d;
    MulMonotone(x, c as real, rate);
    var a := (c - 1) as real;
    assert a < x;
    MulStrict(a, x, rate);
    calc {
      a * rate;
    <  x * rate;
    == d;
    }
  }

  /** The wait `acquire` and `getWaitTimeMs` compute when `count` exceeds the
      tokens on hand: the whole number of milliseconds that refills the
      shortfall, and not one more. */
  function WaitMs(tokens: real, count: real, rate: real): (w: int)
    requires rate > 0.0 && tokens < count
    ensures w >= 1
    ensures w as real * rate >= count - tokens
    ensures (w - 1) as real * rate < count - tokens
  {
    CeilDivBounds(count - tokens, rate);
    Ceil((count - tokens) / rate)
  }

  /** Waiting at least the computed time refills enough for `count`, provided
      `count` fits in the bucket at all. */
  lemma WaitRefillsEnough(tokens: real, count: real, maxTokens: real, rate: real, elapsed: int)
    requires rate > 0.0 && tokens < count <= maxTokens
    requires elapsed >= WaitMs(tokens, count, rate)
    ensures Refilled(tokens, maxTokens, rate, elapsed) >= count
  {
    MulMonotone(WaitMs(tokens, count, rate) as real, elapsed as real, rate);
  }

  /** A bucket of `src/lib/rate-limiter.ts`. */
  class TokenBucket {
    var tokens: real
    var lastRefill: int
    const maxTokens: real
    /** Tokens per millisecond. */
    const refillRate: real

    ghost predicate Valid()
      reads this
    {
      maxTokens > 0.0 && refillRate == maxTokens / MsPerMinute && tokens <= maxTokens
    }

    /** A new bucket starts full. */
    constructor (requestsPerMinute: nat, now: int)
      requires requestsPerMinute > 0
      ensures Valid()
      ensures maxTokens == requestsPerMinute as real && tokens == maxTokens
      ensures refillRate == requestsPerMinute as real / MsPerMinute && lastRefill == now
    {
      maxTokens := requestsPerMinute as real;
      tokens := requestsPerMinute as real;
      lastRefill := now;
      refillRate := requestsPerMinute as real / MsPerMinute;
    }

    method Refill(now: int)
      requires Valid()
      modifies this
      ensures Valid()
      ensures tokens == Refilled(old(tokens), maxTokens, refillRate, now - old(lastRefill))
      ensures lastRefill == now
      ensures now >= old(lastRefill) ==> tokens >= old(tokens)
    {
      var elapsed := now - lastRefill;
      var tokensToAdd := elapsed as real * refillRate;
      tokens := MinReal(maxTokens, tokens + tokensToAdd);
      lastRefill := now;
    }

    /** Takes `count` tokens: at once when the refilled bucket holds them, and
        otherwise after waiting the computed time, refilling again and going
        below zero if need be. When `count` fits in the bucket the tokens end
        non-negative. */
    method Acquire(count: nat, now: int, lateness: nat) returns (waited: int)
      requires Valid()
      modifies this
      ensures Valid()
      ensures var t := Refilled(old(tokens), maxTokens, refillRate, now - old(lastRefill));
        if t >= count as real then
          waited == 0 && lastRefill == now && tokens == t - count as real
        else
          && waited == WaitMs(t, count as real, refillRate)
          && lastRefill == now + waited + lateness
          && tokens == Refilled(t, maxTokens, refillRate, waited + lateness) - count as real
      ensures count as real <= maxTokens ==> tokens >= 0.0
    {
      Refill(now);
      if tokens >= count as real {
        tokens := tokens - count as real;
        return 0;
      }
      var tokensNeeded := count as real - tokens;
      var waitTime := Ceil(tokensNeeded / refillRate);
      assert waitTime == WaitMs(tokens, count as real, refillRate);
      ghost var before := tokens;
      Refill(now + waitTime + lateness);
      if count as real <= maxTokens {
        WaitRefillsEnough(before, count as real, maxTokens, refillRate, waitTime + lateness);
      }
      tokens := tokens - count as real;
      return waitTime;
    }

    /** `Math.floor` of the refilled token count. */
    method GetAvailableTokens(now: int) returns (n: int)
      requires Valid()
      modifies this
      ensures Valid()
      ensures tokens == Refilled(old(tokens), maxTokens, refillRate, now - old(lastRefill))
      ensures lastRefill == now
      ensures n as real <= tokens < n as real + 1.0
      ensures n as real <= maxTokens
    {
      Refill(now);
      n := tokens.Floor;
    }

    /** 0 exactly when the refilled bucket already holds `count`, and otherwise
        the same wait `Acquire` would sleep. */
    method GetWaitTimeMs(count: nat, now: int) returns (w: int)
      requires Valid()
      modifies this
      ensures Valid()
      ensures tokens == Refilled(old(tokens), maxTokens, refillRate, now - old(lastRefill))
      ensures lastRefill == now
      ensures w == 0 <==> tokens >= count as real
      ensures tokens < count as real ==> w == WaitMs(tokens, count as real, refillRate)
    {
      Refill(now);
      if tokens >= count as real {
        return 0;
      }
      var tokensNeeded := count as real - tokens;
      w := Ceil(tokensNeeded / refillRate);
      assert w == WaitMs(tokens, count as real, refillRate);
    }
  }

  /** `getMinDelayMs`: a tenth more than the even spacing of the type's requests
      over a minute, rounded up; a type outside the table throws. */
  function MinDelayMs(modelType: string): (r: Option<int>)
    ensures r.Some? <==> RequestsPerMinute(modelType).Some?
    ensures r.Some? ==>
      var spacing := MsPerMinute / RequestsPerMinute(modelType).value as real;
      && r.value as real >= spacing * 1.1
      && (r.value - 1) as real < spacing * 1.1
      && r.value as real >= spacing
  {
    match RequestsPerMinute(modelType)
    case None => None
    case Some(rpm) => Some(Ceil((MsPerMinute / rpm as real) * 1.1))
  }

  /** The two configured delays. */
  lemma MinDelayValues()
    ensures MinDelayMs("generation") == Some(4400)
    ensures MinDelayMs("embedding") == Some(44)
  {
    assert (MsPerMinute / 15.0) * 1.1 == 4400.0;
    assert (MsPerMinute / 1500.0) * 1.1 == 44.0;
  }

  /** The `RateLimiter` class: its `Map` from model type to bucket. */
  class RateLimiter {
    var buckets: map<string, TokenBucket>

    ghost predicate Valid()
      reads this, buckets.Values
    {
      && buckets.Keys == {"generation", "embedding"}
      && buckets["generation"] != buckets["embedding"]
      && (forall t :: t in buckets ==>
            buckets[t].Valid() && buckets[t].maxTokens == RequestsPerMinute(t).value as real)
    }

    /** One full bucket per entry of `RATE_LIMITS` (the constructor's loop over
        the two-entry table, unrolled). */
    constructor (now: int)
      ensures Valid() && fresh(buckets.Values)
      ensures forall t :: t in buckets ==> buckets[t].tokens == buckets[t].maxTokens && buckets[t].lastRefill == now
    {
      var generation := new TokenBucket(15, now);
      var embedding := new TokenBucket(1500, now);
      buckets := map["generation" := generation, "embedding" := embedding];
    }

    /** `acquire(modelType, count)`: an unknown type throws; otherwise the type's
        bucket is asked for its wait (clock `now`) and then acquired (clock
        `later`), and no other bucket changes. */
    method Acquire(modelType: string, count: nat, now: int, later: int, lateness: nat)
      returns (r: Result<int>)
      requires Valid()
      modifies buckets.Values
      ensures Valid()
      ensures modelType !in buckets <==> r.Err?
      ensures modelType !in buckets ==> r == Err("Unknown model type: " + modelType)
      ensures modelType in buckets ==>
        var b := buckets[modelType];
        var t0 := Refilled(old(b.tokens), b.maxTokens, b.refillRate, now - old(b.lastRefill));
        var t := Refilled(t0, b.maxTokens, b.refillRate, later - now);
        && (t >= count as real ==> r.value == 0 && b.tokens == t - count as real && b.lastRefill == later)
        && (t < count as real ==>
              && r.value == WaitMs(t, count as real, b.refillRate)
              && b.lastRefill == later + r.value + lateness
              && b.tokens == Refilled(t, b.maxTokens, b.refillRate, r.value + lateness) - count as real)
        && (count as real <= b.maxTokens ==> b.tokens >= 0.0)
      ensures forall t :: t in buckets && t != modelType ==>
        buckets[t].tokens == old(buckets[t].tokens) && buckets[t].lastRefill == old(buckets[t].lastRefill)
    {
      if modelType !in buckets {
        return Err("Unknown model type: " + modelType);
      }
      var bucket := buckets[modelType];
      var waitTime := bucket.GetWaitTimeMs(count, now);
      var waited := bucket.Acquire(count, later, lateness);
      return Ok(waited);
    }

    /** `getOptimalBatchSize`: up to 25 of the embedding bucket's whole tokens,
        1 for generation and for a type without a bucket. */
    method GetOptimalBatchSize(modelType: string, now: int) returns (n: int)
      requires Valid()
      modifies buckets.Values
      ensures Valid()
      ensures n <= 25
      ensures modelType != "embedding" ==> n == 1
      ensures modelType == "embedding" ==>
        var b := buckets["embedding"];
        var t := Refilled(old(b.tokens), b.maxTokens, b.refillRate, now - old(b.lastRefill));
        && n == (if t.Floor < 25 then t.Floor else 25)
        && (now >= old(b.lastRefill) && old(b.tokens) >= 0.0 ==> 0 <= n)
      ensures forall t :: t in buckets && t != "embedding" ==>
        buckets[t].tokens == old(buckets[t].tokens) && buckets[t].lastRefill == old(buckets[t].lastRefill)
    {
      if modelType !in buckets {
        return 1;
      }
      var bucket := buckets[modelType];
      if modelType == "embedding" {
        var available := bucket.GetAvailableTokens(now);
        return if available < 25 then available else 25;
      }
      return 1;
    }

    /** `getAvailableCapacity`: the whole tokens of the type's bucket, 0 when the
        type has none. */
    method GetAvailableCapacity(modelType: string, now: int) returns (n: int)
      requires Valid()
      modifies buckets.Values
      ensures Valid()
      ensures modelType !in buckets ==> n == 0
      ensures modelType in buckets ==>
        var b := buckets[modelType];
        n == Refilled(old(b.tokens), b.maxTokens, b.refillRate, now - old(b.lastRefill)).Floor
      ensures forall t :: t in buckets && t != modelType ==>
        buckets[t].tokens == old(buckets[t].tokens) && buckets[t].lastRefill == old(buckets[t].lastRefill)
    {
      if modelType !in buckets {
        return 0;
      }
      var bucket := buckets[modelType];
      n := bucket.GetAvailableTokens(now);
    }
  }

  /** The static `RateLimiter.instance` field. */
  class LimiterSingleton {
    var instance: RateLimiter?

    constructor ()
      ensures instance == null
    {
      instance := null;
    }

    /** `getInstance`: creates the limiter on first use and afterwards always
        returns that same object. */
    method GetInstance(now: int) returns (r: RateLimiter)
      modifies this
      ensures old(instance) != null ==> r == old(instance)
      ensures old(instance) == null ==> fresh(r) && r.Valid()
      ensures instance == r
    {
      if instance == null {
        instance := new RateLimiter(now);
      }
      r := instance;
    }
  }

  /** Two calls of `getInstance` give the same limiter. */
  method GetInstanceTwice(slot: LimiterSingleton, now1: int, now2: int)
    returns (first: RateLimiter, second: RateLimiter)
    modifies slot
    ensures first == second && slot.instance == first
  {
    first := slot.GetInstance(now1);
    second := slot.GetInstance(now2);
  }
}
