/** The Redis script and its key expiry, compared with the in-memory bucket
    (ratelimit/redis.go). */
module RedisBucket {
  import opened TokenBucket

  const NANOS_PER_MS := 1_000_000

  /** The hash under one key, and when PEXPIRE lets Redis drop it. */
  datatype Key = Missing | Hash(tokens: real, lastMs: int, expireAtMs: int)

  /** A call to the script at nowMs; `evicted` says that Redis has dropped the key. */
  datatype Call = Call(nowMs: int, evicted: bool)

  predicate Possible(k: Key, c: Call) {
    c.evicted ==> k.Missing? || c.nowMs >= k.expireAtMs
  }

  function TtlMs(p: Policy): int
    requires p.Valid()
  {
    var refill := (p.Cap() / p.rate * 1000.0).Floor;
    if refill * 2 < 60_000 then 60_000 else refill * 2
  }

  function Ceil(x: real): int { -((-x).Floor) }

  /** The Lua script: the tokens found, whether the call is allowed, and the retry
      hint in milliseconds. */
  method TokenBucketScript(p: Policy, key: Key, nowMs: int, ttlMs: int)
    returns (key': Key, allowed: bool, retryMs: int)
    requires p.Valid()
    ensures ttlMs == TtlMs(p) ==> (key', allowed) == Step(p, key, Call(nowMs, false))
    ensures key' == Hash(Found(p, key, nowMs) - if allowed then 1.0 else 0.0, nowMs, nowMs + ttlMs)
    ensures allowed <==> Found(p, key, nowMs) >= 1.0
    ensures !allowed ==> retryMs == Ceil((1.0 - Found(p, key, nowMs)) / p.rate * 1000.0)
  {
    var tokens: real, lastMs: int;
    match key {
      case Missing => tokens, lastMs := p.Cap(), nowMs;
      case Hash(t, l, _) => tokens, lastMs := t, l;
    }
    var elapsedMs := nowMs - lastMs;
    if elapsedMs < 0 {
      elapsedMs := 0;
    }
    tokens := tokens + (elapsedMs as real / 1000.0) * p.rate;
    if tokens > p.Cap() {
      tokens := p.Cap();
    }
    allowed, retryMs := false, 0;
    if tokens >= 1.0 {
      tokens := tokens - 1.0;
      allowed := true;
    } else {
      retryMs := Ceil((1.0 - tokens) / p.rate * 1000.0);
    }
    key' := Hash(tokens, nowMs, nowMs + ttlMs);
  }

  /** The tokens the script finds after its refill. */
  function Found(p: Policy, key: Key, nowMs: int): real {
    match key
    case Missing => Min(p.Cap() + (0 as real / 1000.0) * p.rate, p.Cap())
    case Hash(tokens, lastMs, _) =>
      Min(tokens + ((if nowMs < lastMs then 0 else nowMs - lastMs) as real / 1000.0) * p.rate, p.Cap())
  }

  function Step(p: Policy, key: Key, c: Call): (Key, bool)
    requires p.Valid()
  {
    var found := Found(p, if c.evicted then Missing else key, c.nowMs);
    (Hash(found - if found >= 1.0 then 1.0 else 0.0, c.nowMs, c.nowMs + TtlMs(p)), found >= 1.0)
  }

  function Run(p: Policy, cs: seq<Call>): (Key, seq<bool>)
    requires p.Valid()
  {
    if cs == [] then (Missing, [])
    else
      var before := Run(p, cs[..|cs| - 1]);
      var step := Step(p, before.0, cs[|cs| - 1]);
      (step.0, before.1 + [step.1])
  }

  function Nanos(cs: seq<Call>): (ts: seq<int>)
    ensures |ts| == |cs| && forall i :: 0 <= i < |cs| ==> ts[i] == cs[i].nowMs * NANOS_PER_MS
  {
    seq(|cs|, i requires 0 <= i < |cs| => cs[i].nowMs * NANOS_PER_MS)
  }

  /** Times never go back, and Redis drops a key only once its time to live is over. */
  ghost predicate Plausible(p: Policy, cs: seq<Call>)
    requires p.Valid()
  {
    && (forall i, j :: 0 <= i <= j < |cs| ==> cs[i].nowMs <= cs[j].nowMs)
    && (forall i :: 0 <= i < |cs| ==> Possible(Run(p, cs[..i]).0, cs[i]))
  }

  // ---------- Agreement ----------

  lemma {:induction false} MsGain(p: Policy, ms: int)
    ensures Gain(p, ms * NANOS_PER_MS) == (ms as real / 1000.0) * p.rate
  {
    assert (ms * NANOS_PER_MS) as real == ms as real * 1_000_000.0;
  }

  lemma {:induction false} QuotientPositive(x: real, rate: real)
    requires x > 0.0 && rate > 0.0
    ensures x / rate > 0.0
  {
    var q := x / rate;
    QuotientTimes(x, rate);
    if q <= 0.0 {
      NonNegativeProduct(-q, rate);
      assert (-q) * rate == -(q * rate);
    }
  }

  /** The time to live is at least the time of a full refill. */
  lemma {:induction false} TtlCoversRefill(p: Policy, ms: int)
    requires p.Valid() && ms >= TtlMs(p)
    ensures (ms as real / 1000.0) * p.rate >= p.Cap()
  {
    var x := p.Cap() / p.rate * 1000.0;
    assert ms as real >= x by { QuotientPositive(p.Cap(), p.rate); }
    QuotientTimes(p.Cap(), p.rate);
    ScaleBoth(ms as real / 1000.0, p.Cap() / p.rate, p.rate);
  }

  /** The in-memory bucket and the Redis key hold the same tokens at the same time. */
  ghost predicate Same(b: Bucket, k: Key, ttl: int) {
    if k.Missing? then b == Fresh
    else b == Filled(k.tokens, k.lastMs * NANOS_PER_MS) && k.expireAtMs == k.lastMs + ttl && k.tokens >= 0.0
  }

  lemma {:induction false} SameTokens(p: Policy, b: Bucket, k: Key, nowMs: int)
    requires p.Valid() && Same(b, k, TtlMs(p)) && (k.Hash? ==> nowMs >= k.lastMs)
    ensures Available(p, b, nowMs * NANOS_PER_MS) == Found(p, k, nowMs)
    ensures k.Hash? ==> Found(p, k, nowMs) >= 0.0
  {
    assert (0 as real / 1000.0) * p.rate == 0.0;
    if k.Hash? {
      MsGain(p, nowMs - k.lastMs);
      assert nowMs * NANOS_PER_MS - k.lastMs * NANOS_PER_MS == (nowMs - k.lastMs) * NANOS_PER_MS;
      GainGrows(p, (nowMs - k.lastMs) * NANOS_PER_MS);
    }
  }

  /** A key past its time to live would have been found full anyway. */
  lemma {:induction false} ExpiredIsFull(p: Policy, k: Key, c: Call)
    requires p.Valid() && k.Hash? && k.expireAtMs == k.lastMs + TtlMs(p) && k.tokens >= 0.0
    requires c.nowMs >= k.expireAtMs
    ensures Found(p, k, c.nowMs) == Found(p, Missing, c.nowMs)
  {
    TtlCoversRefill(p, c.nowMs - k.lastMs);
    assert (0 as real / 1000.0) * p.rate == 0.0;
  }

  lemma {:induction false} CallsAgree(p: Policy, b: Bucket, k: Key, c: Call)
    requires p.Valid() && Same(b, k, TtlMs(p)) && Possible(k, c)
    requires k.Hash? ==> c.nowMs >= k.lastMs
    ensures Step(p, k, c).1 == Admits(p, b, c.nowMs * NANOS_PER_MS)
    ensures Same(Called(p, b, c.nowMs * NANOS_PER_MS), Step(p, k, c).0, TtlMs(p))
  {
    SameTokens(p, b, k, c.nowMs);
    if c.evicted && k.Hash? {
      ExpiredIsFull(p, k, c);
    }
    assert Found(p, if c.evicted then Missing else k, c.nowMs) == Available(p, b, c.nowMs * NANOS_PER_MS);
    assert (0 as real / 1000.0) * p.rate == 0.0;
  }

  lemma {:induction false} RunStep(p: Policy, cs: seq<Call>)
    requires p.Valid() && cs != []
    ensures var before, step := Run(p, cs[..|cs| - 1]), Step(p, Run(p, cs[..|cs| - 1]).0, cs[|cs| - 1]);
            Run(p, cs) == (step.0, before.1 + [step.1])
    ensures Run(p, cs).0.Hash? && Run(p, cs).0.lastMs == cs[|cs| - 1].nowMs
  {
  }

  lemma {:induction false} NanosStep(cs: seq<Call>)
    requires cs != []
    ensures Nanos(cs) == Nanos(cs[..|cs| - 1]) + [cs[|cs| - 1].nowMs * NANOS_PER_MS]
  {
  }

  lemma {:induction false} PlausiblePrefix(p: Policy, cs: seq<Call>)
    requires p.Valid() && Plausible(p, cs) && cs != []
    ensures Plausible(p, cs[..|cs| - 1]) && Possible(Run(p, cs[..|cs| - 1]).0, cs[|cs| - 1])
  {
    var f := cs[..|cs| - 1];
    assert forall i :: 0 <= i < |f| ==> f[..i] == cs[..i];
  }

  /** On nondecreasing millisecond times the script and the in-memory limiter make
      the same decisions, whenever Redis drops expired keys. */
  lemma {:induction false} LimitersAgree(p: Policy, cs: seq<Call>)
    requires p.Valid() && Plausible(p, cs)
    ensures Run(p, cs).1 == Decisions(p, Nanos(cs))
    ensures Same(After(p, Nanos(cs)), Run(p, cs).0, TtlMs(p))
  {
    if cs != [] {
      var f, c := cs[..|cs| - 1], cs[|cs| - 1];
      PlausiblePrefix(p, cs);
      LimitersAgree(p, f);
      RunStep(p, cs);
      if f != [] { RunStep(p, f); }
      NanosStep(cs);
      OneMoreCall(p, Nanos(f), c.nowMs * NANOS_PER_MS);
      CallsAgree(p, After(p, Nanos(f)), Run(p, f).0, c);
    }
  }

  /** The Redis hint is enough too: waiting that many milliseconds admits the call. */
  lemma {:induction false} RedisHintSuffices(p: Policy, key: Key, nowMs: int, later: int)
    requires p.Valid() && Found(p, key, nowMs) < 1.0
    requires later >= nowMs + Ceil((1.0 - Found(p, key, nowMs)) / p.rate * 1000.0)
    ensures Found(p, Hash(Found(p, key, nowMs), nowMs, nowMs + TtlMs(p)), later) >= 1.0
  {
    var missing := 1.0 - Found(p, key, nowMs);
    QuotientTimes(missing, p.rate);
    QuotientPositive(missing, p.rate);
    ScaleBoth((later - nowMs) as real / 1000.0, missing / p.rate, p.rate);
  }

  /** And no fewer are: the hint is the least number of milliseconds that admits it. */
  lemma {:induction false} RedisHintIsLeast(p: Policy, key: Key, nowMs: int, sooner: int)
    requires p.Valid() && Found(p, key, nowMs) < 1.0
    requires nowMs <= sooner < nowMs + Ceil((1.0 - Found(p, key, nowMs)) / p.rate * 1000.0)
    ensures Found(p, Hash(Found(p, key, nowMs), nowMs, nowMs + TtlMs(p)), sooner) < 1.0
  {
    var missing := 1.0 - Found(p, key, nowMs);
    QuotientTimes(missing, p.rate);
    QuotientPositive(missing, p.rate);
    BelowCeil(missing / p.rate * 1000.0, sooner - nowMs);
    assert ((sooner - nowMs) as real / 1000.0) < missing / p.rate;
    ScaleBoth((sooner - nowMs) as real / 1000.0, missing / p.rate, p.rate);
  }

  lemma {:induction false} BelowCeil(x: real, n: int)
    requires n < Ceil(x)
    ensures (n as real) < x
  {
  }

  /** On a clock set back the two no longer agree: the script adds nothing, the in-memory bucket takes back what the rate gives in
      that time. They decide the next call alike exactly when what is left of a token still suffices, or did not before. */
  lemma {:induction false} SetBackAgreesExactlyWhen(p: Policy, b: Bucket, k: Key, nowMs: int)
    requires p.Valid() && Same(b, k, TtlMs(p)) && k.Hash? && k.tokens <= p.Cap() && nowMs < k.lastMs
    ensures Found(p, k, nowMs) == k.tokens
    ensures Available(p, b, nowMs * NANOS_PER_MS) == k.tokens - ((k.lastMs - nowMs) as real / 1000.0) * p.rate
    ensures Step(p, k, Call(nowMs, false)).1 == Admits(p, b, nowMs * NANOS_PER_MS) <==>
            k.tokens < 1.0 || k.tokens - ((k.lastMs - nowMs) as real / 1000.0) * p.rate >= 1.0
  {
    assert (0 as real / 1000.0) * p.rate == 0.0;
    var back := k.lastMs - nowMs;
    assert nowMs * NANOS_PER_MS - k.lastMs * NANOS_PER_MS == -(back * NANOS_PER_MS);
    GainAdds(p, back * NANOS_PER_MS, -(back * NANOS_PER_MS));
    GainGrows(p, back * NANOS_PER_MS);
    MsGain(p, back);
  }
}
