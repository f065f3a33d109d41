/** The process-local limiter: one bucket object per key (ratelimit/memory.go). */
module MemoryLimiters {
  import opened Common
  import opened TokenBucket

  /** What is known of one key. */
  datatype Entry = Entry(bucket: Bucket, touched: int)
  type View = map<string, Entry>

  function BucketAt(v: View, key: string): Bucket {
    if key in v then v[key].bucket else Fresh
  }

  /** Keys idle since before the cutoff. */
  function Idle(v: View, cutoff: int): set<string> {
    set k | k in v && v[k].touched < cutoff
  }

  // ---------- Runs over many keys ----------

  datatype Op = Allow(key: string, now: int) | PruneIdle(idle: int, at: int) | Reset(dropped: string, when: int)

  function TimeOf(op: Op): int {
    match op case Allow(_, now) => now case PruneIdle(_, at) => at case Reset(_, when) => when
  }

  function Applied(p: Policy, v: View, op: Op): View {
    match op
    case Allow(key, now) => v[key := Entry(Called(p, BucketAt(v, key), now), now)]
    case PruneIdle(idle, at) => if idle <= 0 then v else v - Idle(v, at - idle)
    case Reset(key, _) => v - {key}
  }

  function Run(p: Policy, ops: seq<Op>): View {
    if ops == [] then map[] else Applied(p, Run(p, ops[..|ops| - 1]), ops[|ops| - 1])
  }

  /** The decisions on the Allow calls, in order. */
  function Verdicts(p: Policy, ops: seq<Op>): seq<bool> {
    if ops == [] then []
    else
      var before, op := ops[..|ops| - 1], ops[|ops| - 1];
      Verdicts(p, before) + if op.Allow? then [Admits(p, BucketAt(Run(p, before), op.key), op.now)] else []
  }

  function WithoutPrunes(ops: seq<Op>): seq<Op> {
    if ops == [] then []
    else WithoutPrunes(ops[..|ops| - 1]) + if ops[|ops| - 1].PruneIdle? then [] else [ops[|ops| - 1]]
  }

  ghost predicate Timely(ops: seq<Op>, now: int) {
    && (forall i, j :: 0 <= i <= j < |ops| ==> TimeOf(ops[i]) <= TimeOf(ops[j]))
    && (forall i :: 0 <= i < |ops| ==> TimeOf(ops[i]) <= now)
  }

  /** Two views that no later call can tell apart. */
  ghost predicate Equivalent(p: Policy, v: View, w: View, now: int) {
    forall key, t :: t >= now ==> Available(p, BucketAt(v, key), t) == Available(p, BucketAt(w, key), t)
  }

  /** Buckets are non-negative and were touched at their last tick. */
  ghost predicate Ticked(v: View) {
    forall k :: k in v ==> v[k].bucket.Filled? && v[k].bucket.tokens >= 0.0 && v[k].touched == v[k].bucket.last
  }

  lemma {:induction false} FullAfterIdle(p: Policy, e: Entry, idle: int, at: int, t: int)
    requires p.Valid() && Gain(p, idle + 1) >= p.Cap() && t >= at && e.touched < at - idle
    requires e.bucket.Filled? && e.bucket.tokens >= 0.0 && e.touched == e.bucket.last
    ensures Available(p, e.bucket, t) == p.Cap()
  {
    GainAdds(p, idle + 1, t - e.bucket.last - idle - 1);
    GainGrows(p, t - e.bucket.last - idle - 1);
  }

  /** Pruning keys whose least age refills a bucket is never noticed: a pruned key has been
      idle for at least a nanosecond more than `idle`. */
  lemma {:induction false} PruningIsUnobservable(p: Policy, ops: seq<Op>, now: int)
    requires p.Valid() && Timely(ops, now)
    requires forall i :: 0 <= i < |ops| && ops[i].PruneIdle? && ops[i].idle > 0 ==> Gain(p, ops[i].idle + 1) >= p.Cap()
    ensures Verdicts(p, ops) == Verdicts(p, WithoutPrunes(ops))
    ensures Equivalent(p, Run(p, ops), Run(p, WithoutPrunes(ops)), now)
    ensures Ticked(Run(p, ops)) && forall k :: k in Run(p, ops) ==> Run(p, ops)[k].touched <= now
  {
    if ops != [] {
      var f, op := ops[..|ops| - 1], ops[|ops| - 1];
      PruningIsUnobservable(p, f, TimeOf(op));
      var v, w := Run(p, f), Run(p, WithoutPrunes(f));
      if op.PruneIdle? {
        PruneStep(p, v, w, op, now);
        assert WithoutPrunes(f) + [] == WithoutPrunes(f);
        assert Verdicts(p, f) + [] == Verdicts(p, f);
      } else {
        assert (WithoutPrunes(f) + [op])[..|WithoutPrunes(f)|] == WithoutPrunes(f);
        CallStep(p, v, w, op, now);
      }
    }
  }

  lemma {:induction false} PruneStep(p: Policy, v: View, w: View, op: Op, now: int)
    requires p.Valid() && op.PruneIdle? && op.at <= now && Ticked(v) && Equivalent(p, v, w, op.at)
    requires op.idle > 0 ==> Gain(p, op.idle + 1) >= p.Cap()
    ensures Equivalent(p, Applied(p, v, op), w, now) && Ticked(Applied(p, v, op))
  {
    forall key, t | t >= now
      ensures Available(p, BucketAt(Applied(p, v, op), key), t) == Available(p, BucketAt(w, key), t)
    {
      assert Available(p, BucketAt(v, key), t) == Available(p, BucketAt(w, key), t);
      if key in v && key !in Applied(p, v, op) {
        FullAfterIdle(p, v[key], op.idle, op.at, t);
      }
    }
  }

  lemma {:induction false} CallStep(p: Policy, v: View, w: View, op: Op, now: int)
    requires p.Valid() && !op.PruneIdle? && TimeOf(op) <= now && Ticked(v) && Equivalent(p, v, w, TimeOf(op))
    requires forall k :: k in v ==> v[k].touched <= TimeOf(op)
    ensures op.Allow? ==> Admits(p, BucketAt(v, op.key), op.now) == Admits(p, BucketAt(w, op.key), op.now)
    ensures Equivalent(p, Applied(p, v, op), Applied(p, w, op), now) && Ticked(Applied(p, v, op))
  {
    if op.Allow? {
      assert Available(p, BucketAt(v, op.key), op.now) == Available(p, BucketAt(w, op.key), op.now);
      if op.key in v { GainGrows(p, op.now - v[op.key].bucket.last); }
    }
    forall key, t | t >= now
      ensures Available(p, BucketAt(Applied(p, v, op), key), t) == Available(p, BucketAt(Applied(p, w, op), key), t)
    {
      assert Available(p, BucketAt(v, key), t) == Available(p, BucketAt(w, key), t);
    }
  }

  // ---------- And no sooner ----------

  /** n calls on one key at one instant. */
  function Burst(key: string, t: int, n: nat): (ops: seq<Op>)
    ensures |ops| == n && forall i :: 0 <= i < n ==> ops[i] == Allow(key, t)
  {
    seq(n, i => Allow(key, t))
  }

  /** What the next call on the key finds. */
  function Left(p: Policy, ops: seq<Op>, key: string, t: int): real {
    Available(p, BucketAt(Run(p, ops), key), t)
  }

  lemma {:induction false} OneMoreCallOfBurst(p: Policy, pre: seq<Op>, key: string, t: int, n: nat)
    requires p.Valid() && n > 0
    ensures var before, ops := pre + Burst(key, t, n - 1), pre + Burst(key, t, n);
            var x := Left(p, before, key, t);
            && Verdicts(p, ops) == Verdicts(p, before) + [x >= 1.0]
            && Left(p, ops, key, t) == x - (if x >= 1.0 then 1.0 else 0.0)
            && BucketAt(Run(p, ops), key) == Filled(Left(p, ops, key, t), t)
  {
    var ops, before := pre + Burst(key, t, n), pre + Burst(key, t, n - 1);
    assert ops[..|ops| - 1] == before && ops[|ops| - 1] == Allow(key, t);
    GainGrows(p, 0);
    GainAdds(p, 0, 0);
  }

  /** A bucket that finds n tokens admits a burst of n. */
  lemma {:induction false} BurstDrains(p: Policy, pre: seq<Op>, key: string, t: int, n: nat)
    requires p.Valid() && Left(p, pre, key, t) >= n as real
    ensures Left(p, pre + Burst(key, t, n), key, t) == Left(p, pre, key, t) - n as real
    ensures |Verdicts(p, pre + Burst(key, t, n))| == |Verdicts(p, pre)| + n
    ensures n > 0 ==> Verdicts(p, pre + Burst(key, t, n))[|Verdicts(p, pre)| + n - 1]
  {
    if n == 0 {
      assert pre + Burst(key, t, n) == pre;
    } else {
      BurstDrains(p, pre, key, t, n - 1);
      OneMoreCallOfBurst(p, pre, key, t, n);
    }
  }

  /** One that finds fewer denies the last of them. */
  lemma {:induction false} BurstOverdraws(p: Policy, pre: seq<Op>, key: string, t: int, n: nat)
    requires p.Valid() && n > 0 && 0.0 <= Left(p, pre, key, t) < n as real
    ensures |Verdicts(p, pre + Burst(key, t, n))| == |Verdicts(p, pre)| + n
    ensures !Verdicts(p, pre + Burst(key, t, n))[|Verdicts(p, pre)| + n - 1]
    ensures 0.0 <= Left(p, pre + Burst(key, t, n), key, t) < 1.0
  {
    OneMoreCallOfBurst(p, pre, key, t, n);
    if Left(p, pre, key, t) >= (n - 1) as real {
      BurstDrains(p, pre, key, t, n - 1);
    } else {
      BurstOverdraws(p, pre, key, t, n - 1);
    }
  }

  /** The one run that tells: empty a bucket, prune it at its least age, and ask for a full burst. */
  function TellTale(p: Policy, idle: int): seq<Op>
    requires p.Valid() && idle > 0
  {
    Burst("", 0, p.capacity) + [PruneIdle(idle, idle + 1)] + Burst("", idle + 1, p.capacity)
  }

  lemma {:induction false} WithoutBurst(pre: seq<Op>, key: string, t: int, n: nat)
    ensures WithoutPrunes(pre + Burst(key, t, n)) == WithoutPrunes(pre) + Burst(key, t, n)
  {
    var ops := pre + Burst(key, t, n);
    if n == 0 {
      assert ops == pre && WithoutPrunes(pre) + [] == WithoutPrunes(pre);
    } else {
      WithoutBurst(pre, key, t, n - 1);
      assert ops[..|ops| - 1] == pre + Burst(key, t, n - 1);
      assert WithoutPrunes(pre) + Burst(key, t, n - 1) + [Allow(key, t)] == WithoutPrunes(pre) + Burst(key, t, n);
    }
  }

  lemma {:induction false} TellTaleTells(p: Policy, idle: int)
    requires p.Valid() && idle > 0 && Gain(p, idle + 1) < p.Cap()
    ensures Verdicts(p, TellTale(p, idle)) != Verdicts(p, WithoutPrunes(TellTale(p, idle)))
  {
    PrunedRunAdmits(p, idle);
    UnprunedRunDenies(p, idle);
    TellTaleWithout(p, idle);
  }

  lemma {:induction false} TellTaleIsTimely(p: Policy, idle: int)
    requires p.Valid() && idle > 0
    ensures Timely(TellTale(p, idle), idle + 1)
  {
  }

  lemma {:induction false} PrunedRunAdmits(p: Policy, idle: int)
    requires p.Valid() && idle > 0
    ensures |Verdicts(p, TellTale(p, idle))| == 2 * p.capacity
    ensures Verdicts(p, TellTale(p, idle))[2 * p.capacity - 1]
  {
    Drained(p);
    PrunedStartsFull(p, idle);
    BurstDrains(p, Burst("", 0, p.capacity) + [PruneIdle(idle, idle + 1)], "", idle + 1, p.capacity);
  }

  lemma {:induction false} UnprunedRunDenies(p: Policy, idle: int)
    requires p.Valid() && idle > 0 && Gain(p, idle + 1) < p.Cap()
    ensures var ops := Burst("", 0, p.capacity) + Burst("", idle + 1, p.capacity);
            |Verdicts(p, ops)| == 2 * p.capacity && !Verdicts(p, ops)[2 * p.capacity - 1]
  {
    Drained(p);
    GainGrows(p, idle + 1);
    BurstOverdraws(p, Burst("", 0, p.capacity), "", idle + 1, p.capacity);
  }

  /** A burst of the whole capacity empties a new bucket. */
  lemma {:induction false} Drained(p: Policy)
    requires p.Valid()
    ensures BucketAt(Run(p, Burst("", 0, p.capacity)), "") == Filled(0.0, 0)
    ensures |Verdicts(p, Burst("", 0, p.capacity))| == p.capacity
  {
    EmptyFirst(Burst("", 0, p.capacity));
    BurstDrains(p, [], "", 0, p.capacity);
    OneMoreCallOfBurst(p, [], "", 0, p.capacity);
  }

  lemma {:induction false} EmptyFirst(ops: seq<Op>)
    ensures [] + ops == ops
  {
  }

  lemma {:induction false} PrunedStartsFull(p: Policy, idle: int)
    requires p.Valid() && idle > 0 && BucketAt(Run(p, Burst("", 0, p.capacity)), "") == Filled(0.0, 0)
    ensures var pruned := Burst("", 0, p.capacity) + [PruneIdle(idle, idle + 1)];
            && Left(p, pruned, "", idle + 1) == p.Cap()
            && Verdicts(p, pruned) == Verdicts(p, Burst("", 0, p.capacity))
  {
    var drained := Burst("", 0, p.capacity);
    var pruned := drained + [PruneIdle(idle, idle + 1)];
    assert pruned[..|pruned| - 1] == drained;
    assert Run(p, pruned) == Applied(p, Run(p, drained), PruneIdle(idle, idle + 1));
    assert drained[..|drained| - 1] == Burst("", 0, p.capacity - 1) && drained[|drained| - 1] == Allow("", 0);
    assert Verdicts(p, drained) + [] == Verdicts(p, drained);
  }

  lemma {:induction false} TellTaleWithout(p: Policy, idle: int)
    requires p.Valid() && idle > 0
    ensures WithoutPrunes(TellTale(p, idle)) == Burst("", 0, p.capacity) + Burst("", idle + 1, p.capacity)
  {
    var drained := Burst("", 0, p.capacity);
    var pruned := drained + [PruneIdle(idle, idle + 1)];
    assert pruned[..|pruned| - 1] == drained;
    WithoutBurst(pruned, "", idle + 1, p.capacity);
    WithoutBurst([], "", 0, p.capacity);
    assert [] + drained == drained;
  }

  ghost predicate AllPrunesAt(ops: seq<Op>, idle: int) {
    forall i :: 0 <= i < |ops| && ops[i].PruneIdle? ==> ops[i].idle == idle
  }

  ghost predicate PrunesShow(p: Policy, ops: seq<Op>, now: int) {
    Timely(ops, now) && Verdicts(p, ops) != Verdicts(p, WithoutPrunes(ops))
  }

  /** Prunes with a given idle are unobservable, in every run, exactly when a nanosecond more
      than that refills a bucket. */
  lemma {:induction false} PrunesShowExactlyWhen(p: Policy, idle: int)
    requires p.Valid() && idle > 0
    ensures (forall ops, now :: AllPrunesAt(ops, idle) ==> !PrunesShow(p, ops, now)) <==> Gain(p, idle + 1) >= p.Cap()
  {
    if Gain(p, idle + 1) >= p.Cap() {
      forall ops, now | AllPrunesAt(ops, idle) ensures !PrunesShow(p, ops, now) {
        if Timely(ops, now) { PruningIsUnobservable(p, ops, now); }
      }
    } else {
      TellTaleTells(p, idle);
      TellTaleIsTimely(p, idle);
      assert AllPrunesAt(TellTale(p, idle), idle) && PrunesShow(p, TellTale(p, idle), idle + 1);
    }
  }

  // ---------- The code ----------

  class MemBucket {
    var tokens: real
    var lastTick: Option<int>
    var touched: int

    constructor ()
      ensures tokens == 0.0 && lastTick == None && touched == 0
    {
      tokens, lastTick, touched := 0.0, None, 0;
    }

    ghost function Bucket(): Bucket reads this {
      match lastTick case None => Fresh case Some(t) => Filled(tokens, t)
    }

    /** Refill since the last tick, capped, and take one token if there is one. */
    method Take(p: Policy, now: int) returns (allowed: bool, wait: int)
      requires p.Valid()
      modifies this
      ensures allowed <==> Admits(p, old(Bucket()), now)
      ensures Bucket() == Called(p, old(Bucket()), now) && touched == now && lastTick == Some(now)
      ensures wait == if allowed then 0 else Hint(p, old(Bucket()), now)
    {
      touched := now;
      match lastTick {
        case Some(last) =>
          var elapsed := (now - last) as real / 1_000_000_000.0;
          tokens := tokens + elapsed * p.rate;
          if tokens > p.Cap() {
            tokens := p.Cap();
          }
        case None =>
          tokens := p.Cap();
      }
      lastTick := Some(now);
      if tokens >= 1.0 {
        tokens := tokens - 1.0;
        return true, 0;
      }
      var missing := 1.0 - tokens;
      wait := (missing * 1_000_000_000.0 / p.rate).Floor + 1;
      return false, wait;
    }
  }

  class MemoryLimiter {
    const policy: Policy
    var buckets: map<string, MemBucket>

    ghost predicate Valid()
      reads this, buckets.Values
    {
      && policy.Valid()
      && (forall k :: k in buckets ==> buckets[k].lastTick.Some?)
      && (forall j, k :: j in buckets && k in buckets && j != k ==> buckets[j] != buckets[k])
    }

    ghost function View(): View
      reads this, buckets.Values
    {
      map k | k in buckets :: Entry(buckets[k].Bucket(), buckets[k].touched)
    }

    constructor (p: Policy)
      requires p.Valid()
      ensures Valid() && View() == map[] && policy == p
    {
      policy, buckets := p, map[];
    }

    /** The key's bucket, made on first use. */
    method BucketFor(key: string) returns (b: MemBucket)
      requires Valid()
      modifies this
      ensures policy.Valid() && key in buckets && buckets[key] == b
      ensures buckets == old(buckets)[key := b] && (key in old(buckets) || fresh(b))
      ensures fresh(buckets.Values - old(buckets.Values))
      ensures b.Bucket() == BucketAt(old(View()), key)
      ensures OnlyAt(key)
    {
      if key in buckets {
        b := buckets[key];
      } else {
        b := new MemBucket();
        buckets := buckets[key := b];
      }
    }

    /** Every other key has a consulted bucket of its own. */
    ghost predicate OnlyAt(key: string)
      reads this, buckets.Values
    {
      && key in buckets
      && (forall k :: k in buckets && k != key ==> buckets[k] != buckets[key] && buckets[k].lastTick.Some?)
      && (forall j, k :: j in buckets && k in buckets && j != k ==> buckets[j] != buckets[k])
    }

    method Allow(key: string, now: int) returns (allowed: bool, wait: int)
      requires Valid()
      modifies this, buckets.Values
      ensures Valid() && fresh(buckets.Values - old(buckets.Values))
      ensures allowed <==> Admits(policy, BucketAt(old(View()), key), now)
      ensures View() == Applied(policy, old(View()), Op.Allow(key, now))
      ensures !allowed ==> wait == Hint(policy, BucketAt(old(View()), key), now)
    {
      var b := BucketFor(key);
      allowed, wait := b.Take(policy, now);
    }

    method PruneIdle(idle: int, now: int) returns (pruned: nat)
      requires Valid()
      modifies this
      ensures Valid() && buckets.Values <= old(buckets.Values)
      ensures View() == Applied(policy, old(View()), Op.PruneIdle(idle, now))
      ensures idle > 0 ==> pruned == |Idle(old(View()), now - idle)|
      ensures idle <= 0 ==> pruned == 0
    {
      pruned := 0;
      if idle <= 0 {
        return;
      }
      var cutoff := now - idle;
      var todo := buckets.Keys;
      ghost var gone: set<string> := {};
      while todo != {}
        invariant todo <= old(buckets).Keys && todo !! gone && gone <= old(buckets).Keys
        invariant buckets == old(buckets) - gone
        invariant forall k :: k in old(buckets) && k !in todo ==> (k in gone <==> old(buckets)[k].touched < cutoff)
        invariant pruned == |gone|
      {
        var k :| k in todo;
        assert buckets[k] == old(buckets)[k];
        if buckets[k].touched < cutoff {
          buckets := buckets - {k};
          gone := gone + {k};
          pruned := pruned + 1;
        }
        todo := todo - {k};
      }
      assert gone == Idle(old(View()), cutoff);
    }

    method Reset(key: string)
      requires Valid()
      modifies this
      ensures Valid() && buckets.Values <= old(buckets.Values)
      ensures View() == old(View()) - {key}
    {
      buckets := buckets - {key};
    }
  }
}
