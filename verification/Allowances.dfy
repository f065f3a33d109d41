/** What the limiters allow, told by counting calls and by the clock (ratelimit/memory.go, redis.go, auth.go). */
module Allowances {
  import opened TokenBucket
  import opened MemoryLimiters
  import Redis = RedisBucket
  import L = LoginCheck

  // ---------- One key ----------

  /** The calls from the j-th to the one before the i-th that were let through. */
  function LetThrough(d: seq<bool>, j: nat, i: nat): set<nat> {
    set k: nat | j <= k < i && k < |d| && d[k]
  }

  lemma {:induction false} DecisionAt(p: Policy, times: seq<int>, i: nat)
    requires i < |times|
    ensures Decisions(p, times)[i] == Admits(p, After(p, times[..i]), times[i])
    ensures Decisions(p, times)[..i] == Decisions(p, times[..i])
    decreases |times|
  {
    var n := |times| - 1;
    if i < n {
      DecisionAt(p, times[..n], i);
      assert times[..n][..i] == times[..i];
      assert Decisions(p, times)[..n] == Decisions(p, times[..n]);
      assert Decisions(p, times)[..i] == Decisions(p, times)[..n][..i];
    }
  }

  lemma {:induction false} OneMoreLetThrough(d: seq<bool>, j: nat, n: nat)
    requires n < |d|
    ensures LetThrough(d, j, n + 1) == LetThrough(d[..n], j, n) + if j <= n && d[n] then {n} else {}
  {
  }

  lemma {:induction false} AdmittedCount(p: Policy, times: seq<int>, s: int, j: nat)
    requires j <= |times| && forall k :: 0 <= k < |times| ==> (times[k] >= s <==> j <= k)
    ensures AdmittedSince(p, times, s) == |LetThrough(Decisions(p, times), j, |times|)|
  {
    if times == [] {
      assert LetThrough(Decisions(p, times), j, 0) == {};
    } else if j == |times| {
      NoneSince(p, times, s);
      assert LetThrough(Decisions(p, times), j, j) == {};
    } else {
      var n := |times| - 1;
      AdmittedCount(p, times[..n], s, j);
      DecisionsStep(p, times);
      OneMoreLetThrough(Decisions(p, times), j, n);
      assert Decisions(p, times)[..n] == Decisions(p, times[..n]);
    }
  }

  /** The first of the calls up to the i-th that is not before s. */
  lemma {:induction false} FirstSince(times: seq<int>, i: nat, s: int) returns (j: nat)
    requires Nondecreasing(times) && i < |times| && s <= times[i] && (s in times[..i] || s == times[i])
    ensures j <= i && times[j] == s && forall k :: 0 <= k < i ==> (times[k] >= s <==> j <= k)
  {
    j := i;
    if s in times[..i] { j :| 0 <= j < i && times[j] == s; }
    while j > 0 && times[j - 1] == s
      invariant 0 <= j <= i && times[j] == s
    {
      j := j - 1;
    }
  }

  /** The i-th call is let through exactly when, from each call up to it, those let through since then and it are no more than
      the capacity and what the rate gives in the time between. */
  lemma {:induction false} AllowedExactlyWhen(p: Policy, times: seq<int>, i: nat)
    requires p.Valid() && Nondecreasing(times) && i < |times|
    ensures Decisions(p, times)[i] <==> forall j :: 0 <= j <= i ==> Covered(p, times, j, i)
  {
    DecisionAt(p, times, i);
    if Decisions(p, times)[i] {
      forall j | 0 <= j <= i ensures Covered(p, times, j, i) { AllowedIsCovered(p, times, j, i); }
    } else {
      var first := DeniedIsNotCovered(p, times, i);
    }
  }

  lemma {:induction false} AllowedIsCovered(p: Policy, times: seq<int>, j: nat, i: nat)
    requires p.Valid() && Nondecreasing(times) && j <= i < |times| && Admits(p, After(p, times[..i]), times[i])
    ensures Covered(p, times, j, i)
  {
    assert j < i ==> times[..i][j] == times[j];
    AllowedIsWithin(p, times[..i], times[i], times[j]);
    WithinIsCovered(p, times, j, i);
  }

  lemma {:induction false} AllowedIsWithin(p: Policy, before: seq<int>, now: int, s: int)
    requires p.Valid() && By(before, now) && Admits(p, After(p, before), now) && s <= now && (s in before || s == now)
    ensures Fits(p, AdmittedSince(p, before, s), now - s)
  {
    DeniedExactlyWhenOverAllowance(p, before, now);
    assert !OverAllowance(p, before, now, s);
  }

  lemma {:induction false} DeniedIsOver(p: Policy, before: seq<int>, now: int) returns (s: int)
    requires p.Valid() && By(before, now) && !Admits(p, After(p, before), now)
    ensures s <= now && (s in before || s == now) && !Fits(p, AdmittedSince(p, before, s), now - s)
  {
    DeniedExactlyWhenOverAllowance(p, before, now);
    s :| s <= now && (s in before || s == now) && OverAllowance(p, before, now, s);
    OverDoesNotFit(p, before, now, s);
  }

  lemma {:induction false} OverDoesNotFit(p: Policy, before: seq<int>, now: int, s: int)
    requires OverAllowance(p, before, now, s)
    ensures !Fits(p, AdmittedSince(p, before, s), now - s)
  {
  }

  lemma {:induction false} DeniedIsNotCovered(p: Policy, times: seq<int>, i: nat) returns (first: nat)
    requires p.Valid() && Nondecreasing(times) && i < |times| && !Admits(p, After(p, times[..i]), times[i])
    ensures first <= i && !Covered(p, times, first, i)
  {
    var s := DeniedIsOver(p, times[..i], times[i]);
    first := FirstSince(times, i, s);
    WindowCount(p, times, first, i);
  }

  lemma {:induction false} WithinIsCovered(p: Policy, times: seq<int>, j: nat, i: nat)
    requires Nondecreasing(times) && j <= i < |times|
    requires Fits(p, AdmittedSince(p, times[..i], times[j]), times[i] - times[j])
    ensures Covered(p, times, j, i)
  {
    assert j < i ==> times[..i][j] == times[j];
    var first := FirstSince(times, i, times[j]);
    WindowCount(p, times, first, i);
    FewerLetThrough(Decisions(p, times), first, j, i);
    FewerFit(p, |LetThrough(Decisions(p, times), first, i)|, |LetThrough(Decisions(p, times), j, i)|, times[i] - times[j]);
  }

  /** One call more than n is within the capacity and what the rate gives in ns nanoseconds. */
  predicate Fits(p: Policy, n: nat, ns: int) {
    n as real + 1.0 <= p.capacity as real + ns as real / 1_000_000_000.0 * p.rate
  }

  lemma {:induction false} FewerFit(p: Policy, n: nat, m: nat, ns: int)
    requires m <= n && Fits(p, n, ns)
    ensures Fits(p, m, ns)
  {
  }

  /** The i-th call is within what is left of the calls let through since the j-th. */
  predicate Covered(p: Policy, times: seq<int>, j: nat, i: nat)
    requires j <= i < |times|
  {
    Fits(p, |LetThrough(Decisions(p, times), j, i)|, times[i] - times[j])
  }

  lemma {:induction false} WindowCount(p: Policy, times: seq<int>, first: nat, i: nat)
    requires first <= i < |times| && forall k :: 0 <= k < i ==> (times[k] >= times[first] <==> first <= k)
    ensures AdmittedSince(p, times[..i], times[first]) == |LetThrough(Decisions(p, times), first, i)|
  {
    DecisionAt(p, times, i);
    AdmittedCount(p, times[..i], times[first], first);
    SameLetThrough(Decisions(p, times), times[..i], p, first, i);
  }

  lemma {:induction false} SameLetThrough(d: seq<bool>, before: seq<int>, p: Policy, j: nat, i: nat)
    requires i == |before| <= |d| && d[..i] == Decisions(p, before)
    ensures LetThrough(Decisions(p, before), j, i) == LetThrough(d, j, i)
  {
    forall k | 0 <= k < i ensures Decisions(p, before)[k] == d[k] { assert d[..i][k] == d[k]; }
  }

  lemma {:induction false} FewerLetThrough(d: seq<bool>, j: nat, l: nat, i: nat)
    requires j <= l <= i
    ensures |LetThrough(d, l, i)| <= |LetThrough(d, j, i)|
  {
    var more, fewer := LetThrough(d, j, i), LetThrough(d, l, i);
    assert more == fewer + (more - fewer);
    assert |more| == |fewer| + |more - fewer|;
  }

  // ---------- Many keys ----------

  /** The times of the calls on the key since it was last reset. */
  function Calls(ops: seq<Op>, key: string): seq<int> {
    if ops == [] then []
    else
      var front := Calls(ops[..|ops| - 1], key);
      match ops[|ops| - 1]
      case Allow(k, now) => if k == key then front + [now] else front
      case PruneIdle(_, _) => front
      case Reset(k, _) => if k == key then [] else front
  }

  /** What other keys do changes nothing. */
  lemma {:induction false} KeyAlone(p: Policy, ops: seq<Op>, key: string)
    requires forall i :: 0 <= i < |ops| ==> !ops[i].PruneIdle?
    ensures BucketAt(Run(p, ops), key) == After(p, Calls(ops, key))
  {
    if ops != [] {
      var front, op := ops[..|ops| - 1], ops[|ops| - 1];
      KeyAlone(p, front, key);
      if op.Allow? && op.key == key { assert Calls(ops, key)[..|Calls(ops, key)| - 1] == Calls(front, key); }
    }
  }

  lemma {:induction false} CallsWithoutPrunes(ops: seq<Op>, key: string)
    ensures Calls(WithoutPrunes(ops), key) == Calls(ops, key)
    ensures forall i :: 0 <= i < |WithoutPrunes(ops)| ==> !WithoutPrunes(ops)[i].PruneIdle?
  {
    if ops != [] {
      var front, op := ops[..|ops| - 1], ops[|ops| - 1];
      CallsWithoutPrunes(front, key);
      if op.PruneIdle? {
        assert WithoutPrunes(ops) == WithoutPrunes(front);
      } else {
        assert WithoutPrunes(ops) == WithoutPrunes(front) + [op];
        assert WithoutPrunes(ops)[..|WithoutPrunes(front)|] == WithoutPrunes(front);
      }
    }
  }

  /** A call on a key is let through exactly as if there were only the calls on that key since its last reset, prunes of
      no less than a full refill included. */
  lemma {:induction false} KeyDecidesAlone(p: Policy, ops: seq<Op>, key: string, now: int)
    requires p.Valid() && Timely(ops, now)
    requires forall i :: 0 <= i < |ops| && ops[i].PruneIdle? && ops[i].idle > 0 ==>
               (ops[i].idle + 1) as real / 1_000_000_000.0 * p.rate >= p.capacity as real
    ensures Admits(p, BucketAt(Run(p, ops), key), now) <==> Admits(p, After(p, Calls(ops, key)), now)
  {
    forall i | 0 <= i < |ops| && ops[i].PruneIdle? && ops[i].idle > 0 ensures Gain(p, ops[i].idle + 1) >= p.Cap() {}
    PruningIsUnobservable(p, ops, now);
    CallsWithoutPrunes(ops, key);
    KeyAlone(p, WithoutPrunes(ops), key);
    assert Available(p, BucketAt(Run(p, ops), key), now) == Available(p, BucketAt(Run(p, WithoutPrunes(ops)), key), now);
  }

  ghost predicate LeavesAlone(ops: seq<Op>, key: string) {
    forall i :: 0 <= i < |ops| ==> match ops[i] case Allow(k, _) => k != key case PruneIdle(_, _) => false case Reset(k, _) => k != key
  }

  lemma {:induction false} TouchedLast(p: Policy, pre: seq<Op>, key: string, t: int, post: seq<Op>)
    requires LeavesAlone(post, key)
    ensures var v := Run(p, pre + [Op.Allow(key, t)] + post); key in v && v[key].touched == t
  {
    var ops := pre + [Op.Allow(key, t)] + post;
    if post == [] {
      assert ops[..|ops| - 1] == pre && ops[|ops| - 1] == Op.Allow(key, t);
    } else {
      var n := |post| - 1;
      assert ops[..|ops| - 1] == pre + [Op.Allow(key, t)] + post[..n] && ops[|ops| - 1] == post[n];
      TouchedLast(p, pre, key, t, post[..n]);
    }
  }

  /** A prune forgets a key exactly when its last call is more than the idle time back, and never with an idle time of zero. */
  lemma {:induction false} PruneForgetsExactlyWhen(p: Policy, pre: seq<Op>, key: string, t: int, post: seq<Op>, idle: int, at: int)
    requires LeavesAlone(post, key)
    ensures key !in Applied(p, Run(p, pre + [Op.Allow(key, t)] + post), Op.PruneIdle(idle, at)) <==> idle > 0 && at - t > idle
  {
    TouchedLast(p, pre, key, t, post);
  }

  // ---------- Redis ----------

  /** The time to live is a minute, or the even number of milliseconds nearest below twice the time of a full refill if that is
      longer. */
  lemma {:induction false} TtlIsTwiceRefill(p: Policy)
    requires p.Valid()
    ensures var ttl, refill := Redis.TtlMs(p), p.capacity as real / p.rate * 1000.0;
            && ttl >= 60_000 && (ttl == 60_000 || (ttl % 2 == 0 && ttl as real <= 2.0 * refill))
            && ttl as real > 2.0 * refill - 2.0
  {
  }

  /** It is at least twice that time, as documented, exactly when the floor of a minute decides or a full refill takes whole
      milliseconds. */
  lemma {:induction false} TtlCoversTwiceExactlyWhen(p: Policy)
    requires p.Valid()
    ensures var refill := p.capacity as real / p.rate * 1000.0;
            Redis.TtlMs(p) as real >= 2.0 * refill <==> refill <= 30_000.0 || refill == refill.Floor as real
  {
  }

  // ---------- The login check ----------

  /** The times at which the bucket of an email was asked: those of the attempts on a registered email of that
      normal form which their address let through. */
  function EmailCalls(p: L.Policies, attempts: seq<L.Attempt>, key: string): seq<int> {
    if attempts == [] then []
    else
      var before, a := attempts[..|attempts| - 1], attempts[|attempts| - 1];
      EmailCalls(p, before, key)
      + if a.input.email != "" && a.input.emailExists && p.normalize(a.input.email) == key
           && Admits(p.ip, After(p.ip, L.IPTimes(before, a.input.ip)), a.ipTime)
        then [a.emailTime] else []
  }

  lemma {:induction false} BucketsOfRun(p: L.Policies, attempts: seq<L.Attempt>, ip: string, key: string)
    requires p.Valid()
    ensures BucketAt(L.RunChecks(p, attempts).ip, ip) == After(p.ip, L.IPTimes(attempts, ip))
    ensures BucketAt(L.RunChecks(p, attempts).email, key) == After(p.email, EmailCalls(p, attempts, key))
  {
    L.PassesAreAdmissions(p, attempts, ip, 0);
    if attempts != [] {
      var before, a := attempts[..|attempts| - 1], attempts[|attempts| - 1];
      BucketsOfRun(p, before, a.input.ip, key);
      var calls := EmailCalls(p, attempts, key);
      if |calls| > |EmailCalls(p, before, key)| {
        assert calls[..|calls| - 1] == EmailCalls(p, before, key);
      } else {
        assert calls == EmailCalls(p, before, key);
      }
    }
  }

  /** The verdict on the next attempt of a run: refused for the address if its bucket is empty, with the wait of that bucket; else
      refused for the email if it is given, registered, and its bucket empty; else let through. */
  lemma {:induction false} VerdictTells(p: L.Policies, attempts: seq<L.Attempt>, a: L.Attempt)
    requires p.Valid()
    ensures var ip := After(p.ip, L.IPTimes(attempts, a.input.ip));
            var email := After(p.email, EmailCalls(p, attempts, p.normalize(a.input.email)));
            L.Checked(p, L.RunChecks(p, attempts), a).1 ==
              if !Admits(p.ip, ip, a.ipTime) then L.Verdict(false, L.IPRateLimit, Hint(p.ip, ip, a.ipTime))
              else if a.input.email != "" && a.input.emailExists && !Admits(p.email, email, a.emailTime)
              then L.Verdict(false, L.EmailRateLimit, Hint(p.email, email, a.emailTime))
              else L.Verdict(true, L.NoReason, 0)
  {
    BucketsOfRun(p, attempts, a.input.ip, p.normalize(a.input.email));
  }
}
