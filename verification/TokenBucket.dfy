/** Token buckets over exact arithmetic (ratelimit/limiter.go, ratelimit/memory.go).
    Times are integer nanoseconds; tokens are reals. */
module TokenBucket {
  datatype Policy = Policy(capacity: int, rate: real)
  {
    predicate Valid() { capacity > 0 && rate > 0.0 }
    function Cap(): real { capacity as real }
  }

  /** One key's bucket: never consulted, or its tokens at its last tick. */
  datatype Bucket = Fresh | Filled(tokens: real, last: int)

  /** Tokens accrued in a span of time. */
  function Gain(p: Policy, ns: int): real {
    (ns as real / 1_000_000_000.0) * p.rate
  }

  function Min(a: real, b: real): real { if a <= b then a else b }

  /** The tokens a call at `now` finds. */
  function Available(p: Policy, b: Bucket, now: int): real {
    match b
    case Fresh => p.Cap()
    case Filled(tokens, last) => Min(tokens + Gain(p, now - last), p.Cap())
  }

  function Admits(p: Policy, b: Bucket, now: int): bool {
    Available(p, b, now) >= 1.0
  }

  function Called(p: Policy, b: Bucket, now: int): Bucket {
    Filled(Available(p, b, now) - if Admits(p, b, now) then 1.0 else 0.0, now)
  }

  /** The Retry-After of a denied call, in nanoseconds. */
  function Hint(p: Policy, b: Bucket, now: int): int
    requires p.Valid()
  {
    ((1.0 - Available(p, b, now)) * 1_000_000_000.0 / p.rate).Floor + 1
  }

  // ---------- Runs of calls ----------

  function After(p: Policy, times: seq<int>): Bucket {
    if times == [] then Fresh else Called(p, After(p, times[..|times| - 1]), times[|times| - 1])
  }

  function Decisions(p: Policy, times: seq<int>): (d: seq<bool>)
    ensures |d| == |times|
  {
    if times == [] then []
    else
      var before := times[..|times| - 1];
      Decisions(p, before) + [Admits(p, After(p, before), times[|times| - 1])]
  }

  ghost predicate Nondecreasing(times: seq<int>) {
    forall i, j :: 0 <= i <= j < |times| ==> times[i] <= times[j]
  }

  /** All the calls happened by `now`. */
  ghost predicate By(times: seq<int>, now: int) {
    Nondecreasing(times) && forall i :: 0 <= i < |times| ==> times[i] <= now
  }

  /** Calls admitted at or after s. */
  function AdmittedSince(p: Policy, times: seq<int>, s: int): nat {
    if times == [] then 0
    else
      var before := times[..|times| - 1];
      var last := times[|times| - 1];
      AdmittedSince(p, before, s) + if last >= s && Admits(p, After(p, before), last) then 1 else 0
  }

  // ---------- Arithmetic ----------

  lemma {:induction false} GainAdds(p: Policy, a: int, b: int)
    ensures Gain(p, a) + Gain(p, b) == Gain(p, a + b)
  {
    var x, y := a as real / 1_000_000_000.0, b as real / 1_000_000_000.0;
    assert (a + b) as real == a as real + b as real;
    assert x * p.rate + y * p.rate == (x + y) * p.rate;
  }

  lemma {:induction false} GainGrows(p: Policy, a: int)
    requires p.Valid()
    ensures Gain(p, 0) == 0.0 && (a >= 0 ==> Gain(p, a) >= 0.0) && (a > 0 ==> Gain(p, a) > 0.0)
  {
    if a > 0 {
      PositiveProduct(a as real / 1_000_000_000.0, p.rate);
    }
  }

  lemma {:induction false} PositiveProduct(x: real, y: real)
    requires x > 0.0 && y > 0.0
    ensures x * y > 0.0
  {
  }

  lemma {:induction false} TokensNeverNegative(p: Policy, times: seq<int>, now: int)
    requires p.Valid() && By(times, now)
    ensures 0.0 <= Available(p, After(p, times), now) <= p.Cap()
  {
    if times != [] {
      var before, last := times[..|times| - 1], times[|times| - 1];
      TokensNeverNegative(p, before, last);
      GainGrows(p, now - last);
    }
  }

  /** A bucket that is consulted but gives nothing is left as it was, at every
      later time. */
  lemma {:induction false} DeniedCallIsFree(p: Policy, b: Bucket, now: int, later: int)
    requires p.Valid() && now <= later && !Admits(p, b, now)
    ensures Available(p, Called(p, b, now), later) == Available(p, b, later)
  {
    match b
    case Fresh =>
    case Filled(tokens, last) =>
      GainAdds(p, now - last, later - now);
      GainGrows(p, later - now);
  }

  // ---------- The window theorem ----------

  /** No window can have been given more than it leaves over. */
  lemma {:induction false} AvailableBelowEveryWindow(p: Policy, times: seq<int>, now: int, s: int)
    requires p.Valid() && By(times, now) && s <= now
    ensures Available(p, After(p, times), now) <= p.Cap() + Gain(p, now - s) - AdmittedSince(p, times, s) as real
  {
    GainGrows(p, now - s);
    if times != [] {
      var before, last := times[..|times| - 1], times[|times| - 1];
      if s <= last {
        AvailableBelowEveryWindow(p, before, last, s);
        GainAdds(p, last - s, now - last);
      } else {
        NoneSince(p, times, s);
      }
    }
  }

  lemma {:induction false} NoneSince(p: Policy, times: seq<int>, s: int)
    requires forall i :: 0 <= i < |times| ==> times[i] < s
    ensures AdmittedSince(p, times, s) == 0
  {
    if times != [] {
      NoneSince(p, times[..|times| - 1], s);
    }
  }

  /** And some window is exactly used up: one that starts at a call, or now. */
  lemma {:induction false} SomeWindowIsTight(p: Policy, times: seq<int>, now: int) returns (s: int)
    requires p.Valid() && By(times, now)
    ensures s <= now && (s in times || s == now)
    ensures Available(p, After(p, times), now) == p.Cap() + Gain(p, now - s) - AdmittedSince(p, times, s) as real
  {
    GainGrows(p, 0);
    s := now;
    if times != [] {
      var before, last := times[..|times| - 1], times[|times| - 1];
      var b := After(p, times);
      if b.tokens + Gain(p, now - last) <= p.Cap() {
        s := SomeWindowIsTight(p, before, last);
        GainAdds(p, last - s, now - last);
      } else {
        TokensNeverNegative(p, before, last);
        assert now > last;
        NoneSince(p, times, now);
      }
    }
  }

  /** A window from s to now, this call included, that is over its allowance. */
  ghost predicate OverAllowance(p: Policy, times: seq<int>, now: int, s: int) {
    AdmittedSince(p, times, s) as real + 1.0 > p.Cap() + Gain(p, now - s)
  }

  /** A call is denied exactly when admitting it would put more than
      Capacity + RefillRate * (now - s) admissions into the window from some
      earlier-or-equal call time s. */
  lemma {:induction false} DeniedExactlyWhenOverAllowance(p: Policy, times: seq<int>, now: int)
    requires p.Valid() && By(times, now)
    ensures !Admits(p, After(p, times), now) <==>
            exists s :: s <= now && (s in times || s == now) && OverAllowance(p, times, now, s)
  {
    if !Admits(p, After(p, times), now) {
      var s := SomeWindowIsTight(p, times, now);
      assert OverAllowance(p, times, now, s);
    }
    forall s | s <= now && OverAllowance(p, times, now, s) ensures !Admits(p, After(p, times), now) {
      AvailableBelowEveryWindow(p, times, now, s);
    }
  }

  /** No window [s, end], at whatever instants it starts and ends, ever holds more
      than its allowance. */
  lemma {:induction false} NoWindowExceedsAllowance(p: Policy, times: seq<int>, s: int, end: int)
    requires p.Valid() && By(times, end) && s <= end
    ensures AdmittedSince(p, times, s) as real <= p.Cap() + Gain(p, end - s)
  {
    AvailableBelowEveryWindow(p, times, end, s);
    TokensNeverNegative(p, times, end);
  }

  // ---------- Denied calls are free ----------

  /** The elements of xs whose flag is up. */
  function Masked<T>(xs: seq<T>, keep: seq<bool>): seq<T>
    requires |xs| == |keep|
  {
    if xs == [] then []
    else Masked(xs[..|xs| - 1], keep[..|xs| - 1]) + if keep[|xs| - 1] then [xs[|xs| - 1]] else []
  }

  /** No call from t on can tell the two buckets apart. */
  ghost predicate Alike(p: Policy, a: Bucket, b: Bucket, t: int) {
    forall now :: now >= t ==> Available(p, a, now) == Available(p, b, now)
  }

  lemma {:induction false} AlikeStep(p: Policy, a: Bucket, b: Bucket, last: int, t: int, kept: bool)
    requires p.Valid() && last <= t && Alike(p, a, b, last) && (Admits(p, b, last) ==> kept)
    ensures Admits(p, a, last) == Admits(p, b, last)
    ensures Alike(p, if kept then Called(p, a, last) else a, Called(p, b, last), t)
  {
    assert Available(p, a, last) == Available(p, b, last);
    if !kept {
      forall now | now >= t ensures Available(p, a, now) == Available(p, Called(p, b, last), now) {
        DeniedCallIsFree(p, b, last, now);
      }
    }
  }

  lemma {:induction false} DecisionsStep(p: Policy, times: seq<int>)
    requires times != []
    ensures var f, last := times[..|times| - 1], times[|times| - 1];
            && After(p, times) == Called(p, After(p, f), last)
            && Decisions(p, times) == Decisions(p, f) + [Admits(p, After(p, f), last)]
  {
  }

  lemma {:induction false} MaskedStep<T>(xs: seq<T>, keep: seq<bool>, front: seq<T>, last: T)
    requires |xs| == |keep| && xs == front + [last]
    ensures var m := Masked(front, keep[..|front|]);
            Masked(xs, keep) == if keep[|front|] then m + [last] else m
  {
    assert xs[..|xs| - 1] == front;
    assert Masked(front, keep[..|front|]) + [] == Masked(front, keep[..|front|]);
  }

  /** Leaving out any set of denied calls changes no other decision. */
  lemma {:induction false} DeniedCallsAreFree(p: Policy, times: seq<int>, keep: seq<bool>, t: int)
    requires p.Valid() && By(times, t) && |keep| == |times|
    requires forall i :: 0 <= i < |times| && Decisions(p, times)[i] ==> keep[i]
    ensures Decisions(p, Masked(times, keep)) == Masked(Decisions(p, times), keep)
    ensures Alike(p, After(p, Masked(times, keep)), After(p, times), t)
  {
    if times != [] {
      var n := |times| - 1;
      var f, k, last := times[..n], keep[..n], times[n];
      DecisionsStep(p, times);
      var d, yes := Decisions(p, f), Admits(p, After(p, f), last);
      assert forall i :: 0 <= i < n ==> Decisions(p, times)[i] == d[i];
      assert Decisions(p, times)[n] == yes;
      DeniedCallsAreFree(p, f, k, last);
      AlikeStep(p, After(p, Masked(f, k)), After(p, f), last, t, keep[n]);
      MaskedStep(times, keep, f, last);
      MaskedStep(Decisions(p, times), keep, d, yes);
      OneMoreCall(p, Masked(f, k), last);
    }
  }

  lemma {:induction false} OneMoreCall(p: Policy, times: seq<int>, t: int)
    ensures After(p, times + [t]) == Called(p, After(p, times), t)
    ensures Decisions(p, times + [t]) == Decisions(p, times) + [Admits(p, After(p, times), t)]
  {
    assert (times + [t])[..|times|] == times;
  }

  // ---------- The retry hint ----------

  lemma {:induction false} HintArithmetic(x: real, rate: real, ns: int)
    requires rate > 0.0
    ensures ns as real >= x * 1_000_000_000.0 / rate <==> (ns as real / 1_000_000_000.0) * rate >= x
  {
    var y, z := x * 1_000_000_000.0 / rate, ns as real;
    QuotientTimes(x * 1_000_000_000.0, rate);
    ScaleBoth(z, y, rate);
    ScaledProduct(z, rate);
  }

  lemma {:induction false} QuotientTimes(x: real, rate: real)
    requires rate > 0.0
    ensures (x / rate) * rate == x
  {
  }

  lemma {:induction false} ScaledProduct(z: real, rate: real)
    ensures (z / 1_000_000_000.0) * rate == (z * rate) / 1_000_000_000.0
  {
  }

  lemma {:induction false} ScaleBoth(z: real, y: real, rate: real)
    requires rate > 0.0
    ensures z >= y <==> z * rate >= y * rate
  {
    assert (z - y) * rate == z * rate - y * rate && (y - z) * rate == y * rate - z * rate;
    if z >= y { NonNegativeProduct(z - y, rate); } else { PositiveProduct(y - z, rate); }
  }

  lemma {:induction false} NonNegativeProduct(x: real, y: real)
    requires x >= 0.0 && y >= 0.0
    ensures x * y >= 0.0
  {
  }

  /** After a denial at t with hint w, waiting w suffices, and waiting two
      nanoseconds less does not: w is at most one above the least wait. */
  lemma {:induction false} HintIsTight(p: Policy, b: Bucket, t: int)
    requires p.Valid() && !Admits(p, b, t)
    ensures var w := Hint(p, b, t);
            && w >= 1
            && (forall u :: u >= t + w ==> Admits(p, Called(p, b, t), u))
            && (forall v :: t <= v <= t + w - 2 ==> !Admits(p, Called(p, b, t), v))
  {
    var w := Hint(p, b, t);
    var missing := 1.0 - Available(p, b, t);
    var wait := missing * 1_000_000_000.0 / p.rate;
    assert wait > 0.0 by { HintArithmetic(missing, p.rate, 0); }
    forall u | u >= t + w ensures Admits(p, Called(p, b, t), u) {
      HintArithmetic(missing, p.rate, u - t);
    }
    forall v | t <= v <= t + w - 2 ensures !Admits(p, Called(p, b, t), v) {
      HintArithmetic(missing, p.rate, v - t);
    }
  }

  function CalledAll(p: Policy, b: Bucket, times: seq<int>): Bucket
    decreases |times|
  {
    if times == [] then b else CalledAll(p, Called(p, b, times[0]), times[1..])
  }

  predicate AllDenied(p: Policy, b: Bucket, times: seq<int>)
    decreases |times|
  {
    times == [] || (!Admits(p, b, times[0]) && AllDenied(p, Called(p, b, times[0]), times[1..]))
  }

  lemma {:induction false} DenialsChangeNothing(p: Policy, b: Bucket, denied: seq<int>, u: int)
    requires p.Valid() && By(denied, u) && AllDenied(p, b, denied)
    ensures Available(p, CalledAll(p, b, denied), u) == Available(p, b, u)
    decreases |denied|
  {
    if denied != [] {
      DenialsChangeNothing(p, Called(p, b, denied[0]), denied[1..], u);
      DeniedCallIsFree(p, b, denied[0], u);
    }
  }

  /** The hint holds however many denied calls come in between. */
  lemma {:induction false} HintIsKept(p: Policy, b: Bucket, t: int, denied: seq<int>, u: int)
    requires p.Valid() && !Admits(p, b, t)
    requires By(denied, u) && AllDenied(p, Called(p, b, t), denied)
    requires u >= t + Hint(p, b, t)
    ensures Admits(p, CalledAll(p, Called(p, b, t), denied), u)
  {
    DenialsChangeNothing(p, Called(p, b, t), denied, u);
    HintIsTight(p, b, t);
    assert Admits(p, Called(p, b, t), u);
  }
}
