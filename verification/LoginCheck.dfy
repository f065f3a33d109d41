/** The pre-check before a password is compared (ratelimit/auth.go, Check): the two bucket
    halves of the login limiter. It never reads the lockout state of Lockout.dfy. */
module LoginCheck {
  import opened TokenBucket
  import opened MemoryLimiters

  datatype Input = Input(ip: string, email: string, emailExists: bool)

  datatype Reason = NoReason | IPRateLimit | EmailRateLimit

  datatype Verdict = Verdict(allowed: bool, reason: Reason, retryAfter: int)

  const Pass := Verdict(true, NoReason, 0)

  /** An attempt and the times at which its two buckets read the clock. */
  datatype Attempt = Attempt(input: Input, ipTime: int, emailTime: int)

  /** What an observer who may not know registered addresses can see of an attempt. */
  function Masked(a: Attempt): Attempt {
    if a.input.emailExists then a else a.(input := a.input.(email := ""))
  }

  datatype Buckets = Buckets(ip: View, email: View)

  datatype Policies = Policies(ip: Policy, email: Policy, normalize: string -> string)
  {
    predicate Valid() { ip.Valid() && email.Valid() }
  }

  predicate KnownEmail(input: Input) { input.email != "" && input.emailExists }

  /** One consultation of the address limiter or of the email limiter. */
  function Asked(p: Policies, b: Buckets, byIP: bool, key: string, now: int): (Buckets, Verdict)
    requires p.Valid()
  {
    if byIP then
      (b.(ip := Applied(p.ip, b.ip, Allow(key, now))),
       if Admits(p.ip, BucketAt(b.ip, key), now) then Pass
       else Verdict(false, IPRateLimit, Hint(p.ip, BucketAt(b.ip, key), now)))
    else
      (b.(email := Applied(p.email, b.email, Allow(key, now))),
       if Admits(p.email, BucketAt(b.email, key), now) then Pass
       else Verdict(false, EmailRateLimit, Hint(p.email, BucketAt(b.email, key), now)))
  }

  function Checked(p: Policies, b: Buckets, a: Attempt): (Buckets, Verdict)
    requires p.Valid()
  {
    var (b', verdict) := Asked(p, b, true, a.input.ip, a.ipTime);
    if !verdict.allowed || !KnownEmail(a.input) then (b', verdict)
    else Asked(p, b', false, p.normalize(a.input.email), a.emailTime)
  }

  function RunChecks(p: Policies, attempts: seq<Attempt>): Buckets
    requires p.Valid()
  {
    if attempts == [] then Buckets(map[], map[])
    else Checked(p, RunChecks(p, attempts[..|attempts| - 1]), attempts[|attempts| - 1]).0
  }

  function Seen(p: Policies, attempts: seq<Attempt>): (r: seq<Verdict>)
    requires p.Valid()
    ensures |r| == |attempts|
  {
    if attempts == [] then []
    else
      var before := attempts[..|attempts| - 1];
      Seen(p, before) + [Checked(p, RunChecks(p, before), attempts[|attempts| - 1]).1]
  }

  /** Two runs that differ only in addresses nobody registered cannot be told apart,
      neither by their verdicts nor by anything they leave behind. */
  lemma {:induction false} UnknownEmailsAreInvisible(p: Policies, one: seq<Attempt>, other: seq<Attempt>)
    requires p.Valid() && |one| == |other|
    requires forall i :: 0 <= i < |one| ==> Masked(one[i]) == Masked(other[i])
    ensures Seen(p, one) == Seen(p, other) && RunChecks(p, one) == RunChecks(p, other)
  {
    if one != [] {
      var n := |one| - 1;
      UnknownEmailsAreInvisible(p, one[..n], other[..n]);
      assert Masked(one[n]) == Masked(other[n]);
    }
  }

  // ---------- Registered or not ----------

  /** The attempt is for a registered email whose bucket is `key`. */
  predicate For(p: Policies, a: Attempt, key: string) {
    KnownEmail(a.input) && p.normalize(a.input.email) == key
  }

  /** The same attempts, had the emails of this bucket not been registered. */
  function Unregistered(p: Policies, attempts: seq<Attempt>, key: string): (r: seq<Attempt>)
    ensures |r| == |attempts|
  {
    seq(|attempts|, i requires 0 <= i < |attempts| => AsUnknown(p, attempts[i], key))
  }

  function AsUnknown(p: Policies, a: Attempt, key: string): Attempt {
    if For(p, a, key) then a.(input := a.input.(emailExists := false)) else a
  }

  /** The k-th attempt is one the address bucket admits and the email bucket refuses. */
  ghost predicate Betrays(p: Policies, attempts: seq<Attempt>, key: string, k: nat)
    requires p.Valid() && k < |attempts|
  {
    var b, a := RunChecks(p, attempts[..k]), attempts[k];
    && For(p, a, key)
    && Admits(p.ip, BucketAt(b.ip, a.input.ip), a.ipTime)
    && !Admits(p.email, BucketAt(b.email, key), a.emailTime)
  }

  ghost predicate Betrayed(p: Policies, attempts: seq<Attempt>, key: string)
    requires p.Valid()
  {
    exists k :: 0 <= k < |attempts| && Betrays(p, attempts, key, k)
  }

  /** Two states alike but for one email bucket. */
  ghost predicate AlikeBut(b: Buckets, c: Buckets, key: string) {
    b.ip == c.ip && forall k :: k != key ==> BucketAt(b.email, k) == BucketAt(c.email, k)
  }

  lemma {:induction false} AskedCompared(p: Policies, b: Buckets, c: Buckets, asked: string, now: int, key: string)
    requires p.Valid() && AlikeBut(b, c, key)
    ensures AlikeBut(Asked(p, b, true, asked, now).0, Asked(p, c, true, asked, now).0, key)
    ensures Asked(p, b, true, asked, now).1 == Asked(p, c, true, asked, now).1
    ensures asked == key ==> AlikeBut(Asked(p, b, false, asked, now).0, c, key)
    ensures asked != key ==>
              && AlikeBut(Asked(p, b, false, asked, now).0, Asked(p, c, false, asked, now).0, key)
              && Asked(p, b, false, asked, now).1 == Asked(p, c, false, asked, now).1
  {
    if asked != key {
      assert BucketAt(b.email, asked) == BucketAt(c.email, asked);
      forall k | k != key
        ensures BucketAt(Asked(p, b, false, asked, now).0.email, k) == BucketAt(Asked(p, c, false, asked, now).0.email, k)
      {
        assert BucketAt(b.email, k) == BucketAt(c.email, k);
      }
    }
  }

  lemma {:induction false} OneCheckCompared(p: Policies, b: Buckets, c: Buckets, a: Attempt, key: string)
    requires p.Valid() && AlikeBut(b, c, key)
    ensures AlikeBut(Checked(p, b, a).0, Checked(p, c, AsUnknown(p, a, key)).0, key)
    ensures Checked(p, b, a).1 != Checked(p, c, AsUnknown(p, a, key)).1 <==>
            && For(p, a, key) && Admits(p.ip, BucketAt(b.ip, a.input.ip), a.ipTime)
            && !Admits(p.email, BucketAt(b.email, key), a.emailTime)
  {
    AskedCompared(p, b, c, a.input.ip, a.ipTime, key);
    var b', c' := Asked(p, b, true, a.input.ip, a.ipTime).0, Asked(p, c, true, a.input.ip, a.ipTime).0;
    AskedCompared(p, b', c', p.normalize(a.input.email), a.emailTime, key);
  }

  lemma {:induction false} RunsCompared(p: Policies, attempts: seq<Attempt>, key: string)
    requires p.Valid()
    ensures AlikeBut(RunChecks(p, attempts), RunChecks(p, Unregistered(p, attempts, key)), key)
    ensures Seen(p, attempts) != Seen(p, Unregistered(p, attempts, key)) <==> Betrayed(p, attempts, key)
  {
    if attempts != [] {
      var n := |attempts| - 1;
      var b, c := RunChecks(p, attempts[..n]), RunChecks(p, Unregistered(p, attempts[..n], key));
      RunsCompared(p, attempts[..n], key);
      UnregisteredFront(p, attempts, key);
      OneCheckCompared(p, b, c, attempts[n], key);
      LastOrBefore(p, attempts, key);
      LastDiffers(Seen(p, attempts[..n]), Seen(p, Unregistered(p, attempts[..n], key)),
                  Checked(p, b, attempts[n]).1, Checked(p, c, AsUnknown(p, attempts[n], key)).1);
    }
  }

  lemma {:induction false} LastDiffers(xs: seq<Verdict>, ys: seq<Verdict>, x: Verdict, y: Verdict)
    requires |xs| == |ys|
    ensures xs + [x] == ys + [y] <==> xs == ys && x == y
  {
    assert (xs + [x])[..|xs|] == xs && (ys + [y])[..|ys|] == ys;
    assert (xs + [x])[|xs|] == x && (ys + [y])[|ys|] == y;
  }

  lemma {:induction false} UnregisteredFront(p: Policies, attempts: seq<Attempt>, key: string)
    requires p.Valid() && attempts != []
    ensures var n := |attempts| - 1;
            var r, front := Unregistered(p, attempts, key), Unregistered(p, attempts[..n], key);
            && RunChecks(p, r) == Checked(p, RunChecks(p, front), AsUnknown(p, attempts[n], key)).0
            && Seen(p, r) == Seen(p, front) + [Checked(p, RunChecks(p, front), AsUnknown(p, attempts[n], key)).1]
  {
    var n := |attempts| - 1;
    assert Unregistered(p, attempts, key)[..n] == Unregistered(p, attempts[..n], key);
  }

  lemma {:induction false} LastOrBefore(p: Policies, attempts: seq<Attempt>, key: string)
    requires p.Valid() && attempts != []
    ensures var n := |attempts| - 1;
            Betrayed(p, attempts, key) <==> Betrayed(p, attempts[..n], key) || Betrays(p, attempts, key, n)
  {
    var before := attempts[..|attempts| - 1];
    forall k | 0 <= k < |before| ensures Betrays(p, attempts, key, k) <==> Betrays(p, before, key, k) {
      assert before[..k] == attempts[..k];
    }
  }

  /** Whether an email is registered shows in the verdicts exactly when some attempt on it,
      admitted by its address, finds the email's bucket empty. */
  lemma {:induction false} RegistrationShowsExactlyWhen(p: Policies, attempts: seq<Attempt>, key: string)
    requires p.Valid()
    ensures Seen(p, attempts) != Seen(p, Unregistered(p, attempts, key)) <==>
            exists k :: 0 <= k < |attempts| && Betrays(p, attempts, key, k)
  {
    RunsCompared(p, attempts, key);
  }

  /** Distinct addresses. */
  function Address(i: nat): (s: string)
    ensures |s| == i
  {
    seq(i, k => '.')
  }

  /** n attempts on one registered email at one instant, each from an address of its own. */
  function Spread(email: string, t: int, n: nat): (r: seq<Attempt>)
    ensures |r| == n && forall i :: 0 <= i < n ==> r[i] == Attempt(Input(Address(i), email, true), t, t)
  {
    seq(n, i requires 0 <= i < n => Attempt(Input(Address(i), email, true), t, t))
  }

  lemma {:induction false} SpreadSoFar(p: Policies, email: string, t: int, n: nat)
    requires p.Valid() && email != "" && n <= p.email.capacity
    ensures var b := RunChecks(p, Spread(email, t, n));
            && Available(p.email, BucketAt(b.email, p.normalize(email)), t) == p.email.Cap() - n as real
            && forall i :: i >= n ==> Address(i) !in b.ip
  {
    if n > 0 {
      var ops := Spread(email, t, n);
      assert ops[..|ops| - 1] == Spread(email, t, n - 1);
      SpreadSoFar(p, email, t, n - 1);
      GainGrows(p.email, 0);
      GainAdds(p.email, 0, 0);
      assert forall i :: i >= n ==> |Address(i)| != |Address(n - 1)|;
    }
  }

  /** And that can always be brought about, under every policy: one attempt more than the email
      bucket holds is refused if the email is registered and passed if it is not. */
  lemma {:induction false} RegistrationCanShow(p: Policies, email: string, t: int)
    requires p.Valid() && email != ""
    ensures var attempts := Spread(email, t, p.email.capacity + 1);
            && Seen(p, attempts)[p.email.capacity].reason == EmailRateLimit
            && Seen(p, Unregistered(p, attempts, p.normalize(email)))[p.email.capacity] == Pass
  {
    var cap, key := p.email.capacity, p.normalize(email);
    var attempts := Spread(email, t, cap + 1);
    assert attempts[..cap] == Spread(email, t, cap);
    SpreadSoFar(p, email, t, cap);
    RunsCompared(p, attempts[..cap], key);
    UnregisteredFront(p, attempts, key);
    OneCheckCompared(p, RunChecks(p, attempts[..cap]), RunChecks(p, Unregistered(p, attempts[..cap], key)), attempts[cap], key);
  }

  /** The times at which one address was checked. */
  function IPTimes(attempts: seq<Attempt>, ip: string): seq<int> {
    if attempts == [] then []
    else
      var a := attempts[|attempts| - 1];
      IPTimes(attempts[..|attempts| - 1], ip) + if a.input.ip == ip then [a.ipTime] else []
  }

  /** Attempts of one address passed at or after s. */
  function PassedSince(p: Policies, attempts: seq<Attempt>, ip: string, s: int): nat
    requires p.Valid()
  {
    if attempts == [] then 0
    else
      var before, a := attempts[..|attempts| - 1], attempts[|attempts| - 1];
      PassedSince(p, before, ip, s) +
      if a.input.ip == ip && a.ipTime >= s && Checked(p, RunChecks(p, before), a).1.allowed then 1 else 0
  }

  lemma {:induction false} PassesAreAdmissions(p: Policies, attempts: seq<Attempt>, ip: string, s: int)
    requires p.Valid()
    ensures PassedSince(p, attempts, ip, s) <= AdmittedSince(p.ip, IPTimes(attempts, ip), s)
    ensures BucketAt(RunChecks(p, attempts).ip, ip) == After(p.ip, IPTimes(attempts, ip))
  {
    if attempts != [] {
      var before, a := attempts[..|attempts| - 1], attempts[|attempts| - 1];
      PassesAreAdmissions(p, before, ip, s);
      if a.input.ip == ip {
        var times := IPTimes(attempts, ip);
        assert times[..|times| - 1] == IPTimes(before, ip) && times[|times| - 1] == a.ipTime;
        assert Checked(p, RunChecks(p, before), a).1.allowed ==>
            Admits(p.ip, After(p.ip, IPTimes(before, ip)), a.ipTime);
      } else {
        assert IPTimes(attempts, ip) == IPTimes(before, ip);
      }
    }
  }

  lemma {:induction false} TimesOfTimely(attempts: seq<Attempt>, ip: string, now: int)
    requires forall i, j :: 0 <= i <= j < |attempts| ==> attempts[i].ipTime <= attempts[j].ipTime
    requires forall i :: 0 <= i < |attempts| ==> attempts[i].ipTime <= now
    ensures By(IPTimes(attempts, ip), now)
  {
    if attempts != [] {
      TimesOfTimely(attempts[..|attempts| - 1], ip, attempts[|attempts| - 1].ipTime);
    }
  }

  /** Whatever other addresses do and whatever emails are tried, no window passes
      one address more attempts than its policy allows. */
  lemma {:induction false} NoWindowPassesMore(p: Policies, attempts: seq<Attempt>, ip: string, s: int, now: int)
    requires p.Valid() && s <= now
    requires forall i, j :: 0 <= i <= j < |attempts| ==> attempts[i].ipTime <= attempts[j].ipTime
    requires forall i :: 0 <= i < |attempts| ==> attempts[i].ipTime <= now
    ensures PassedSince(p, attempts, ip, s) as real <= p.ip.Cap() + Gain(p.ip, now - s)
  {
    TimesOfTimely(attempts, ip, now);
    PassesAreAdmissions(p, attempts, ip, s);
    NoWindowExceedsAllowance(p.ip, IPTimes(attempts, ip), s, now);
  }

  class LoginThrottle {
    const ipLimiter: MemoryLimiter
    const emailLimiter: MemoryLimiter
    const normalize: string -> string
    /** Keys and waits of the rate-limit events in the audit trail. */
    var exceeded: seq<(string, int)>

    ghost predicate Valid()
      reads this, ipLimiter, emailLimiter, ipLimiter.buckets.Values, emailLimiter.buckets.Values
    {
      && ipLimiter.Valid() && emailLimiter.Valid() && ipLimiter != emailLimiter
      && ipLimiter.buckets.Values !! emailLimiter.buckets.Values
    }

    ghost function PolicyPair(): Policies
      reads this, ipLimiter, emailLimiter
    {
      Policies(ipLimiter.policy, emailLimiter.policy, normalize)
    }

    ghost function BucketPair(): Buckets
      reads this, ipLimiter, emailLimiter, ipLimiter.buckets.Values, emailLimiter.buckets.Values
    {
      Buckets(ipLimiter.View(), emailLimiter.View())
    }

    constructor (ip: MemoryLimiter, email: MemoryLimiter, normal: string -> string)
      requires ip.Valid() && email.Valid() && ip != email && ip.buckets.Values !! email.buckets.Values
      ensures Valid() && ipLimiter == ip && emailLimiter == email && normalize == normal && exceeded == []
    {
      ipLimiter, emailLimiter, normalize, exceeded := ip, email, normal, [];
    }

    /** Consults one of the two limiters, leaving the other as it was. */
    method Ask(byIP: bool, key: string, now: int) returns (res: Verdict)
      requires Valid()
      modifies ipLimiter, emailLimiter, ipLimiter.buckets.Values, emailLimiter.buckets.Values
      ensures Valid()
      ensures fresh(ipLimiter.buckets.Values - old(ipLimiter.buckets.Values))
      ensures fresh(emailLimiter.buckets.Values - old(emailLimiter.buckets.Values))
      ensures BucketPair() == Asked(PolicyPair(), old(BucketPair()), byIP, key, now).0
      ensures res == Asked(PolicyPair(), old(BucketPair()), byIP, key, now).1
    {
      if byIP {
        var allowed, wait := ipLimiter.Allow(key, now);
        assert emailLimiter.Valid() && emailLimiter.View() == old(emailLimiter.View());
        return if allowed then Pass else Verdict(false, IPRateLimit, wait);
      } else {
        var allowed, wait := emailLimiter.Allow(key, now);
        assert ipLimiter.Valid() && ipLimiter.View() == old(ipLimiter.View());
        return if allowed then Pass else Verdict(false, EmailRateLimit, wait);
      }
    }

    /** Emits the rate-limit event of a refusal. */
    method Emit(key: string, wait: int)
      requires Valid()
      modifies this`exceeded
      ensures exceeded == old(exceeded) + [(key, wait)]
      ensures Valid() && BucketPair() == old(BucketPair())
    {
      exceeded := exceeded + [(key, wait)];
    }

    /** The address bucket first, the email bucket for known emails only. Either limiter may fail, as on
        a context that is done: then the attempt is let through, with an error. */
    method Check(input: Input, ipTime: int, emailTime: int, ipFails: bool, emailFails: bool)
      returns (res: Verdict, failed: bool)
      requires Valid()
      modifies this, ipLimiter, emailLimiter, ipLimiter.buckets.Values, emailLimiter.buckets.Values
      ensures Valid()
      ensures failed <==>
              ipFails || (emailFails && KnownEmail(input) && Asked(PolicyPair(), old(BucketPair()), true, input.ip, ipTime).1.allowed)
      ensures !failed ==>
                (BucketPair(), res) == Checked(PolicyPair(), old(BucketPair()), Attempt(input, ipTime, emailTime))
      ensures failed ==> res == Pass
      ensures failed ==>
                BucketPair() == if ipFails then old(BucketPair())
                                else Asked(PolicyPair(), old(BucketPair()), true, input.ip, ipTime).0
      ensures exceeded == old(exceeded) +
              match res.reason
              case NoReason => []
              case IPRateLimit => [(input.ip, res.retryAfter)]
              case EmailRateLimit => [(normalize(input.email), res.retryAfter)]
    {
      failed := ipFails;
      res := Pass;
      if ipFails {
        return;
      }
      res := Ask(true, input.ip, ipTime);
      if !res.allowed {
        Emit(input.ip, res.retryAfter);
        return;
      }
      if input.email != "" && input.emailExists {
        if emailFails {
          failed := true;
          return;
        }
        var key := normalize(input.email);
        res := Ask(false, key, emailTime);
        if !res.allowed {
          Emit(key, res.retryAfter);
        }
      }
    }
  }
}
