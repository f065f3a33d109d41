/** Login throttling and account lockout (ratelimit/auth.go, ratelimit/failure_store.go).
    Times are nanoseconds since the zero time, so an unset lock expiry is 0. */
module Lockout {
  const DEFAULT_THRESHOLD := 10
  const DEFAULT_WINDOW := 30 * 60 * 1_000_000_000

  datatype Settings = Settings(threshold: int, window: int)
  {
    predicate Valid() { threshold > 0 && window > 0 }

    function Defaulted(): (s: Settings)
      ensures s.Valid() && (Valid() ==> s == this)
      ensures s.threshold == (if threshold <= 0 then 10 else threshold)
      ensures s.window == (if window <= 0 then 1_800_000_000_000 else window)
    {
      Settings(if threshold <= 0 then DEFAULT_THRESHOLD else threshold, if window <= 0 then DEFAULT_WINDOW else window)
    }
  }

  datatype Row = Row(count: nat, until: nat)
  type Rows = map<string, Row>

  function RowOf(rows: Rows, user: string): Row {
    if user in rows then rows[user] else Row(0, 0)
  }

  datatype Call = Failure(user: string, now: nat) | Success(user: string, now: nat)

  /** The audit event a call emits, if any. */
  datatype Outcome = Quiet | Locked | Unlocked

  function Judged(s: Settings, rows: Rows, call: Call): Outcome {
    if call.user == "" then Quiet
    else
      var row := RowOf(rows, call.user);
      match call
      case Success(_, now) => if row.until > now then Unlocked else Quiet
      case Failure(_, now) => if row.until <= now && row.count + 1 >= s.threshold then Locked else Quiet
  }

  function Applied(s: Settings, rows: Rows, call: Call): Rows
    requires s.Valid()
  {
    if call.user == "" then rows
    else
      var row := RowOf(rows, call.user);
      match call
      case Success(user, _) => rows - {user}
      case Failure(user, now) =>
        rows[user := Row(row.count + 1, if Judged(s, rows, call).Locked? then now + s.window else row.until)]
  }

  function Run(s: Settings, calls: seq<Call>): Rows
    requires s.Valid()
  {
    if calls == [] then map[] else Applied(s, Run(s, calls[..|calls| - 1]), calls[|calls| - 1])
  }

  function Outcomes(s: Settings, calls: seq<Call>): (o: seq<Outcome>)
    requires s.Valid()
    ensures |o| == |calls|
  {
    if calls == [] then []
    else
      var before := calls[..|calls| - 1];
      Outcomes(s, before) + [Judged(s, Run(s, before), calls[|calls| - 1])]
  }

  // ---------- What the calls alone say ----------

  /** Failures of the user since their last success. */
  function Streak(calls: seq<Call>, user: string): nat {
    if calls == [] then 0
    else
      var call := calls[|calls| - 1];
      if call.user != user then Streak(calls[..|calls| - 1], user)
      else if call.Failure? then Streak(calls[..|calls| - 1], user) + 1
      else 0
  }

  ghost predicate NoSuccess(calls: seq<Call>, user: string, after: nat) {
    forall j: nat :: after < j < |calls| && calls[j].user == user ==> calls[j].Failure?
  }

  /** The k-th call locked the user, who has not logged in since. */
  ghost predicate LockedAt(s: Settings, calls: seq<Call>, user: string, k: nat)
    requires s.Valid()
  {
    k < |calls| && calls[k].user == user && Outcomes(s, calls)[k].Locked? && NoSuccess(calls, user, k)
  }

  ghost predicate LockedSince(s: Settings, calls: seq<Call>, user: string)
    requires s.Valid()
  {
    exists k: nat :: LockedAt(s, calls, user, k)
  }

  /** A lock of the user, not ended by a success, that lasts beyond t. */
  ghost predicate Open(s: Settings, calls: seq<Call>, user: string, t: nat)
    requires s.Valid()
  {
    exists k: nat :: LockedAt(s, calls, user, k) && t < calls[k].now + s.window
  }

  ghost predicate Timely(calls: seq<Call>) {
    forall i, j :: 0 <= i <= j < |calls| ==> calls[i].now <= calls[j].now
  }

  ghost predicate By(calls: seq<Call>, t: nat) {
    forall i :: 0 <= i < |calls| ==> calls[i].now <= t
  }

  // ---------- One more call ----------

  lemma {:induction false} OutcomesOfPrefix(s: Settings, calls: seq<Call>, n: nat)
    requires s.Valid() && n <= |calls|
    ensures Outcomes(s, calls[..n]) == Outcomes(s, calls)[..n]
    decreases |calls| - n
  {
    if n < |calls| {
      OutcomesOfPrefix(s, calls, n + 1);
      assert calls[..n + 1][..n] == calls[..n];
    } else {
      assert calls[..n] == calls;
    }
  }

  lemma {:induction false} OutcomeAt(s: Settings, calls: seq<Call>, k: nat)
    requires s.Valid() && k < |calls|
    ensures Outcomes(s, calls)[k] == Judged(s, Run(s, calls[..k]), calls[k])
  {
    OutcomesOfPrefix(s, calls, k + 1);
    assert calls[..k + 1][..k] == calls[..k];
  }

  /** Which locks stand after one more call. */
  lemma {:induction false} LockedAfter(s: Settings, before: seq<Call>, call: Call, user: string, k: nat)
    requires s.Valid()
    ensures LockedAt(s, before + [call], user, k) <==>
            if k == |before| then call.user == user && Judged(s, Run(s, before), call).Locked?
            else LockedAt(s, before, user, k) && (call.user == user ==> call.Failure?)
  {
    var calls := before + [call];
    assert calls[..|before|] == before;
    if k < |before| {
      assert forall j :: 0 <= j < |before| ==> calls[j] == before[j];
      assert calls[|before|] == call;
      if NoSuccess(before, user, k) && (call.user == user ==> call.Failure?) {
        assert NoSuccess(calls, user, k);
      }
      if NoSuccess(calls, user, k) {
        assert NoSuccess(before, user, k);
      }
    }
  }

  // ---------- The state is what the calls say ----------

  /** A user's row, whatever the run: its count is the streak of failures, and it is
      locked exactly while an unexpired lock has not been ended by a success. */
  lemma {:induction false} RowMeaning(s: Settings, calls: seq<Call>, user: string, t: nat)
    requires s.Valid() && Timely(calls) && By(calls, t) && user != ""
    ensures RowOf(Run(s, calls), user).count == Streak(calls, user)
    ensures RowOf(Run(s, calls), user).until > t <==> Open(s, calls, user, t)
  {
    if calls != [] {
      var before, call := calls[..|calls| - 1], calls[|calls| - 1];
      assert calls == before + [call];
      RowMeaning(s, before, user, t);
      RowMeaning(s, before, user, call.now);
      assert Open(s, before, user, t) ==> Open(s, before, user, call.now);
      OpenStep(s, before, call, user, t);
    }
  }

  /** An open lock ends one window after the call that set it. */
  lemma {:induction false} LockEndsAt(s: Settings, calls: seq<Call>, user: string, now: nat) returns (k: nat)
    requires s.Valid() && Timely(calls) && By(calls, now) && user != "" && RowOf(Run(s, calls), user).until > now
    ensures LockedAt(s, calls, user, k) && RowOf(Run(s, calls), user).until == calls[k].now + s.window
  {
    var until := RowOf(Run(s, calls), user).until;
    RowMeaning(s, calls, user, until - 1);
    k :| LockedAt(s, calls, user, k) && until - 1 < calls[k].now + s.window;
    RowMeaning(s, calls, user, calls[k].now + s.window - 1);
    assert Open(s, calls, user, calls[k].now + s.window - 1);
  }

  /** The row after one more call keeps or moves its expiry. */
  lemma {:induction false} OpenStep(s: Settings, before: seq<Call>, call: Call, user: string, t: nat)
    requires s.Valid() && call.now <= t && user != ""
    requires RowOf(Run(s, before), user).until > t <==> Open(s, before, user, t)
    requires RowOf(Run(s, before), user).until <= call.now ==> !Open(s, before, user, t)
    ensures RowOf(Applied(s, Run(s, before), call), user).until > t <==> Open(s, before + [call], user, t)
  {
    OpenAfter(s, before, call, user, t);
  }

  /** A lock is open after one more call: it was open and not ended, or that call is the lock. */
  lemma {:induction false} OpenAfter(s: Settings, before: seq<Call>, call: Call, user: string, t: nat)
    requires s.Valid()
    ensures Open(s, before + [call], user, t) <==>
            || (Open(s, before, user, t) && (call.user == user ==> call.Failure?))
            || (call.user == user && Judged(s, Run(s, before), call).Locked? && t < call.now + s.window)
  {
    var calls, n := before + [call], |before|;
    if Open(s, before, user, t) && (call.user == user ==> call.Failure?) {
      var k: nat :| LockedAt(s, before, user, k) && t < before[k].now + s.window;
      LockedAfter(s, before, call, user, k);
      assert LockedAt(s, calls, user, k) && t < calls[k].now + s.window;
    }
    if call.user == user && Judged(s, Run(s, before), call).Locked? && t < call.now + s.window {
      LockedAfter(s, before, call, user, n);
      assert LockedAt(s, calls, user, n) && calls[n] == call;
    }
    if Open(s, calls, user, t) {
      var k: nat :| LockedAt(s, calls, user, k) && t < calls[k].now + s.window;
      LockedAfter(s, before, call, user, k);
      if k < n {
        assert LockedAt(s, before, user, k) && t < before[k].now + s.window;
      }
    }
  }

  /** Exactly which calls lock an account, and exactly which unlock one. */
  lemma {:induction false} EventsExactlyWhen(s: Settings, calls: seq<Call>, k: nat)
    requires s.Valid() && Timely(calls) && k < |calls| && calls[k].user != ""
    ensures Outcomes(s, calls)[k].Locked? <==>
            && calls[k].Failure? && Streak(calls[..k + 1], calls[k].user) >= s.threshold
            && !Open(s, calls[..k], calls[k].user, calls[k].now)
    ensures Outcomes(s, calls)[k].Unlocked? <==>
            calls[k].Success? && Open(s, calls[..k], calls[k].user, calls[k].now)
  {
    OutcomeAt(s, calls, k);
    RowMeaning(s, calls[..k], calls[k].user, calls[k].now);
    assert calls[..k + 1][..k] == calls[..k];
  }

  /** A user is locked since their last success exactly when the streak reached the threshold. */
  lemma {:induction false} LockedSinceThreshold(s: Settings, calls: seq<Call>, user: string)
    requires s.Valid() && Timely(calls) && user != ""
    ensures LockedSince(s, calls, user) <==> Streak(calls, user) >= s.threshold
  {
    if calls != [] {
      var before, call := calls[..|calls| - 1], calls[|calls| - 1];
      assert calls == before + [call];
      LockedSinceThreshold(s, before, user);
      RowMeaning(s, before, user, call.now);
      LockedSinceStep(s, before, call, user);
    }
  }

  lemma {:induction false} LockedSinceStep(s: Settings, before: seq<Call>, call: Call, user: string)
    requires s.Valid() && user != ""
    requires LockedSince(s, before, user) <==> Streak(before, user) >= s.threshold
    requires RowOf(Run(s, before), user).count == Streak(before, user)
    requires RowOf(Run(s, before), user).until > call.now ==> LockedSince(s, before, user)
    ensures LockedSince(s, before + [call], user) <==> Streak(before + [call], user) >= s.threshold
  {
    var calls, n := before + [call], |before|;
    assert calls[..n] == before;
    forall k: nat ensures LockedAt(s, calls, user, k) <==>
        if k == n then call.user == user && Judged(s, Run(s, before), call).Locked?
        else LockedAt(s, before, user, k) && (call.user == user ==> call.Failure?)
    {
      LockedAfter(s, before, call, user, k);
    }
    if LockedSince(s, before, user) && (call.user == user ==> call.Failure?) {
      var k: nat :| LockedAt(s, before, user, k);
      assert LockedAt(s, calls, user, k);
    }
    if call.user == user && Judged(s, Run(s, before), call).Locked? {
      assert LockedAt(s, calls, user, n);
    }
  }

  /** The first lock after a success, or after the start, comes at exactly the
      threshold-th failure, and comes there without fail. */
  lemma {:induction false} FirstLockAtThreshold(s: Settings, calls: seq<Call>, k: nat)
    requires s.Valid() && Timely(calls) && k < |calls| && calls[k].user != ""
    ensures Outcomes(s, calls)[k].Locked? && !LockedSince(s, calls[..k], calls[k].user) <==>
            calls[k].Failure? && Streak(calls[..k + 1], calls[k].user) == s.threshold
  {
    var user := calls[k].user;
    EventsExactlyWhen(s, calls, k);
    LockedSinceThreshold(s, calls[..k], user);
    assert calls[..k + 1][..k] == calls[..k];
  }

  /** Two locks of one user with no success between them are a whole window apart. */
  lemma {:induction false} LocksAreSpaced(s: Settings, calls: seq<Call>, j: nat, k: nat)
    requires s.Valid() && Timely(calls) && j < k < |calls| && calls[j].user == calls[k].user != ""
    requires Outcomes(s, calls)[j].Locked? && Outcomes(s, calls)[k].Locked?
    requires NoSuccess(calls[..k], calls[k].user, j)
    ensures calls[k].now >= calls[j].now + s.window
  {
    EventsExactlyWhen(s, calls, k);
    OutcomesOfPrefix(s, calls, k);
    assert LockedAt(s, calls[..k], calls[k].user, j);
  }

  /** After a lock expires with no success, the very next failure locks again. */
  lemma {:induction false} ExpiredLockRelocks(s: Settings, calls: seq<Call>, k: nat)
    requires s.Valid() && Timely(calls) && k < |calls| && calls[k].Failure? && calls[k].user != ""
    requires LockedSince(s, calls[..k], calls[k].user) && !Open(s, calls[..k], calls[k].user, calls[k].now)
    ensures Outcomes(s, calls)[k].Locked?
  {
    EventsExactlyWhen(s, calls, k);
    LockedSinceThreshold(s, calls[..k], calls[k].user);
    assert calls[..k + 1][..k] == calls[..k];
  }

  // ---------- The code ----------

  class MemoryFailureStore {
    var rows: Rows

    constructor ()
      ensures rows == map[]
    {
      rows := map[];
    }

    method IncrementFailure(user: string) returns (count: nat, until: nat)
      modifies this
      ensures count == RowOf(old(rows), user).count + 1 && until == RowOf(old(rows), user).until
      ensures rows == old(rows)[user := Row(count, until)]
    {
      var row := RowOf(rows, user);
      row := row.(count := row.count + 1);
      rows := rows[user := row];
      return row.count, row.until;
    }

    method ClearFailures(user: string)
      modifies this
      ensures rows == old(rows) - {user}
    {
      rows := rows - {user};
    }

    method GetFailures(user: string) returns (count: nat, until: nat)
      ensures Row(count, until) == RowOf(rows, user)
    {
      var row := RowOf(rows, user);
      return row.count, row.until;
    }

    method SetLockedUntil(user: string, until: nat)
      modifies this
      ensures rows == old(rows)[user := RowOf(old(rows), user).(until := until)]
    {
      var row := RowOf(rows, user);
      rows := rows[user := row.(until := until)];
    }
  }

  datatype AuditEvent = LockedEvent(user: string) | UnlockedEvent(user: string)

  /** The audit rows of a run: one per lock and one per unlock, in call order. */
  function Emitted(s: Settings, calls: seq<Call>): seq<AuditEvent>
    requires s.Valid()
  {
    if calls == [] then []
    else
      var before, call := calls[..|calls| - 1], calls[|calls| - 1];
      Emitted(s, before) + EventOf(call.user, Judged(s, Run(s, before), call))
  }

  function EventOf(user: string, outcome: Outcome): seq<AuditEvent> {
    match outcome
    case Locked => [LockedEvent(user)]
    case Unlocked => [UnlockedEvent(user)]
    case Quiet => []
  }

  /** The event of the next call, and what it leaves. */
  lemma {:induction false} NextEvent(s: Settings, before: seq<Call>, call: Call)
    requires s.Valid()
    ensures Run(s, before + [call]) == Applied(s, Run(s, before), call)
    ensures Emitted(s, before + [call]) == Emitted(s, before) + EventOf(call.user, Judged(s, Run(s, before), call))
    ensures Timely(before + [call]) && call.user != "" ==>
              && (Judged(s, Run(s, before), call).Locked? <==>
                  && call.Failure? && Streak(before + [call], call.user) >= s.threshold
                  && !Open(s, before, call.user, call.now))
              && (Judged(s, Run(s, before), call).Unlocked? <==>
                  call.Success? && Open(s, before, call.user, call.now))
  {
    var calls, n := before + [call], |before|;
    assert calls[..n] == before && calls[n] == call;
    assert calls[..n + 1] == calls;
    if Timely(calls) && call.user != "" {
      EventsExactlyWhen(s, calls, n);
    }
  }

  class LoginAttempts {
    const settings: Settings
    const failures: MemoryFailureStore
    var audit: seq<AuditEvent>
    ghost var calls: seq<Call>

    ghost predicate Valid()
      reads this, failures
    {
      settings.Valid() && failures.rows == Run(settings, calls) && audit == Emitted(settings, calls)
    }

    constructor (s: Settings)
      ensures Valid() && fresh(failures) && calls == [] && settings == s.Defaulted()
    {
      settings := s.Defaulted();
      failures := new MemoryFailureStore();
      audit, calls := [], [];
    }

    /** Counts the failure and locks the account if that is due. */
    method CountFailure(user: string, now: nat) returns (locked: bool)
      requires settings.Valid() && user != ""
      modifies this`audit, failures
      ensures failures.rows == Applied(settings, old(failures.rows), Failure(user, now))
      ensures locked <==> Judged(settings, old(failures.rows), Failure(user, now)).Locked?
      ensures audit == old(audit) + if locked then [LockedEvent(user)] else []
    {
      ghost var rows, row := failures.rows, RowOf(failures.rows, user);
      var count, until := failures.IncrementFailure(user);
      if until > now {
        return false;
      }
      if count >= settings.threshold {
        failures.SetLockedUntil(user, now + settings.window);
        assert failures.rows == rows[user := Row(row.count + 1, now + settings.window)];
        audit := audit + [LockedEvent(user)];
        return true;
      }
      return false;
    }

    /** Reports whether this failure starts a lock. */
    method RecordFailure(user: string, now: nat) returns (locked: bool)
      requires Valid()
      modifies this, failures
      ensures Valid() && calls == old(calls) + [Failure(user, now)]
      ensures user == "" ==> !locked && failures.rows == old(failures.rows) && audit == old(audit)
      ensures user != "" && Timely(calls) ==>
                (locked <==> Streak(calls, user) >= settings.threshold && !Open(settings, old(calls), user, now))
      ensures audit == old(audit) + if locked then [LockedEvent(user)] else []
    {
      ghost var call := Failure(user, now);
      calls := calls + [call];
      NextEvent(settings, old(calls), call);
      if user == "" {
        return false;
      }
      locked := CountFailure(user, now);
    }

    /** Clears the user, reporting in the audit trail a lock that was still open. */
    method RecordSuccess(user: string, now: nat)
      requires Valid()
      modifies this, failures
      ensures Valid() && calls == old(calls) + [Success(user, now)]
      ensures user == "" ==> failures.rows == old(failures.rows) && audit == old(audit)
      ensures user != "" ==> RowOf(failures.rows, user) == Row(0, 0)
      ensures user != "" && Timely(calls) ==>
                audit == old(audit) + if Open(settings, old(calls), user, now) then [UnlockedEvent(user)] else []
    {
      ghost var call := Success(user, now);
      calls := calls + [call];
      NextEvent(settings, old(calls), call);
      if user == "" {
        return;
      }
      var _, until := failures.GetFailures(user);
      failures.ClearFailures(user);
      if until > now {
        audit := audit + [UnlockedEvent(user)];
      }
    }

    /** Whether the user is locked out, and until when. */
    method IsLocked(user: string, now: nat) returns (locked: bool, until: nat)
      requires Valid()
      ensures user == "" ==> !locked
      ensures user != "" && Timely(calls) && By(calls, now) ==> (locked <==> Open(settings, calls, user, now))
      ensures if locked then until == RowOf(failures.rows, user).until > now else until == 0
      ensures locked && Timely(calls) && By(calls, now) ==>
                exists k: nat :: LockedAt(settings, calls, user, k) && until == calls[k].now + settings.window
    {
      if user == "" {
        return false, 0;
      }
      if Timely(calls) && By(calls, now) {
        RowMeaning(settings, calls, user, now);
      }
      var _, expiry := failures.GetFailures(user);
      if expiry > now {
        if Timely(calls) && By(calls, now) { var k := LockEndsAt(settings, calls, user, now); }
        return true, expiry;
      }
      return false, 0;
    }
  }
}
