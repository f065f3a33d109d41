/** What VerifyChain accepts: honest logs, parts of them, and rewritten ones
    (audit/verify.go over rows an audit/emitter.go emitter wrote). */
module AuditVerdicts {
  import opened Permutations
  import opened Listings
  import opened AuditChain
  import opened AuditEncoding
  import opened AuditLog

  ghost predicate Trusted(lib: Lib, key: string) {
    lib.StampsFaithfully() && lib.CollisionFree(key)
  }

  ghost predicate AllBare(log: seq<Event>) {
    forall i {:trigger Bare(log[i])} :: 0 <= i < |log| ==> Bare(log[i])
  }

  /** No two rows with the same hashed content. */
  ghost predicate Distinct(log: seq<Event>) {
    forall i, j :: 0 <= i < j < |log| ==> !SameHashed(log[i], log[j])
  }

  // ---------- One link ----------

  lemma {:induction false} RowLink(lib: Lib, key: string, log: seq<Event>, k: nat)
    requires Honest(lib, key, log) && 1 <= k < |log|
    ensures log[k].prevHash == ChainHashOf(lib, key, log[k - 1]) && log[k - 1].eventType != ""
  {
    assert HonestRow(lib, key, log, k) && HonestRow(lib, key, log, k - 1);
    assert MostRecent(log[..k]) == log[k - 1];
  }

  lemma {:induction false} RootHasNoHash(lib: Lib, key: string, log: seq<Event>)
    requires Honest(lib, key, log) && log != []
    ensures log[0].prevHash == ""
  {
    assert HonestRow(lib, key, log, 0) && IsZero(MostRecent(log[..0]));
  }

  /** Row k may stand after `prev`: its hash was computed from that content, or from nothing. */
  ghost predicate Follows(prev: Event, log: seq<Event>, k: nat)
    requires k < |log|
  {
    if k == 0 then IsZero(prev) else SameHashed(prev, log[k - 1])
  }

  /** Exactly which predecessors the hash stored in row k of an honest log accepts. */
  lemma {:induction false} LinkExactlyWhen(lib: Lib, key: string, log: seq<Event>, prev: Event, k: nat)
    requires Trusted(lib, key) && Honest(lib, key, log) && AllBare(log) && k < |log|
    ensures ChainHashOf(lib, key, prev) == log[k].prevHash <==> Follows(prev, log, k)
  {
    if k == 0 {
      RootHasNoHash(lib, key, log);
    } else {
      RowLink(lib, key, log, k);
      assert Bare(log[k - 1]);
      BytesTellHashed(lib, log[k - 1], prev);
    }
  }

  /** A list of rows whose stored hashes come from the rows `at` of an honest log. */
  ghost predicate HashesFrom(w: seq<Event>, log: seq<Event>, at: seq<nat>) {
    && |w| == |at| && (forall j :: 0 <= j < |w| ==> at[j] < |log|)
    && (forall j :: 0 <= j < |w| ==> w[j].prevHash == log[at[j]].prevHash)
  }

  ghost predicate FitsAt(w: seq<Event>, log: seq<Event>, at: seq<nat>, j: nat)
    requires 1 <= j < |w| == |at| && at[j] < |log|
  {
    Follows(w[j - 1], log, at[j])
  }

  /** Such a list passes exactly when each row but the last has the content the next row's hash
      was computed from. A row's own hash is not part of what the next hash covers. */
  lemma {:induction false} ListPassesExactlyWhen(lib: Lib, key: string, log: seq<Event>, w: seq<Event>, at: seq<nat>)
    requires Trusted(lib, key) && Honest(lib, key, log) && AllBare(log) && HashesFrom(w, log, at)
    ensures Links(lib, key, w) <==> forall j :: 1 <= j < |w| ==> FitsAt(w, log, at, j)
  {
    forall j | 1 <= j < |w|
      ensures LinkedAt(lib, key, w, j) <==> FitsAt(w, log, at, j)
    {
      LinkExactlyWhen(lib, key, log, w[j - 1], at[j]);
    }
  }

  /** Row k of a log with failed fetches may stand after `prev`. */
  ghost predicate FollowsIn(prev: Event, log: seq<Event>, fetched: seq<bool>, k: nat)
    requires k < |log| == |fetched|
  {
    if k == 0 || !fetched[k] then IsZero(prev) else SameHashed(prev, log[k - 1])
  }

  lemma {:induction false} ChainedLinkExactlyWhen(lib: Lib, key: string, log: seq<Event>, fetched: seq<bool>, prev: Event, k: nat)
    requires Trusted(lib, key) && Chained(lib, key, log, fetched) && AllBare(log) && k < |log|
    ensures ChainHashOf(lib, key, prev) == log[k].prevHash <==> FollowsIn(prev, log, fetched, k)
  {
    assert ChainedRow(lib, key, log, fetched, k);
    if k == 0 {
      assert IsZero(MostRecent(log[..0]));
    } else if fetched[k] {
      assert ChainedRow(lib, key, log, fetched, k - 1) && MostRecent(log[..k]) == log[k - 1];
      assert Bare(log[k - 1]);
      BytesTellHashed(lib, log[k - 1], prev);
    }
  }

  /** A row stored without a hash, after any row but a blank one, is always noticed. */
  lemma {:induction false} UnchainedRowIsNoticed(lib: Lib, key: string, w: seq<Event>, i: nat)
    requires lib.CollisionFree(key) && 1 <= i < |w| && w[i].prevHash == "" && !IsZero(w[i - 1])
    ensures !Links(lib, key, w)
  {
    assert !LinkedAt(lib, key, w, i);
  }

  // ---------- Rows of an honest log ----------

  function Picked(log: seq<Event>, at: seq<nat>): (w: seq<Event>)
    requires forall j :: 0 <= j < |at| ==> at[j] < |log|
    ensures |w| == |at| && forall j :: 0 <= j < |at| ==> w[j] == log[at[j]]
  {
    seq(|at|, j requires 0 <= j < |at| => log[at[j]])
  }

  ghost predicate Consecutive(at: seq<nat>) {
    forall j :: 1 <= j < |at| ==> NextAt(at, j)
  }

  predicate NextAt(at: seq<nat>, j: nat)
    requires 1 <= j < |at|
  {
    at[j] == at[j - 1] + 1
  }

  ghost predicate FetchedNextAt(at: seq<nat>, fetched: seq<bool>, j: nat)
    requires 1 <= j < |at| && at[j] < |fetched|
  {
    NextAt(at, j) && fetched[at[j]]
  }

  /** Rows taken from a log as they are, in any order, pass exactly when they are a contiguous stretch of
      it whose rows after the first all had their predecessor fetched. */
  lemma {:induction false} ChainedRowsPassExactlyWhen(lib: Lib, key: string, log: seq<Event>, fetched: seq<bool>, at: seq<nat>)
    requires Trusted(lib, key) && Chained(lib, key, log, fetched) && AllBare(log) && Distinct(log)
    requires forall j :: 0 <= j < |at| ==> at[j] < |log|
    ensures Links(lib, key, Picked(log, at)) <==> forall j :: 1 <= j < |at| ==> FetchedNextAt(at, fetched, j)
  {
    var w := Picked(log, at);
    forall j | 1 <= j < |at| ensures LinkedAt(lib, key, w, j) <==> FetchedNextAt(at, fetched, j) {
      ChainedLinkExactlyWhen(lib, key, log, fetched, w[j - 1], at[j]);
      FollowsOnlyNext(lib, key, log, fetched, at[j - 1], at[j]);
    }
  }

  lemma {:induction false} FollowsOnlyNext(lib: Lib, key: string, log: seq<Event>, fetched: seq<bool>, i: nat, k: nat)
    requires Chained(lib, key, log, fetched) && Distinct(log) && i < |log| && k < |log|
    ensures FollowsIn(log[i], log, fetched, k) <==> k == i + 1 && fetched[k]
  {
    assert ChainedRow(lib, key, log, fetched, i);
    if k > 0 && i != k - 1 {
      if i < k - 1 { assert !SameHashed(log[i], log[k - 1]); } else { assert !SameHashed(log[k - 1], log[i]); }
    }
  }

  /** Rows of an honest log pass exactly when they are a contiguous stretch of it: deleting, repeating or
      reordering rows is noticed, except at the ends. */
  lemma {:induction false} RowsPassExactlyWhenContiguous(lib: Lib, key: string, log: seq<Event>, at: seq<nat>)
    requires Trusted(lib, key) && Honest(lib, key, log) && AllBare(log) && Distinct(log)
    requires forall j :: 0 <= j < |at| ==> at[j] < |log|
    ensures Links(lib, key, Picked(log, at)) <==> Consecutive(at)
  {
    HonestIsChained(lib, key, log);
    ChainedRowsPassExactlyWhen(lib, key, log, AllFetched(|log|), at);
    forall j | 1 <= j < |at| ensures FetchedNextAt(at, AllFetched(|log|), j) <==> NextAt(at, j) {}
  }

  // ---------- Whole logs ----------

  /** Each row later than those before it, or at the same time with a greater id. */
  ghost predicate InListingOrder(log: seq<Event>) {
    forall i, j :: 0 <= i < j < |log| ==>
      log[i].time < log[j].time || (log[i].time == log[j].time && StrLess(log[i].id, log[j].id))
  }

  function Skipped(n: nat): nat { if n > VERIFY_LIMIT then n - VERIFY_LIMIT else 0 }

  lemma {:induction false} WindowOfOrdered(log: seq<Event>)
    requires InListingOrder(log)
    ensures Window(log) == log[Skipped(|log|)..]
  {
    assert Listings.Ascending(Newer, log);
    SortOfAscending(Newer, log);
  }

  /** A log in listing order, however long, passes exactly when every row of the newest thousand but the
      first had its predecessor fetched. */
  lemma {:induction false} OrderedLogPassesExactlyWhen(lib: Lib, key: string, log: seq<Event>, fetched: seq<bool>)
    requires lib.CollisionFree(key) && Chained(lib, key, log, fetched) && InListingOrder(log)
    ensures Passes(lib, key, log, "", "") <==> forall i :: Skipped(|log|) < i < |log| ==> fetched[i]
  {
    PassesWhole(lib, key, log);
    WindowOfOrdered(log);
    TailLinks(lib, key, log, fetched, Skipped(|log|));
  }

  lemma {:induction false} TailLinks(lib: Lib, key: string, log: seq<Event>, fetched: seq<bool>, skip: nat)
    requires lib.CollisionFree(key) && Chained(lib, key, log, fetched) && skip <= |log|
    ensures Links(lib, key, log[skip..]) <==> forall i :: skip < i < |log| ==> fetched[i]
  {
    forall i | skip < i < |log| ensures LinkedAt(lib, key, log[skip..], i - skip) <==> fetched[i] {
      NextRowLinks(lib, key, log, fetched, i);
    }
    if forall i :: skip < i < |log| ==> fetched[i] {
      forall j | 1 <= j < |log[skip..]| ensures LinkedAt(lib, key, log[skip..], j) { assert fetched[skip + j]; }
    }
  }

  lemma {:induction false} NextRowLinks(lib: Lib, key: string, log: seq<Event>, fetched: seq<bool>, i: nat)
    requires lib.CollisionFree(key) && Chained(lib, key, log, fetched) && 1 <= i < |log|
    ensures ChainHashOf(lib, key, log[i - 1]) == log[i].prevHash <==> fetched[i]
  {
    assert ChainedRow(lib, key, log, fetched, i) && ChainedRow(lib, key, log, fetched, i - 1);
    assert MostRecent(log[..i]) == log[i - 1];
  }

  /** An honest log in listing order passes. */
  lemma {:induction false} HonestLogPasses(lib: Lib, key: string, log: seq<Event>)
    requires lib.CollisionFree(key) && Honest(lib, key, log) && InListingOrder(log)
    ensures Passes(lib, key, log, "", "")
  {
    HonestIsChained(lib, key, log);
    OrderedLogPassesExactlyWhen(lib, key, log, AllFetched(|log|));
  }

  /** The walk visits the rows `at` of the log. */
  lemma {:induction false} WalkOrder(log: seq<Event>) returns (at: seq<nat>)
    requires |log| <= VERIFY_LIMIT
    ensures |at| == |log| && Indices(at, |log|) && Window(log) == Picked(log, at)
    ensures forall a, b :: 0 <= a < b < |log| ==> Listings.Before(Newer, log, at[b], at[a])
  {
    NewerOrders();
    var from := SortArranges(Newer, log);
    SortPermutes(Newer, log);
    at := Reversed(from);
  }

  lemma {:induction false} ConsecutiveIsIdentity(at: seq<nat>)
    requires Indices(at, |at|) && Consecutive(at)
    ensures forall j :: 0 <= j < |at| ==> at[j] == j
  {
    forall j | 0 <= j < |at| - 1 ensures at[j] < at[j + 1] { assert NextAt(at, j + 1); }
    IncreasingIsIdentity(at);
  }

  /** A log of at most a thousand rows passes exactly when it is in listing order and every row but the
      first had its predecessor fetched. */
  lemma {:induction false} ChainedLogPassesExactlyWhen(lib: Lib, key: string, log: seq<Event>, fetched: seq<bool>)
    requires Trusted(lib, key) && Chained(lib, key, log, fetched) && AllBare(log) && Distinct(log) && |log| <= VERIFY_LIMIT
    ensures Passes(lib, key, log, "", "") <==> InListingOrder(log) && forall i :: 1 <= i < |log| ==> fetched[i]
  {
    if InListingOrder(log) {
      OrderedLogPassesExactlyWhen(lib, key, log, fetched);
    }
    if Passes(lib, key, log, "", "") {
      PassesWhole(lib, key, log);
      var at := WalkOrder(log);
      ChainedRowsPassExactlyWhen(lib, key, log, fetched, at);
      FetchedIsConsecutive(at, fetched);
      ConsecutiveIsIdentity(at);
      forall i, j | 0 <= i < j < |log|
        ensures log[i].time < log[j].time || (log[i].time == log[j].time && StrLess(log[i].id, log[j].id))
      {
        assert Listings.Before(Newer, log, at[j], at[i]);
      }
    }
  }

  lemma {:induction false} FetchedIsConsecutive(at: seq<nat>, fetched: seq<bool>)
    requires forall j :: 0 <= j < |at| ==> at[j] < |fetched|
    requires forall j :: 1 <= j < |at| ==> FetchedNextAt(at, fetched, j)
    ensures Consecutive(at) && forall j :: 1 <= j < |at| ==> fetched[at[j]]
  {
    forall j | 1 <= j < |at| ensures NextAt(at, j) && fetched[at[j]] { assert FetchedNextAt(at, fetched, j); }
  }

  /** An honest log of at most a thousand rows passes exactly when it is in listing order. */
  lemma {:induction false} HonestLogPassesExactlyWhen(lib: Lib, key: string, log: seq<Event>)
    requires Trusted(lib, key) && Honest(lib, key, log) && AllBare(log) && Distinct(log) && |log| <= VERIFY_LIMIT
    ensures Passes(lib, key, log, "", "") <==> InListingOrder(log)
  {
    HonestIsChained(lib, key, log);
    ChainedLogPassesExactlyWhen(lib, key, log, AllFetched(|log|));
  }

  // ---------- A range of ids ----------

  ghost predicate RangeIsContiguous(log: seq<Event>, fromID: string, toID: string) {
    forall a, b, c :: 0 <= a < b < c < |log| && InRange(log[a], fromID, toID) && InRange(log[c], fromID, toID) ==>
      InRange(log[b], fromID, toID)
  }

  /** The rows in range, by position. */
  lemma {:induction false} RangePositions(log: seq<Event>, fromID: string, toID: string) returns (at: seq<nat>)
    ensures forall j :: 0 <= j < |at| ==> at[j] < |log| && InRange(log[at[j]], fromID, toID)
    ensures forall j :: 1 <= j < |at| ==> at[j - 1] < at[j]
    ensures forall i: nat :: i < |log| && InRange(log[i], fromID, toID) ==> i in at
    ensures Selected(log, fromID, toID) == Picked(log, at)
  {
    at := KeptPositions((e: Event) => InRange(e, fromID, toID), log);
  }

  lemma {:induction false} Sparse(at: seq<nat>, i: nat, j: nat)
    requires forall j :: 1 <= j < |at| ==> at[j - 1] < at[j]
    requires i < j < |at|
    ensures at[i] < at[j]
    decreases j
  {
    if i < j - 1 { Sparse(at, i, j - 1); }
  }

  /** Every row of the range that has another before it had its predecessor fetched. */
  ghost predicate RangeIsFetched(log: seq<Event>, fetched: seq<bool>, fromID: string, toID: string)
    requires |fetched| == |log|
  {
    forall a, c :: 0 <= a < c < |log| && InRange(log[a], fromID, toID) && InRange(log[c], fromID, toID) ==> fetched[c]
  }

  /** A range check passes exactly when no row between two rows of the range is left out of it, and every
      row of it but the first had its predecessor fetched. Ids are compared as text, so a row between two
      others in number can be left out. */
  lemma {:induction false} ChainedRangePassesExactlyWhen(lib: Lib, key: string, log: seq<Event>, fetched: seq<bool>, fromID: string, toID: string)
    requires Trusted(lib, key) && Chained(lib, key, log, fetched) && AllBare(log) && Distinct(log)
    requires InListingOrder(log) && |log| <= VERIFY_LIMIT
    ensures Passes(lib, key, log, fromID, toID) <==>
            RangeIsContiguous(log, fromID, toID) && RangeIsFetched(log, fetched, fromID, toID)
  {
    WindowOfOrdered(log);
    assert log[0..] == log;
    var at := RangePositions(log, fromID, toID);
    ChainedRowsPassExactlyWhen(lib, key, log, fetched, at);
    if RangeIsContiguous(log, fromID, toID) && RangeIsFetched(log, fetched, fromID, toID) {
      forall j | 1 <= j < |at| ensures FetchedNextAt(at, fetched, j) {
        NothingBetween(log, fromID, toID, at, j);
        assert InRange(log[at[j - 1]], fromID, toID);
      }
    }
    if Passes(lib, key, log, fromID, toID) {
      FetchedIsConsecutive(at, fetched);
      ConsecutiveRange(log, fromID, toID, at);
      forall a, c | 0 <= a < c < |log| && InRange(log[a], fromID, toID) && InRange(log[c], fromID, toID) ensures fetched[c] {
        LaterInRange(at, a, c);
      }
    }
  }

  lemma {:induction false} ConsecutiveRange(log: seq<Event>, fromID: string, toID: string, at: seq<nat>)
    requires Consecutive(at) && forall j :: 0 <= j < |at| ==> at[j] < |log| && InRange(log[at[j]], fromID, toID)
    requires forall i: nat :: i < |log| && InRange(log[i], fromID, toID) ==> i in at
    ensures RangeIsContiguous(log, fromID, toID)
  {
    forall a, b, c | 0 <= a < b < c < |log| && InRange(log[a], fromID, toID) && InRange(log[c], fromID, toID)
      ensures InRange(log[b], fromID, toID)
    {
      NothingMissing(at, a, b, c);
      var k := PositionOf(at, b);
    }
  }

  /** A position after another is not the first. */
  lemma {:induction false} LaterInRange(at: seq<nat>, a: nat, c: nat)
    requires (forall j :: 1 <= j < |at| ==> at[j - 1] < at[j]) && a in at && c in at && a < c
    ensures exists j :: 1 <= j < |at| && at[j] == c
  {
    var i := PositionOf(at, a);
    var k := PositionOf(at, c);
    if k == 0 && i > 0 { Sparse(at, 0, i); }
  }

  /** Of an honest log, exactly when no row between two rows of the range is left out. */
  lemma {:induction false} RangePassesExactlyWhen(lib: Lib, key: string, log: seq<Event>, fromID: string, toID: string)
    requires Trusted(lib, key) && Honest(lib, key, log) && AllBare(log) && Distinct(log)
    requires InListingOrder(log) && |log| <= VERIFY_LIMIT
    ensures Passes(lib, key, log, fromID, toID) <==> RangeIsContiguous(log, fromID, toID)
  {
    HonestIsChained(lib, key, log);
    ChainedRangePassesExactlyWhen(lib, key, log, AllFetched(|log|), fromID, toID);
  }

  /** Consecutive positions leave no gap. */
  lemma {:induction false} NothingMissing(at: seq<nat>, a: nat, b: nat, c: nat)
    requires Consecutive(at) && a in at && c in at && a < b < c
    ensures b in at
  {
    var i := PositionOf(at, a);
    var k := PositionOf(at, c);
    if k < i { ConsecutiveRun(at, k, i); } else { ConsecutiveRun(at, i, k); }
    ConsecutiveRun(at, i, i + (b - a));
    assert at[i + (b - a)] == b;
  }

  lemma {:induction false} ConsecutiveRun(at: seq<nat>, i: nat, k: nat)
    requires Consecutive(at) && i <= k
    ensures k < |at| ==> at[k] == at[i] + (k - i)
    decreases k
  {
    if i < k < |at| {
      ConsecutiveRun(at, i, k - 1);
      assert NextAt(at, k);
    }
  }

  lemma {:induction false} NothingBetween(log: seq<Event>, fromID: string, toID: string, at: seq<nat>, j: nat)
    requires RangeIsContiguous(log, fromID, toID) && 1 <= j < |at|
    requires forall j :: 0 <= j < |at| ==> at[j] < |log| && InRange(log[at[j]], fromID, toID)
    requires forall j :: 1 <= j < |at| ==> at[j - 1] < at[j]
    requires forall i: nat :: i < |log| && InRange(log[i], fromID, toID) ==> i in at
    ensures at[j] == at[j - 1] + 1
  {
    if at[j - 1] + 1 < at[j] {
      var b := at[j - 1] + 1;
      assert InRange(log[b], fromID, toID);
      var k := PositionOf(at, b);
      if k < j - 1 { Sparse(at, k, j - 1); }
      if j < k { Sparse(at, j, k); }
    }
  }

  // ---------- Logs numbered by the store ----------

  /** A run of an emitter on an empty store: each event with the clock reading of its emit. */
  ghost function EmittedAll(lib: Lib, key: string, events: seq<Event>, clock: seq<int>): Log
    requires |events| == |clock|
  {
    if events == [] then Log([], 0)
    else
      var n := |events| - 1;
      Emitted(lib, key, EmittedAll(lib, key, events[..n], clock[..n]), events[n], clock[n])
  }

  /** Events an emitter makes: valid, their time and id left to the store. */
  predicate Fresh(e: Event) { ValidForEmit(e) && e.id == "" && e.time == 0 }

  /** Row i, of the event emitted i-th. */
  ghost predicate RowOf(row: Event, i: nat, e: Event, t: int) {
    row.id == "mem-" + Decimal(i + 1) && row.time == t && SameHashed(row, Normalized(e, t))
  }

  lemma {:induction false} EmittedRow(lib: Lib, key: string, log: Log, e: Event, t: int)
    requires Fresh(e) && log.nextID == |log.events|
    ensures var next := Emitted(lib, key, log, e, t);
            && next.nextID == |next.events| == |log.events| + 1 && next.events[..|log.events|] == log.events
            && RowOf(next.events[|log.events|], |log.events|, e, t)
  {
  }

  lemma {:induction false} EmittedSize(lib: Lib, key: string, events: seq<Event>, clock: seq<int>)
    requires |events| == |clock| && forall i :: 0 <= i < |events| ==> Fresh(events[i])
    ensures var log := EmittedAll(lib, key, events, clock);
            |log.events| == log.nextID == |events| && Honest(lib, key, log.events)
  {
    if events != [] {
      var n := |events| - 1;
      EmittedSize(lib, key, events[..n], clock[..n]);
      var before := EmittedAll(lib, key, events[..n], clock[..n]);
      EmittedHonest(lib, key, before, events[n], clock[n]);
      EmittedRow(lib, key, before, events[n], clock[n]);
    }
  }

  /** The last emit adds one row and leaves the others. */
  lemma {:induction false} EmittedLast(lib: Lib, key: string, events: seq<Event>, clock: seq<int>)
    requires 0 < |events| == |clock| && forall j :: 0 <= j < |events| ==> Fresh(events[j])
    ensures var n := |events| - 1;
            var log, before := EmittedAll(lib, key, events, clock).events, EmittedAll(lib, key, events[..n], clock[..n]).events;
            && |log| == n + 1 && |before| == n && log[..n] == before
            && RowOf(log[n], n, events[n], clock[n])
  {
    var n := |events| - 1;
    EmittedSize(lib, key, events[..n], clock[..n]);
    EmittedRow(lib, key, EmittedAll(lib, key, events[..n], clock[..n]), events[n], clock[n]);
  }

  /** The rows of the first m emits. */
  ghost function FirstRows(lib: Lib, key: string, events: seq<Event>, clock: seq<int>, m: nat): seq<Event>
    requires m <= |events| == |clock|
  {
    EmittedAll(lib, key, events[..m], clock[..m]).events
  }

  lemma {:induction false} NextEmit(lib: Lib, key: string, events: seq<Event>, clock: seq<int>, m: nat)
    requires m < |events| == |clock| && forall j :: 0 <= j < |events| ==> Fresh(events[j])
    ensures var rows := FirstRows(lib, key, events, clock, m + 1);
            |rows| == m + 1 && rows[..m] == FirstRows(lib, key, events, clock, m) && RowOf(rows[m], m, events[m], clock[m])
  {
    assert events[..m + 1][..m] == events[..m] && clock[..m + 1][..m] == clock[..m];
    EmittedLast(lib, key, events[..m + 1], clock[..m + 1]);
  }

  /** Later emits leave row i. */
  lemma {:induction false} RowStays(lib: Lib, key: string, events: seq<Event>, clock: seq<int>, i: nat, m: nat)
    requires i < m <= |events| == |clock| && forall j :: 0 <= j < |events| ==> Fresh(events[j])
    ensures |FirstRows(lib, key, events, clock, m)| == m
    ensures RowOf(FirstRows(lib, key, events, clock, m)[i], i, events[i], clock[i])
  {
    NextEmit(lib, key, events, clock, m - 1);
    if i < m - 1 { RowStays(lib, key, events, clock, i, m - 1); }
  }

  lemma {:induction false} EmittedRowAt(lib: Lib, key: string, events: seq<Event>, clock: seq<int>, i: nat)
    requires i < |events| == |clock| && forall j :: 0 <= j < |events| ==> Fresh(events[j])
    ensures |EmittedAll(lib, key, events, clock).events| == |events|
    ensures RowOf(EmittedAll(lib, key, events, clock).events[i], i, events[i], clock[i])
  {
    assert events[..|events|] == events && clock[..|clock|] == clock;
    RowStays(lib, key, events, clock, i, |events|);
  }

  lemma {:induction false} EmittedRows(lib: Lib, key: string, events: seq<Event>, clock: seq<int>)
    requires |events| == |clock| && forall i :: 0 <= i < |events| ==> Fresh(events[i])
    ensures var log := EmittedAll(lib, key, events, clock);
            && |log.events| == log.nextID == |events| && Honest(lib, key, log.events)
            && forall i {:trigger log.events[i]} :: 0 <= i < |events| ==> RowOf(log.events[i], i, events[i], clock[i])
  {
    EmittedSize(lib, key, events, clock);
    forall i | 0 <= i < |events| ensures RowOf(EmittedAll(lib, key, events, clock).events[i], i, events[i], clock[i]) {
      EmittedRowAt(lib, key, events, clock, i);
    }
  }

  /** Text with a common start is ordered by what follows it. */
  lemma {:induction false} StrLessAfter(p: string, a: string, b: string)
    ensures StrLess(p + a, p + b) <==> StrLess(a, b)
  {
    if p == "" {
      assert p + a == a && p + b == b;
    } else {
      assert (p + a)[1..] == p[1..] + a && (p + b)[1..] == p[1..] + b;
      StrLessAfter(p[1..], a, b);
    }
  }

  lemma {:induction false} NumeralsCompared()
    ensures Decimal(1) == "1" && Decimal(3) == "3" && Decimal(9) == "9" && Decimal(10) == "10"
    ensures StrLess("10", "9") && !StrLess("9", "10")
    ensures !StrLess("1", "1") && !StrLess("2", "1") && !StrLess("10", "1") && !StrLess("2", "10") && StrLess("2", "3")
  {
    assert Decimal(10) == Decimal(1) + "0";
    assert "1"[1..] == "" && "10"[1..] == "0";
  }

  /** Whatever is emitted, if the clock reads the same at the ninth and the tenth emit, an
      untouched log of distinct events fails. */
  lemma {:induction false} TiedRowsRaiseAlarm(lib: Lib, key: string, events: seq<Event>, clock: seq<int>)
    requires Trusted(lib, key) && 10 <= |events| == |clock| <= VERIFY_LIMIT && clock[8] == clock[9]
    requires forall i :: 0 <= i < |events| ==> Fresh(events[i]) && Bare(Normalized(events[i], clock[i]))
    requires forall i, j :: 0 <= i < j < |events| ==>
               !SameHashed(Normalized(events[i], clock[i]), Normalized(events[j], clock[j]))
    ensures !Passes(lib, key, EmittedAll(lib, key, events, clock).events, "", "")
  {
    EmittedRows(lib, key, events, clock);
    var log := EmittedAll(lib, key, events, clock).events;
    assert RowOf(log[8], 8, events[8], clock[8]) && RowOf(log[9], 9, events[9], clock[9]);
    NumeralsCompared();
    StrLessAfter("mem-", "9", "10");
    EmittedDistinct(log, events, clock);
    HonestLogPassesExactlyWhen(lib, key, log);
  }

  lemma {:induction false} EmittedDistinct(log: seq<Event>, events: seq<Event>, clock: seq<int>)
    requires |log| == |events| == |clock|
    requires forall i {:trigger log[i]} :: 0 <= i < |log| ==> RowOf(log[i], i, events[i], clock[i])
    requires forall i :: 0 <= i < |events| ==> Bare(Normalized(events[i], clock[i]))
    requires forall i, j :: 0 <= i < j < |events| ==>
               !SameHashed(Normalized(events[i], clock[i]), Normalized(events[j], clock[j]))
    ensures AllBare(log) && Distinct(log)
  {
    forall i | 0 <= i < |log| ensures Bare(log[i]) {
      assert RowOf(log[i], i, events[i], clock[i]) && Bare(Normalized(events[i], clock[i]));
    }
    forall i, j | 0 <= i < j < |log| ensures !SameHashed(log[i], log[j]) {
      assert RowOf(log[i], i, events[i], clock[i]) && RowOf(log[j], j, events[j], clock[j]);
      assert !SameHashed(Normalized(events[i], clock[i]), Normalized(events[j], clock[j]));
    }
  }

  /** From mem-1 to mem-2, with mem-10 and without mem-3. */
  lemma {:induction false} OneToTwo(log: seq<Event>)
    requires |log| >= 10
    requires log[0].id == "mem-" + Decimal(1) && log[2].id == "mem-" + Decimal(3) && log[9].id == "mem-" + Decimal(10)
    ensures !RangeIsContiguous(log, "mem-1", "mem-2")
  {
    NumeralsCompared();
    StrLessAfter("mem-", "1", "1");
    StrLessAfter("mem-", "2", "1");
    StrLessAfter("mem-", "10", "1");
    StrLessAfter("mem-", "2", "10");
    StrLessAfter("mem-", "2", "3");
    assert "mem-" + "1" == "mem-1" && "mem-" + "2" == "mem-2";
    assert InRange(log[0], "mem-1", "mem-2") && InRange(log[9], "mem-1", "mem-2") && !InRange(log[2], "mem-1", "mem-2");
  }

  /** So is a range: in a log of ten rows or more the rows from mem-1 to mem-2 include mem-10
      and not mem-3, and checking them fails. */
  lemma {:induction false} NumberedRangeRaisesAlarm(lib: Lib, key: string, events: seq<Event>, clock: seq<int>)
    requires Trusted(lib, key) && 10 <= |events| == |clock| <= VERIFY_LIMIT
    requires forall i, j :: 0 <= i < j < |clock| ==> clock[i] < clock[j]
    requires forall i :: 0 <= i < |events| ==> Fresh(events[i]) && Bare(Normalized(events[i], clock[i]))
    requires forall i, j :: 0 <= i < j < |events| ==>
               !SameHashed(Normalized(events[i], clock[i]), Normalized(events[j], clock[j]))
    ensures !Passes(lib, key, EmittedAll(lib, key, events, clock).events, "mem-1", "mem-2")
  {
    EmittedRows(lib, key, events, clock);
    var log := EmittedAll(lib, key, events, clock).events;
    assert RowOf(log[0], 0, events[0], clock[0]) && RowOf(log[2], 2, events[2], clock[2]) && RowOf(log[9], 9, events[9], clock[9]);
    OneToTwo(log);
    EmittedDistinct(log, events, clock);
    EmittedInOrder(log, events, clock);
    RangePassesExactlyWhen(lib, key, log, "mem-1", "mem-2");
  }

  lemma {:induction false} EmittedInOrder(log: seq<Event>, events: seq<Event>, clock: seq<int>)
    requires |log| == |events| == |clock|
    requires forall i {:trigger log[i]} :: 0 <= i < |log| ==> RowOf(log[i], i, events[i], clock[i])
    requires forall i, j :: 0 <= i < j < |clock| ==> clock[i] < clock[j]
    ensures InListingOrder(log)
  {
    forall i, j | 0 <= i < j < |log| ensures log[i].time < log[j].time {
      assert RowOf(log[i], i, events[i], clock[i]) && RowOf(log[j], j, events[j], clock[j]);
    }
  }
}
