/** Writing the audit log through a chained emitter and verifying it
    (audit/emitter.go, audit/memory.go, audit/verify.go). */
module AuditLog {
  import opened Common
  import opened Listings
  import opened AuditChain

  const USER_AGENT_MAX: nat := 1024
  const VERIFY_LIMIT: nat := 1000
  const ZERO_EVENT := Event("", 0, "", "", "", "", "", "", "", "", map[], "")

  datatype Error = InvalidEvent | InvalidKey | ChainBroken

  predicate ValidForEmit(e: Event) {
    e.eventType != "" && e.severity in ["", "info", "warning", "critical"]
  }

  function Normalized(e: Event, now: int): Event {
    e.(time := if e.time == 0 then now else e.time,
       severity := if e.severity == "" then "info" else e.severity,
       userAgent := if |e.userAgent| > USER_AGENT_MAX then e.userAgent[..USER_AGENT_MAX] else e.userAgent)
  }

  function MostRecent(log: seq<Event>): Event {
    if log == [] then ZERO_EVENT else log[|log| - 1]
  }

  function Decimal(n: nat): string {
    if n < 10 then ["0123456789"[n]] else Decimal(n / 10) + ["0123456789"[n % 10]]
  }

  // ---------- What the store and the emitter write ----------

  /** The stored rows and the counter their ids come from. */
  datatype Log = Log(events: seq<Event>, nextID: nat)

  function Row(log: Log, e: Event, now: int): Event {
    var row := Normalized(e, now);
    if row.id == "" then row.(id := "mem-" + Decimal(log.nextID + 1)) else row
  }

  function Stored(log: Log, e: Event, now: int): Log {
    if !ValidForEmit(e) then log
    else Log(log.events + [Row(log, e, now)], if e.id == "" then log.nextID + 1 else log.nextID)
  }

  /** The event chained to the row before it, and stored. */
  ghost function Emitted(lib: Lib, key: string, log: Log, e: Event, now: int): Log {
    Stored(log, e.(prevHash := ChainHashOf(lib, key, MostRecent(log.events))), now)
  }

  /** Each row carries the hash of the row before it; the first carries none. */
  ghost predicate Honest(lib: Lib, key: string, log: seq<Event>) {
    forall i :: 0 <= i < |log| ==> HonestRow(lib, key, log, i)
  }

  ghost predicate HonestRow(lib: Lib, key: string, log: seq<Event>, i: nat)
    requires i < |log|
  {
    log[i].eventType != "" && log[i].prevHash == ChainHashOf(lib, key, MostRecent(log[..i]))
  }

  lemma {:induction false} HonestAppend(lib: Lib, key: string, log: seq<Event>, row: Event)
    requires Honest(lib, key, log) && row.eventType != "" && row.prevHash == ChainHashOf(lib, key, MostRecent(log))
    ensures Honest(lib, key, log + [row])
  {
    var es := log + [row];
    forall i | 0 <= i < |es| ensures HonestRow(lib, key, es, i) {
      assert es[..i] == log[..i];
      if i < |log| { assert HonestRow(lib, key, log, i); }
    }
    assert log[..|log|] == log;
  }

  /** The same of an emitter whose fetches sometimes failed: such a row carries no hash. */
  ghost predicate Chained(lib: Lib, key: string, log: seq<Event>, fetched: seq<bool>) {
    |fetched| == |log| && forall i :: 0 <= i < |log| ==> ChainedRow(lib, key, log, fetched, i)
  }

  ghost predicate ChainedRow(lib: Lib, key: string, log: seq<Event>, fetched: seq<bool>, i: nat)
    requires i < |log| == |fetched|
  {
    log[i].eventType != "" && log[i].prevHash == if fetched[i] then ChainHashOf(lib, key, MostRecent(log[..i])) else ""
  }

  lemma {:induction false} ChainedAppend(lib: Lib, key: string, log: seq<Event>, fetched: seq<bool>, row: Event, ok: bool)
    requires Chained(lib, key, log, fetched) && row.eventType != ""
    requires row.prevHash == if ok then ChainHashOf(lib, key, MostRecent(log)) else ""
    ensures Chained(lib, key, log + [row], fetched + [ok])
  {
    var es, fs := log + [row], fetched + [ok];
    forall i | 0 <= i < |es| ensures ChainedRow(lib, key, es, fs, i) {
      assert es[..i] == log[..i];
      if i < |log| { assert ChainedRow(lib, key, log, fetched, i); }
    }
    assert log[..|log|] == log;
  }

  function AllFetched(n: nat): (f: seq<bool>)
    ensures |f| == n && forall i :: 0 <= i < n ==> f[i]
  {
    seq(n, i => true)
  }

  lemma {:induction false} HonestIsChained(lib: Lib, key: string, log: seq<Event>)
    ensures Honest(lib, key, log) <==> Chained(lib, key, log, AllFetched(|log|))
  {
    forall i | 0 <= i < |log| ensures HonestRow(lib, key, log, i) <==> ChainedRow(lib, key, log, AllFetched(|log|), i) {}
  }

  class MemoryStore {
    var events: seq<Event>
    var nextID: nat

    ghost function State(): Log reads this { Log(events, nextID) }

    constructor ()
      ensures State() == Log([], 0)
    {
      events, nextID := [], 0;
    }

    /** Refuses an invalid event; otherwise appends its row under its own id, or the next one. */
    method Emit(e: Event, now: int) returns (r: Result<(), Error>)
      modifies this
      ensures r == if ValidForEmit(e) then Ok(()) else Err(InvalidEvent)
      ensures State() == Stored(old(State()), e, now)
      ensures r.Ok? ==> |events| == |old(events)| + 1 && events[|old(events)|].id != ""
    {
      if !ValidForEmit(e) {
        return Err(InvalidEvent);
      }
      var row := Normalized(e, now);
      if row.id == "" {
        nextID := nextID + 1;
        row := row.(id := "mem-" + Decimal(nextID));
      }
      events := events + [row];
      return Ok(());
    }
  }

  class Emitter {
    const store: MemoryStore
    const lib: Lib
    const key: string
    /** Of each row, whether its predecessor could be fetched. */
    ghost var fetches: seq<bool>

    ghost predicate Valid() reads this, store {
      Chained(lib, key, store.events, fetches)
    }

    constructor (store: MemoryStore, lib: Lib, key: string)
      requires store.events == []
      ensures Valid() && this.store == store && this.lib == lib && this.key == key && fetches == []
    {
      this.store, this.lib, this.key, fetches := store, lib, key, [];
    }

    /** Fetches the predecessor, hashes it, and stores the event after it. When the fetch fails the
        event is stored without a hash. */
    method Emit(e: Event, now: int, fetched: bool) returns (r: Result<(), Error>)
      requires Valid()
      modifies this, store
      ensures Valid()
      ensures r == if ValidForEmit(e) then Ok(()) else Err(InvalidEvent)
      ensures fetches == old(fetches) + if r.Ok? then [fetched] else []
      ensures store.State() == if fetched then Emitted(lib, key, old(store.State()), e, now)
                               else Stored(old(store.State()), e.(prevHash := ""), now)
    {
      if e.eventType == "" {
        return Err(InvalidEvent);
      }
      var hash := "";
      if fetched {
        var prev := MostRecent(store.events);
        hash := ChainHash(lib, key, prev);
      }
      ghost var before := store.State();
      r := store.Emit(e.(prevHash := hash), now);
      if r.Ok? {
        ChainedAppend(lib, key, before.events, fetches, Row(before, e.(prevHash := hash), now), fetched);
        fetches := fetches + [fetched];
      }
    }
  }

  /** An emit keeps the log honest. */
  lemma {:induction false} EmittedHonest(lib: Lib, key: string, log: Log, e: Event, now: int)
    requires Honest(lib, key, log.events)
    ensures Honest(lib, key, Emitted(lib, key, log, e, now).events)
  {
    if ValidForEmit(e) {
      HonestAppend(lib, key, log.events, Row(log, e.(prevHash := ChainHashOf(lib, key, MostRecent(log.events))), now));
    }
  }

  // ---------- Listing ----------

  /** time descending, id descending. */
  predicate Newer(a: Event, b: Event) {
    a.time > b.time || (a.time == b.time && StrLess(b.id, a.id))
  }

  lemma {:induction false} NewerOrders()
    ensures Orders(Newer)
  {
    forall a, b | Newer(a, b) ensures !Newer(b, a) {
      if a.time == b.time && StrLess(a.id, b.id) {
        StrTransitive(a.id, b.id, a.id);
        StrIrreflexive(a.id);
      }
    }
    forall a, b, c | Newer(a, b) ensures Newer(a, c) || Newer(c, b) {
      if a.time == b.time == c.time && !StrLess(c.id, a.id) {
        StrTotal(a.id, c.id);
        if StrLess(a.id, c.id) { StrTransitive(b.id, a.id, c.id); }
      }
    }
  }

  function SortNewest(log: seq<Event>): seq<Event> { Sorted(Newer, log) }

  /** The rows VerifyChain fetches, oldest first: the newest thousand. */
  function Window(log: seq<Event>): seq<Event> {
    var sorted := SortNewest(log);
    Reversed(if |sorted| > VERIFY_LIMIT then sorted[..VERIFY_LIMIT] else sorted)
  }

  /** Between the bounds, which are compared as text; "" and, below, "0" are no bound. */
  predicate InRange(e: Event, fromID: string, toID: string) {
    !(fromID != "" && fromID != "0" && StrLess(e.id, fromID)) && !(toID != "" && StrLess(toID, e.id))
  }

  function Selected(es: seq<Event>, fromID: string, toID: string): seq<Event> {
    Filter((e: Event) => InRange(e, fromID, toID), es)
  }

  lemma {:induction false} SelectedAll(es: seq<Event>)
    ensures Selected(es, "", "") == es
  {
    if es != [] {
      SelectedAll(es[1..]);
      assert es == [es[0]] + es[1..];
    }
  }

  // ---------- Verification ----------

  ghost predicate Links(lib: Lib, key: string, es: seq<Event>) {
    forall i :: 1 <= i < |es| ==> LinkedAt(lib, key, es, i)
  }

  ghost predicate LinkedAt(lib: Lib, key: string, es: seq<Event>, i: nat)
    requires 1 <= i < |es|
  {
    ChainHashOf(lib, key, es[i - 1]) == es[i].prevHash
  }

  method ReverseEvents(es: array<Event>)
    modifies es
    ensures es[..] == Reversed(old(es[..]))
  {
    var i, j := 0, es.Length - 1;
    while i < j
      invariant 0 <= i <= es.Length && j == es.Length - 1 - i
      invariant forall k :: 0 <= k < es.Length ==>
                  es[k] == if k < i || k > j then old(es[es.Length - 1 - k]) else old(es[k])
    {
      es[i], es[j] := es[j], es[i];
      i, j := i + 1, j - 1;
    }
  }

  method WalkPairs(lib: Lib, key: string, window: seq<Event>) returns (ok: bool)
    ensures ok <==> Links(lib, key, window)
  {
    var i := 1;
    while i < |window|
      invariant 1 <= i
      invariant forall k :: 1 <= k < i && k < |window| ==> LinkedAt(lib, key, window, k)
    {
      var expected := ChainHash(lib, key, window[i - 1]);
      assert expected == window[i].prevHash <==> LinkedAt(lib, key, window, i);
      if window[i].prevHash == "" && expected == "" {
        i := i + 1;
        continue;
      }
      if window[i].prevHash == "" {
        return false;
      }
      if expected != window[i].prevHash {
        return false;
      }
      i := i + 1;
    }
    return true;
  }

  /** The check finds no break: the rows between the bounds, among the newest thousand, are linked. */
  ghost predicate Passes(lib: Lib, key: string, log: seq<Event>, fromID: string, toID: string) {
    Links(lib, key, Selected(Window(log), fromID, toID))
  }

  /** Without bounds that is the whole window. */
  lemma {:induction false} PassesWhole(lib: Lib, key: string, log: seq<Event>)
    ensures Passes(lib, key, log, "", "") <==> Links(lib, key, Window(log))
  {
    SelectedAll(Window(log));
  }

  method VerifyChain(lib: Lib, key: string, log: seq<Event>, fromID: string, toID: string) returns (r: Result<(), Error>)
    ensures key == "" ==> r == Err(InvalidKey)
    ensures key != "" ==> r == if Passes(lib, key, log, fromID, toID) then Ok(()) else Err(ChainBroken)
  {
    if key == "" {
      return Err(InvalidKey);
    }
    var listed := SortNewest(log);
    if |listed| > VERIFY_LIMIT {
      listed := listed[..VERIFY_LIMIT];
    }
    var events := new Event[|listed|](i requires 0 <= i < |listed| => listed[i]);
    assert events[..] == listed;
    ReverseEvents(events);
    var window := SelectRange(events[..], fromID, toID);
    if |window| == 0 {
      return Ok(());
    }
    var ok := WalkPairs(lib, key, window);
    return if ok then Ok(()) else Err(ChainBroken);
  }

  method SelectRange(es: seq<Event>, fromID: string, toID: string) returns (window: seq<Event>)
    ensures window == Selected(es, fromID, toID)
  {
    window := [];
    for i := 0 to |es|
      invariant window == Selected(es[..i], fromID, toID)
    {
      var e := es[i];
      assert es[..i + 1] == es[..i] + [e];
      FilterAppend((x: Event) => InRange(x, fromID, toID), es[..i], e);
      if fromID != "" && fromID != "0" && StrLess(e.id, fromID) {
        continue;
      }
      if toID != "" && StrLess(toID, e.id) {
        continue;
      }
      window := window + [e];
    }
    assert es[..|es|] == es;
  }
}
