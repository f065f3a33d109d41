/** Which rows a range check compares, by their ids alone, and what the parts of the audit log write, field by field
    (audit/verify.go, audit/memory.go, audit/chain.go). */
module AuditRange {
  import opened Common
  import opened Listings
  import opened AuditChain
  import opened AuditLog
  import opened AuditVerdicts

  // ---------- Text order ----------

  /** a is less than b when it is a proper start of b, or has the smaller character where they first differ. */
  lemma {:induction false} StrLessMeaning(a: string, b: string)
    ensures StrLess(a, b) <==>
            exists k :: 0 <= k <= |a| && k < |b| && a[..k] == b[..k] && (k == |a| || a[k] < b[k])
    decreases |a|
  {
    if a != "" && b != "" && a[0] == b[0] {
      StrLessMeaning(a[1..], b[1..]);
      if k :| 0 <= k <= |a| && k < |b| && a[..k] == b[..k] && (k == |a| || a[k] < b[k]) {
        assert a[1..][..k - 1] == a[..k][1..] && b[1..][..k - 1] == b[..k][1..];
      }
      if k :| 0 <= k <= |a[1..]| && k < |b[1..]| && a[1..][..k] == b[1..][..k] && (k == |a[1..]| || a[1..][k] < b[1..][k]) {
        assert a[..k + 1] == [a[0]] + a[1..][..k] && b[..k + 1] == [b[0]] + b[1..][..k];
      }
    } else if b != "" && (a == "" || a[0] < b[0]) {
      assert a[..0] == b[..0];
    } else if a != "" && b != "" {
      forall k | 0 < k <= |a| && k <= |b| ensures a[..k] != b[..k] { assert a[..k][0] != b[..k][0]; }
    }
  }

  // ---------- The range ----------

  /** At or above fromID, unless that is "" or "0", and at or below toID, unless that is "". */
  predicate Within(id: string, fromID: string, toID: string) {
    && (fromID == "" || fromID == "0" || fromID == id || StrLess(fromID, id))
    && (toID == "" || id == toID || StrLess(id, toID))
  }

  lemma {:induction false} InRangeIsWithin(e: Event, fromID: string, toID: string)
    ensures InRange(e, fromID, toID) <==> Within(e.id, fromID, toID)
  {
    StrTotal(e.id, fromID);
    StrTotal(e.id, toID);
    StrIrreflexive(e.id);
    if StrLess(e.id, fromID) && StrLess(fromID, e.id) { StrTransitive(e.id, fromID, e.id); }
    if StrLess(e.id, toID) && StrLess(toID, e.id) { StrTransitive(e.id, toID, e.id); }
  }

  /** Rows i and j are in the range, and none between them is. */
  ghost predicate Neighbours(es: seq<Event>, fromID: string, toID: string, i: nat, j: nat) {
    && i < j < |es| && Within(es[i].id, fromID, toID) && Within(es[j].id, fromID, toID)
    && forall k :: i < k < j ==> !Within(es[k].id, fromID, toID)
  }

  /** Row j carries the hash of row i, as the key makes it; none when row i is blank. */
  ghost predicate Carries(lib: Lib, key: string, before: Event, row: Event) {
    row.prevHash == if before.eventType == "" && before.time == 0 && before.metadata == map[] then ""
                    else lib.mac(key, Canonical(lib, before))
  }

  lemma {:induction false} SelectedNeighbours(lib: Lib, key: string, es: seq<Event>, fromID: string, toID: string)
    ensures Links(lib, key, Selected(es, fromID, toID)) <==>
            forall i: nat, j: nat :: Neighbours(es, fromID, toID, i, j) ==> Carries(lib, key, es[i], es[j])
  {
    var at := WithinPositions(es, fromID, toID);
    var w := Selected(es, fromID, toID);
    forall q | 1 <= q < |at| ensures LinkedAt(lib, key, w, q) <==> Carries(lib, key, es[at[q - 1]], es[at[q]]) {
      CarriesIsLink(lib, key, es[at[q - 1]], es[at[q]]);
    }
    NeighboursByPosition(lib, key, es, fromID, toID, at);
  }

  lemma {:induction false} WithinPositions(es: seq<Event>, fromID: string, toID: string) returns (at: seq<nat>)
    ensures Positions(es, fromID, toID, at)
    ensures var w := Selected(es, fromID, toID); |w| == |at| && forall q :: 0 <= q < |at| ==> w[q] == es[at[q]]
  {
    at := RangePositions(es, fromID, toID);
    forall e ensures InRange(e, fromID, toID) <==> Within(e.id, fromID, toID) { InRangeIsWithin(e, fromID, toID); }
  }

  lemma {:induction false} NeighboursByPosition(lib: Lib, key: string, es: seq<Event>, fromID: string, toID: string, at: seq<nat>)
    requires Positions(es, fromID, toID, at)
    ensures (forall q :: 1 <= q < |at| ==> Carries(lib, key, es[at[q - 1]], es[at[q]])) <==>
            forall i: nat, j: nat :: Neighbours(es, fromID, toID, i, j) ==> Carries(lib, key, es[i], es[j])
  {
    forall q | 1 <= q < |at| ensures Neighbours(es, fromID, toID, at[q - 1], at[q]) {
      ConsecutiveAreNeighbours(es, fromID, toID, at, q);
    }
    forall i: nat, j: nat | Neighbours(es, fromID, toID, i, j) ensures exists q :: 1 <= q < |at| && at[q - 1] == i && at[q] == j {
      NeighboursAreConsecutive(es, fromID, toID, at, i, j);
    }
  }

  lemma {:induction false} CarriesIsLink(lib: Lib, key: string, before: Event, row: Event)
    ensures ChainHashOf(lib, key, before) == row.prevHash <==> Carries(lib, key, before, row)
  {
    assert |before.metadata| == 0 <==> before.metadata == map[];
  }

  /** The positions of the rows in range, in order. */
  ghost predicate Positions(es: seq<Event>, fromID: string, toID: string, at: seq<nat>) {
    && (forall j :: 0 <= j < |at| ==> at[j] < |es| && Within(es[at[j]].id, fromID, toID))
    && (forall j :: 1 <= j < |at| ==> at[j - 1] < at[j])
    && (forall i: nat :: i < |es| && Within(es[i].id, fromID, toID) ==> i in at)
  }

  lemma {:induction false} ConsecutiveAreNeighbours(es: seq<Event>, fromID: string, toID: string, at: seq<nat>, q: nat)
    requires Positions(es, fromID, toID, at) && 1 <= q < |at|
    ensures Neighbours(es, fromID, toID, at[q - 1], at[q])
  {
    forall k | at[q - 1] < k < at[q] ensures !Within(es[k].id, fromID, toID) {
      if k in at {
        var r :| 0 <= r < |at| && at[r] == k;
        if r < q - 1 { Sparse(at, r, q - 1); }
        if q < r { Sparse(at, q, r); }
      }
    }
  }

  lemma {:induction false} NeighboursAreConsecutive(es: seq<Event>, fromID: string, toID: string, at: seq<nat>, i: nat, j: nat)
    requires Positions(es, fromID, toID, at) && Neighbours(es, fromID, toID, i, j)
    ensures exists q :: 1 <= q < |at| && at[q - 1] == i && at[q] == j
  {
    var a :| 0 <= a < |at| && at[a] == i;
    var b :| 0 <= b < |at| && at[b] == j;
    if b < a { Sparse(at, b, a); }
    if a + 1 < b {
      Sparse(at, a, a + 1);
      Sparse(at, a + 1, b);
    }
    assert b == a + 1;
  }

  /** A check passes exactly when, of the rows listed, each in the range carries the hash of the one in the range before
      it. So the rows that bear the two bounds are compared like the others. */
  lemma {:induction false} PassesExactlyWhen(lib: Lib, key: string, log: seq<Event>, fromID: string, toID: string)
    ensures var w := Window(log);
            Passes(lib, key, log, fromID, toID) <==>
            forall i: nat, j: nat :: Neighbours(w, fromID, toID, i, j) ==> Carries(lib, key, w[i], w[j])
  {
    SelectedNeighbours(lib, key, Window(log), fromID, toID);
  }

  /** Of a log listed in the order it was written, at most 1000 rows long, with increasing ids: exactly when every two
      consecutive rows link whose ids are both in the range. */
  lemma {:induction false} OrderedRangePassesExactlyWhen(lib: Lib, key: string, log: seq<Event>, fromID: string, toID: string)
    requires InListingOrder(log) && |log| <= 1000
    requires forall i, j :: 0 <= i < j < |log| ==> StrLess(log[i].id, log[j].id)
    ensures Passes(lib, key, log, fromID, toID) <==>
            forall i :: 1 <= i < |log| && Within(log[i - 1].id, fromID, toID) && Within(log[i].id, fromID, toID) ==>
              Carries(lib, key, log[i - 1], log[i])
  {
    WindowOfOrdered(log);
    assert log[0..] == log;
    PassesExactlyWhen(lib, key, log, fromID, toID);
    forall i: nat, j: nat | Neighbours(log, fromID, toID, i, j) ensures j == i + 1 {
      if i + 1 < j { BetweenIsWithin(log[i].id, log[i + 1].id, log[j].id, fromID, toID); }
    }
    forall i | 1 <= i < |log| && Within(log[i - 1].id, fromID, toID) && Within(log[i].id, fromID, toID)
      ensures Neighbours(log, fromID, toID, i - 1, i)
    {}
  }

  lemma {:induction false} BetweenIsWithin(a: string, b: string, c: string, fromID: string, toID: string)
    requires StrLess(a, b) && StrLess(b, c) && Within(a, fromID, toID) && Within(c, fromID, toID)
    ensures Within(b, fromID, toID)
  {
    if StrLess(fromID, a) { StrTransitive(fromID, a, b); }
    if StrLess(c, toID) { StrTransitive(b, c, toID); }
  }

  /** A log whose first c rows were written before the chain was switched on, and carry no hash, passes exactly when there is at
      most one such row, though nothing was tampered with. */
  lemma {:induction false} PreChainRowsPassExactlyWhen(lib: Lib, key: string, log: seq<Event>, c: nat)
    requires lib.CollisionFree(key) && InListingOrder(log) && c <= |log| <= 1000
    requires forall i :: 0 <= i < |log| ==> log[i].eventType != ""
    requires forall i :: 0 <= i < |log| ==> log[i].prevHash == if i < c || i == 0 then "" else ChainHashOf(lib, key, log[i - 1])
    ensures Passes(lib, key, log, "", "") <==> c <= 1
  {
    var fetched := seq(|log|, i => i >= c);
    forall i | 0 <= i < |log| ensures ChainedRow(lib, key, log, fetched, i) {
      RowBefore(lib, key, log, i);
      assert fetched[i] == (i >= c);
    }
    OrderedLogPassesExactlyWhen(lib, key, log, fetched);
    if c > 1 { assert !fetched[1]; }
  }

  lemma {:induction false} RowBefore(lib: Lib, key: string, log: seq<Event>, i: nat)
    requires i < |log|
    ensures ChainHashOf(lib, key, MostRecent(log[..i])) == if i == 0 then "" else ChainHashOf(lib, key, log[i - 1])
  {
    if i > 0 { assert log[..i][i - 1] == log[i - 1]; }
  }

  // ---------- What is listed ----------

  /** The rows listed are the newest thousand, oldest first: by time, and by id among equal times. */
  lemma {:induction false} WindowMeaning(log: seq<Event>)
    ensures var w := Window(log);
            && |w| == (if |log| > 1000 then 1000 else |log|) && multiset(w) <= multiset(log)
            && (forall i, j :: 0 <= i < j < |w| ==> !Newer(w[i], w[j]))
            && forall i, e :: 0 <= i < |w| && e in multiset(log) - multiset(w) ==> !Newer(e, w[i])
    ensures forall a: Event, b: Event :: !Newer(a, b) <==> a.time < b.time || (a.time == b.time && !StrLess(b.id, a.id))
  {
    var sorted, w := SortNewest(log), Window(log);
    NewerOrders();
    SortPermutes(Newer, log);
    SortIsNewestFirst(Newer, log);
    NewestFew(sorted, |w|);
    assert w == Reversed(sorted[..|w|]);
  }

  lemma {:induction false} NewestFew(sorted: seq<Event>, n: nat)
    requires n <= |sorted| && forall i, j :: 0 <= i < j < |sorted| ==> !Newer(sorted[j], sorted[i])
    ensures var w := Reversed(sorted[..n]);
            && multiset(w) <= multiset(sorted)
            && (forall i, j :: 0 <= i < j < |w| ==> !Newer(w[i], w[j]))
            && forall i, e :: 0 <= i < |w| && e in multiset(sorted) - multiset(w) ==> !Newer(e, w[i])
  {
    var w := Reversed(sorted[..n]);
    ReversedKeeps(sorted[..n]);
    assert sorted == sorted[..n] + sorted[n..];
    assert multiset(sorted) == multiset(w) + multiset(sorted[n..]);
    forall i, e | 0 <= i < |w| && e in multiset(sorted) - multiset(w) ensures !Newer(e, w[i]) {
      assert e in multiset(sorted[n..]);
      assert e in sorted[n..];
      var k :| 0 <= k < |sorted[n..]| && sorted[n..][k] == e;
      assert !Newer(sorted[n + k], sorted[n - 1 - i]);
    }
  }

  lemma {:induction false} ReversedKeeps(es: seq<Event>)
    ensures multiset(Reversed(es)) == multiset(es)
  {
    if es != [] {
      var n := |es| - 1;
      ReversedKeeps(es[..n]);
      assert Reversed(es) == [es[n]] + Reversed(es[..n]) && es == es[..n] + [es[n]];
    }
  }

  // ---------- What an emit writes ----------

  /** The row of an accepted event: its own fields, the time of the call if it had none, "info" if it had no severity, the user
      agent cut to 1024, and the next number if it had no id. An event is refused exactly for a missing type
      or an unknown severity. */
  lemma {:induction false} EmitWrites(lib: Lib, key: string, log: Log, e: Event, now: int)
    ensures var after := Emitted(lib, key, log, e, now);
            if e.eventType == "" || (e.severity != "" && e.severity != "info" && e.severity != "warning" && e.severity != "critical")
            then after == log
            else
              && |after.events| == |log.events| + 1 && after.events[..|log.events|] == log.events
              && var row := after.events[|log.events|];
                 && row.id == (if e.id == "" then "mem-" + Decimal(log.nextID + 1) else e.id)
                 && row.time == (if e.time == 0 then now else e.time)
                 && row.severity == (if e.severity == "" then "info" else e.severity)
                 && row.userAgent == (if |e.userAgent| > 1024 then e.userAgent[..1024] else e.userAgent)
                 && row.actor == e.actor && row.plugin == e.plugin && row.eventType == e.eventType && row.ip == e.ip
                 && row.resourceType == e.resourceType && row.resourceID == e.resourceID && row.metadata == e.metadata
                 && (log.events == [] ==> row.prevHash == "")
                 && (log.events != [] ==> Carries(lib, key, log.events[|log.events| - 1], row))
  {
    if log.events != [] { CarriesIsLink(lib, key, log.events[|log.events| - 1], Row(log, e.(prevHash := ChainHashOf(lib, key, MostRecent(log.events))), now)); }
  }

  /** The hashed bytes: eight fields and the time stamp, each ended by the unit separator, then the metadata. */
  lemma {:induction false} CanonicalLayout(lib: Lib, e: Event)
    ensures Canonical(lib, e) ==
            e.eventType + ['\U{1F}'] + e.actor + ['\U{1F}'] + e.plugin + ['\U{1F}'] + e.resourceType + ['\U{1F}'] + e.resourceID + ['\U{1F}']
            + e.ip + ['\U{1F}'] + e.userAgent + ['\U{1F}'] + e.severity + ['\U{1F}']
            + (if e.time == 0 then "" else lib.stamp(e.time)) + ['\U{1F}'] + CanonicalMetadataOf(e.metadata)
  {
    JoinedNine(Fields(lib, e), CanonicalMetadataOf(e.metadata));
  }

  lemma {:induction false} JoinedNine(f: seq<string>, tail: string)
    requires |f| == 9
    ensures var u := ['\U{1F}'];
            Joined(f, tail) == f[0] + u + f[1] + u + f[2] + u + f[3] + u + f[4] + u + f[5] + u + f[6] + u + f[7] + u + f[8] + u + tail
  {
    var u := ['\U{1F}'];
    var a := f[0] + u + f[1] + u + f[2] + u;
    JoinedThree("", f, tail, 0);
    assert "" + Joined(f[0..], tail) == Joined(f, tail) by { assert f[0..] == f; }
    assert "" + f[0] + u + f[1] + u + f[2] + u == a;
    JoinedThree(a, f, tail, 3);
    JoinedThree(a + f[3] + u + f[4] + u + f[5] + u, f, tail, 6);
    assert f[9..] == [];
  }

  lemma {:induction false} JoinedThree(b: string, f: seq<string>, tail: string, i: nat)
    requires i + 3 <= |f|
    ensures var u := ['\U{1F}'];
            b + Joined(f[i..], tail) == b + f[i] + u + f[i + 1] + u + f[i + 2] + u + Joined(f[i + 3..], tail)
  {
    var u := ['\U{1F}'];
    JoinedNext(b, f, tail, i);
    JoinedNext(b + f[i] + u, f, tail, i + 1);
    JoinedNext(b + f[i] + u + f[i + 1] + u, f, tail, i + 2);
  }
}
