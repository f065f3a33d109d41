/** The nightly retention worker, real and dry (pruner.go), and the Postgres
    store's save decision (postgres.go), compared with the in-memory store. */
module Pruners {
  import opened Common
  import opened Delta
  import opened Revisions
  import opened Chains
  import opened Pruning
  import opened MemoryStores
  import opened Listings
  import opened Permutations
  import R = Retention
  import C = Classify

  function Projected(rows: seq<Revision>): (cs: seq<R.Candidate>)
    ensures |cs| == |rows|
  {
    seq(|rows|, i requires 0 <= i < |rows| => CandidateOf(rows[i]))
  }

  /** `revs` is newest first, as List returns it. */
  method DryRunClassify(revs: seq<Revision>, ghost rank: map<Uuid, nat>, policy: R.Policy, now: Time) returns (out: seq<Uuid>)
    requires C.DistinctIDs(Projected(Reversed(revs))) && C.Ranked(C.Indexed(Projected(Reversed(revs))), rank)
    ensures out == C.ChosenIds(Projected(Reversed(revs)), policy.PerPost().Normalized(), now)
  {
    var cs: seq<R.Candidate> := [];
    var i := |revs| - 1;
    while i >= 0
      invariant -1 <= i < |revs|
      invariant cs == Projected(Reversed(revs))[..|revs| - 1 - i]
    {
      cs := cs + [CandidateOf(revs[i])];
      i := i - 1;
    }
    assert cs == Projected(Reversed(revs));
    out := C.ClassifyForPrune(cs, rank, policy.PerPost().Normalized(), now);
  }

  function Pinned(rows: seq<Revision>): nat {
    if rows == [] then 0 else Pinned(rows[..|rows| - 1]) + if rows[|rows| - 1].isPermanent then 1 else 0
  }

  /** What the worker reads of a post: its newest 1000 revisions, newest first. */
  function Shown(s: Store, post: Uuid): seq<Revision> {
    Cut(SortNewest(RowsIn(s, post)), PRUNER_LIST_LIMIT)
  }

  /** The same rows as the classifier is given them, oldest first. */
  function ShownCandidates(s: Store, post: Uuid): seq<R.Candidate> { Projected(Reversed(Shown(s, post))) }

  /** The rows of the post oldest first by time, as the Postgres store's Prune reads them. */
  function ByTime(s: Store, post: Uuid): seq<R.Candidate> { Projected(Reversed(SortNewest(RowsIn(s, post)))) }

  /** The number a dry run reports. */
  ghost function Reported(s: Store, post: Uuid, policy: R.Policy, now: Time): nat {
    |C.ChosenIds(ShownCandidates(s, post), policy.PerPost().Normalized(), now)|
  }

  /** The number a real run deletes. */
  ghost function Deleted(s: Store, post: Uuid, policy: R.Policy, now: Time): nat {
    |R.DoomedIds(Candidates(s, post), policy.PerPost().Normalized(), now)|
  }

  method ReadShown(store: MemoryStore, post: Uuid) returns (revs: seq<Revision>)
    requires store.Valid()
    ensures revs == Shown(store.State(), post)
  {
    revs := store.ListNewest(post, OnlyLimit(PRUNER_LIST_LIMIT));
    OnlyLimitKeepsAll(RowsIn(store.State(), post), PRUNER_LIST_LIMIT);
  }

  /** One post of a sweep. A real run prunes the store; a dry run classifies what it was shown. */
  method PrunePost(store: MemoryStore, post: Uuid, policy: R.Policy, dryRun: bool, now: Time)
    returns (scanned: nat, deleted: nat, skipped: nat)
    requires store.Valid()
    modifies store
    ensures store.Valid()
    ensures var n := |List(old(store.State()), post)|;
            scanned == if n > 1000 then 1000 else n
    ensures skipped == Pinned(Shown(old(store.State()), post))
    ensures var before := old(store.State());
            var p := policy.PerPost().Normalized();
            if dryRun then store.State() == before && deleted == Reported(before, post, policy, now)
            else store.State() == PruneStep(before, post, p, now) && deleted == Deleted(before, post, policy, now)
  {
    var revs := ReadShown(store, post);
    ShownLength(store.State(), post);
    scanned := |revs|;
    skipped := CountPinned(revs);
    if dryRun {
      var rank := ShownIsRanked(store.State(), post);
      var drops := DryRunClassify(revs, rank, policy, now);
      deleted := |drops|;
      return;
    }
    deleted := store.Prune(post, policy.PerPost(), now);
  }

  /** Whatever the creation times, the rows shown are distinct and their parents have no cycle. */
  lemma {:induction false} ShownIsRanked(s: Store, post: Uuid) returns (rank: map<Uuid, nat>)
    requires Linked(s)
    ensures var cs := Projected(Reversed(Shown(s, post)));
            C.DistinctIDs(cs) && C.Ranked(C.Indexed(cs), rank)
  {
    LinkedGivesChain(s, post);
    rank := C.Positions(Candidates(s, post));
    ShownLength(s, post);
    var from := NewestPositions(s, post, |Shown(s, post)|);
    PartIsRanked(Candidates(s, post), Projected(Reversed(Shown(s, post))), from);
  }

  /** Some rows of a chain, in any order, are ranked by their places in it. */
  lemma {:induction false} PartIsRanked(all: seq<R.Candidate>, cs: seq<R.Candidate>, from: seq<nat>)
    requires R.ChainOk(all) && C.DistinctIDs(cs) && |from| == |cs|
    requires forall k :: 0 <= k < |cs| ==> from[k] < |all| && cs[k] == all[from[k]]
    ensures C.Ranked(C.Indexed(cs), C.Positions(all))
  {
    C.IndexedMeaning(cs);
    forall x | x in C.Indexed(cs) ensures C.RankedAt(C.Indexed(cs), C.Positions(all), x) {
      var k :| 0 <= k < |cs| && cs[k].id == x && C.Indexed(cs)[x] == cs[k];
      assert R.LinkOk(all, from[k]);
    }
  }

  /** Where the newest n rows of the listing stand in the post. */
  lemma {:induction false} NewestPositions(s: Store, post: Uuid, n: nat) returns (from: seq<nat>)
    requires Linked(s) && n <= |SortNewest(RowsIn(s, post))|
    ensures var cs := Projected(Reversed(SortNewest(RowsIn(s, post))[..n]));
            && |from| == n && C.DistinctIDs(cs) && Indices(from, |List(s, post)|)
            && (forall k :: 0 <= k < n ==> from[k] < |List(s, post)| && cs[k] == Candidates(s, post)[from[k]])
            && forall a, b :: 0 <= a < b < n ==> Listings.Before(Newer, RowsIn(s, post), from[b], from[a])
  {
    var rows := RowsIn(s, post);
    NewerOrders();
    var at := SortArranges(Newer, rows);
    from := Reversed(at[..n]);
    NewestPlaces(s, post, n, at, from);
    LinkedGivesChain(s, post);
    PartIsDistinct(Candidates(s, post), Projected(Reversed(SortNewest(rows)[..n])), from);
  }

  lemma {:induction false} NewestPlaces(s: Store, post: Uuid, n: nat, at: seq<nat>, from: seq<nat>)
    requires Arranges(Newer, RowsIn(s, post), SortNewest(RowsIn(s, post)), at)
    requires n <= |at| && from == Reversed(at[..n])
    ensures var cs := Projected(Reversed(SortNewest(RowsIn(s, post))[..n]));
            && |from| == n && Indices(from, |List(s, post)|)
            && (forall k :: 0 <= k < n ==> from[k] < |List(s, post)| && cs[k] == Candidates(s, post)[from[k]])
            && forall a, b :: 0 <= a < b < n ==> Listings.Before(Newer, RowsIn(s, post), from[b], from[a])
  {
    var cs := Projected(Reversed(SortNewest(RowsIn(s, post))[..n]));
    forall k | 0 <= k < n ensures from[k] < |List(s, post)| && cs[k] == Candidates(s, post)[from[k]] {
      NewestPlace(s, post, n, at, k);
    }
  }

  lemma {:induction false} NewestPlace(s: Store, post: Uuid, n: nat, at: seq<nat>, k: nat)
    requires Arranges(Newer, RowsIn(s, post), SortNewest(RowsIn(s, post)), at) && k < n <= |at|
    ensures Reversed(at[..n])[k] == at[n - 1 - k] < |List(s, post)|
    ensures Projected(Reversed(SortNewest(RowsIn(s, post))[..n]))[k] == Candidates(s, post)[at[n - 1 - k]]
  {
    var rows := RowsIn(s, post);
    var sorted := SortNewest(rows);
    assert sorted[n - 1 - k] == rows[at[n - 1 - k]];
    assert Reversed(sorted[..n])[k] == sorted[n - 1 - k];
  }

  lemma {:induction false} PartIsDistinct(all: seq<R.Candidate>, cs: seq<R.Candidate>, from: seq<nat>)
    requires R.ChainOk(all) && |from| == |cs| && Indices(from, |all|)
    requires forall k :: 0 <= k < |cs| ==> from[k] < |all| && cs[k] == all[from[k]]
    ensures C.DistinctIDs(cs)
  {
    forall i, j | 0 <= i < j < |cs| ensures cs[i].id != cs[j].id {
      assert from[i] != from[j];
    }
  }

  method CountPinned(revs: seq<Revision>) returns (pinned: nat)
    ensures pinned == Pinned(revs) <= |revs|
  {
    pinned := 0;
    for i := 0 to |revs|
      invariant pinned == Pinned(revs[..i]) <= i
    {
      assert revs[..i + 1][..i] == revs[..i];
      if revs[i].isPermanent {
        pinned := pinned + 1;
      }
    }
    assert revs[..|revs|] == revs;
  }

  lemma {:induction false} SortKeepsLength(rows: seq<Revision>)
    ensures |SortNewest(rows)| == |rows|
  {
    SortNewestSorts(rows);
    assert |multiset(SortNewest(rows))| == |multiset(rows)|;
  }

  lemma {:induction false} ShownLength(s: Store, post: Uuid)
    ensures |SortNewest(RowsIn(s, post))| == |List(s, post)|
    ensures var n := |List(s, post)|;
            |Shown(s, post)| == if n > PRUNER_LIST_LIMIT then PRUNER_LIST_LIMIT else n
    ensures Shown(s, post) == SortNewest(RowsIn(s, post))[..|Shown(s, post)|]
  {
    SortKeepsLength(RowsIn(s, post));
  }

  /** The flipped listing is what the classifier of the store itself sees of the newest rows. */
  lemma {:induction false} ShownFlipped(s: Store, post: Uuid)
    requires SortNewest(RowsIn(s, post)) == Reversed(RowsIn(s, post))
    ensures |Shown(s, post)| <= |List(s, post)|
    ensures Projected(Reversed(Shown(s, post))) == Candidates(s, post)[|List(s, post)| - |Shown(s, post)|..]
  {
    var rows, n := RowsIn(s, post), |Shown(s, post)|;
    assert Shown(s, post) == Reversed(rows)[..n];
    NewestAgain(rows, n);
    ProjectedTail(s, post, |rows| - n);
  }

  lemma {:induction false} ChainTail(s: Store, post: Uuid, k: nat)
    requires Linked(s) && k <= |List(s, post)|
    ensures R.TailOk(Candidates(s, post)[k..])
  {
    LinkedGivesChain(s, post);
    R.SuffixIsTail(Candidates(s, post), k);
  }

  lemma {:induction false} NewestAgain(rows: seq<Revision>, n: nat)
    requires n <= |rows|
    ensures Reversed(Reversed(rows)[..n]) == rows[|rows| - n..]
  {
  }

  lemma {:induction false} ProjectedTail(s: Store, post: Uuid, k: nat)
    requires k <= |List(s, post)|
    ensures Projected(RowsIn(s, post)[k..]) == Candidates(s, post)[k..]
  {
  }

  // ---------- Postgres: the queries a save makes ----------

  /** MAX(created_at) over the snapshots. */
  function LatestSnapshotTime(rows: seq<Revision>): Option<Time> {
    if rows == [] then None
    else
      var rest := LatestSnapshotTime(rows[..|rows| - 1]);
      var last := rows[|rows| - 1];
      if last.snapshot.None? then rest
      else if rest.Some? && rest.value > last.createdAt then rest
      else Some(last.createdAt)
  }

  /** Rows created at or after `since`; all of them when there is no snapshot. */
  function CountSince(rows: seq<Revision>, since: Option<Time>): nat {
    if rows == [] then 0
    else
      CountSince(rows[..|rows| - 1], since) +
      if since.None? || rows[|rows| - 1].createdAt >= since.value then 1 else 0
  }

  predicate PgUsesSnapshot(rows: seq<Revision>, createdAt: Time, o: SaveOptions) {
    var latest := LatestSnapshotTime(rows);
    || o.force
    || CountSince(rows, latest) == 0
    || CountSince(rows, latest) >= o.EveryN()
    || (o.MaxAgeSec() > 0 && (latest.None? || AgedOut(createdAt, latest.value, o)))
  }

  /** The snapshot-or-delta decision of PostgresStore.Save and the parent it diffs
      against, from the post's rows. */
  method DecideSnapshot(rows: seq<Revision>, createdAt: Time, o: SaveOptions)
    returns (useSnapshot: bool, parent: Uuid)
    ensures useSnapshot <==> PgUsesSnapshot(rows, createdAt, o)
    ensures !useSnapshot ==> rows != [] && SortNewest(rows) != [] && parent == SortNewest(rows)[0].id
  {
    useSnapshot, parent := o.force, NIL;
    if !useSnapshot {
      var since := CountSince(rows, LatestSnapshotTime(rows));
      if since == 0 {
        useSnapshot := true;
      } else if since >= o.EveryN() {
        useSnapshot := true;
      }
    }
    if !useSnapshot && o.MaxAgeSec() > 0 {
      match LatestSnapshotTime(rows)
      case Some(at) =>
        if Sub(createdAt, at) >= Seconds(o.MaxAgeSec()) {
          useSnapshot := true;
        }
      case None => useSnapshot := true;
    }
    if !useSnapshot {
      SortKeepsLength(rows);
      parent := SortNewest(rows)[0].id;
    }
  }

  lemma {:induction false} LatestSnapshotIsLast(s: Store, post: Uuid, n: nat)
    requires Linked(s) && n <= |List(s, post)| && StrictlyAscending(RowsIn(s, post))
    ensures var m := LastSnapshot(s.revisions, List(s, post)[..n]);
            LatestSnapshotTime(RowsIn(s, post)[..n]) == if m < 0 then None else Some(RowsIn(s, post)[m].createdAt)
  {
    var ids, rows := List(s, post), RowsIn(s, post);
    if n > 0 {
      LatestSnapshotIsLast(s, post, n - 1);
      assert rows[..n][..n - 1] == rows[..n - 1] && ids[..n][..n - 1] == ids[..n - 1];
      assert RowOk(s, post, n - 1);
    }
  }

  lemma {:induction false} CountFrom(rows: seq<Revision>, m: nat, n: nat)
    requires StrictlyAscending(rows) && m < |rows| && n <= |rows|
    ensures CountSince(rows[..n], Some(rows[m].createdAt)) == if n <= m then 0 else n - m
  {
    if n > 0 {
      CountFrom(rows, m, n - 1);
      assert rows[..n][..n - 1] == rows[..n - 1];
    }
  }

  /** With strictly increasing creation times, the Postgres decision and the
      in-memory decision are the same, and so is the parent. */
  lemma {:induction false} DecisionsAgree(s: Store, post: Uuid, createdAt: Time, o: SaveOptions)
    requires Linked(s) && StrictlyAscending(RowsIn(s, post))
    ensures PgUsesSnapshot(RowsIn(s, post), createdAt, o) <==> !DeltaDue(s.revisions, List(s, post), createdAt, o)
    ensures !PgUsesSnapshot(RowsIn(s, post), createdAt, o) ==>
              List(s, post) != [] && SortNewest(RowsIn(s, post)) != []
              && SortNewest(RowsIn(s, post))[0].id == List(s, post)[|List(s, post)| - 1]
  {
    var ids, rows := List(s, post), RowsIn(s, post);
    LatestOfAll(s, post);
    ListingReversesInsertion(rows);
    if |ids| > 0 {
      NewestHops(s, post, |ids| - 1);
      assert RowOk(s, post, LastSnapshot(s.revisions, ids)) && RowOk(s, post, |ids| - 1);
    }
  }

  /** The latest snapshot time is that of the last snapshot, and the rows since then are those after it and itself. */
  lemma {:induction false} LatestOfAll(s: Store, post: Uuid)
    requires Linked(s) && StrictlyAscending(RowsIn(s, post))
    ensures var rows, m := RowsIn(s, post), LastSnapshot(s.revisions, List(s, post));
            && LatestSnapshotTime(rows) == (if m < 0 then None else Some(rows[m].createdAt))
            && (m >= 0 ==> CountSince(rows, LatestSnapshotTime(rows)) == |rows| - m)
  {
    var ids, rows := List(s, post), RowsIn(s, post);
    assert ids[..|ids|] == ids && rows[..|ids|] == rows;
    LatestSnapshotIsLast(s, post, |ids|);
    var m := LastSnapshot(s.revisions, ids);
    if m >= 0 { CountFrom(rows, m, |ids|); }
  }

  /** materializeWithDepth: a missing row is corrupt only below the row asked for. */
  function PgMaterializeAt(rows: Rows, codec: Codec, id: Uuid, depth: nat): Result<Json, Error>
    decreases MAX_CHAIN_DEPTH - depth
  {
    if depth >= MAX_CHAIN_DEPTH then Err(CorruptChain)
    else if id !in rows then Err(if depth > 0 then CorruptChain else NotFound)
    else
      var r := rows[id];
      if r.snapshot.Some? then Ok(r.snapshot.value)
      else if r.deltaFrom == NIL then Err(CorruptChain)
      else
        match PgMaterializeAt(rows, codec, r.deltaFrom, depth + 1)
        case Err(e) => Err(e)
        case Ok(parent) =>
          if r.delta.None? then Ok(parent)
          else match codec.apply(parent, r.delta.value)
            case None => Err(InvalidDelta)
            case Some(doc) => Ok(doc)
  }

  /** Both stores read the same document; only an unknown id is reported
      differently. */
  lemma {:induction false} ReadersAgree(rows: Rows, codec: Codec, id: Uuid, depth: nat)
    ensures PgMaterializeAt(rows, codec, id, depth) ==
            if depth == 0 && id !in rows then Err(NotFound) else MaterializeAt(rows, codec, id, depth)
    decreases MAX_CHAIN_DEPTH - depth
  {
    if depth < MAX_CHAIN_DEPTH && id in rows {
      ReadersAgree(rows, codec, rows[id].deltaFrom, depth + 1);
    }
  }
}
