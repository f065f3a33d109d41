/** The in-process revision store (memory.go) and the retention worker that drives
    it (pruner.go). */
module MemoryStores {
  import opened Common
  import opened Delta
  import opened Revisions
  import opened Chains
  import opened Pruning
  import opened Listings
  import R = Retention
  import C = Classify

  const DEFAULT_LIST_LIMIT: nat := 100
  const PRUNER_LIST_LIMIT: nat := 1000

  // ---------- Listing order ----------

  /** created_at descending, id descending. */
  predicate Newer(a: Revision, b: Revision) {
    a.createdAt > b.createdAt || (a.createdAt == b.createdAt && a.id > b.id)
  }

  lemma {:induction false} NewerOrders()
    ensures Orders(Newer)
  {
  }

  function SortNewest(rows: seq<Revision>): seq<Revision> { Sorted(Newer, rows) }

  ghost predicate StrictlyAscending(rows: seq<Revision>) {
    forall i, j :: 0 <= i < j < |rows| ==> rows[i].createdAt < rows[j].createdAt
  }

  /** The listing is a permutation of the rows, newest first. */
  lemma {:induction false} SortNewestSorts(rows: seq<Revision>)
    ensures var out := SortNewest(rows);
            multiset(out) == multiset(rows) && forall i, j :: 0 <= i < j < |out| ==> !Newer(out[j], out[i])
  {
    NewerOrders();
    SortPermutes(Newer, rows);
    SortIsNewestFirst(Newer, rows);
  }

  lemma {:induction false} ListingReversesInsertion(rows: seq<Revision>)
    requires StrictlyAscending(rows)
    ensures SortNewest(rows) == Reversed(rows)
  {
    SortOfAscending(Newer, rows);
  }

  /** The rows of a chain can be walked up: ids are distinct, and parents rank lower. */
  lemma {:induction false} ChainIsRanked(cs: seq<R.Candidate>)
    requires R.ChainOk(cs)
    ensures C.DistinctIDs(cs) && C.Ranked(C.Indexed(cs), C.Positions(cs))
  {
    R.SuffixIsTail(cs, 0);
    assert cs[0..] == cs;
    C.TailIsRanked(cs);
  }

  // ---------- Filters ----------

  /** Zero values are wildcards. */
  datatype Filters = Filters(start: Time, end: Time, authorID: Uuid, kind: Option<Kind>, limit: int)

  predicate Matches(r: Revision, f: Filters) {
    && (f.start != 0 ==> r.createdAt >= f.start)
    && (f.end != 0 ==> r.createdAt <= f.end)
    && (f.authorID != NIL ==> r.authorID == f.authorID)
    && (f.kind.Some? ==> r.kind == f.kind.value)
  }

  function Matching(f: Filters): Revision -> bool { (r: Revision) => Matches(r, f) }

  function Limit(f: Filters): nat { if f.limit <= 0 then DEFAULT_LIST_LIMIT else f.limit }

  function Cut(rows: seq<Revision>, n: nat): seq<Revision> { if |rows| > n then rows[..n] else rows }

  /** Nothing asked for but a limit. */
  function OnlyLimit(n: int): Filters { Filters(0, 0, NIL, None, n) }

  lemma {:induction false} OnlyLimitKeepsAll(rows: seq<Revision>, n: int)
    ensures Filter(Matching(OnlyLimit(n)), rows) == rows
  {
    if rows != [] {
      OnlyLimitKeepsAll(rows[1..], n);
      assert rows == [rows[0]] + rows[1..];
    }
  }

  /** The post's rows in insertion order. */
  function RowsIn(s: Store, post: Uuid): (rows: seq<Revision>)
    ensures |rows| == |List(s, post)|
  {
    seq(|List(s, post)|, i requires 0 <= i < |List(s, post)| => RowAt(s, List(s, post)[i]))
  }

  // ---------- The store ----------

  class MemoryStore {
    const codec: Codec
    var revisions: map<Uuid, Revision>
    var byPost: map<Uuid, seq<Uuid>>
    // The document given to each save, and the depth the save gave it.
    ghost var origins: Origins

    ghost function State(): Store reads this { Store(revisions, byPost) }

    ghost predicate Valid() reads this {
      codec.RoundTrips() && Sound(State(), codec, origins)
    }

    constructor (codec: Codec)
      requires codec.RoundTrips()
      ensures Valid() && State() == EMPTY_STORE && this.codec == codec
    {
      this.codec := codec;
      revisions, byPost, origins := map[], map[], map[];
    }

    method Save(r: Revision, o: SaveOptions, newID: Uuid, now: Time) returns (res: Result<Uuid, Error>)
      requires Valid()
      requires ValidForSave(r) ==>
                 Draft(r) && Stamped(r, newID, now).id != NIL && Stamped(r, newID, now).id !in origins
      modifies this
      ensures Valid()
      ensures (State(), res) == SaveStep(old(State()), codec, r, o, newID, now)
      ensures !ValidForSave(r) ==> res == Err(InvalidRevision) && origins == old(origins)
      ensures ValidForSave(r) ==>
                && res == Ok(Stamped(r, newID, now).id)
                && res.value in origins && origins[res.value].doc == r.content.doc
                && forall x :: x in old(origins) ==> x in origins && origins[x] == old(origins[x])
    {
      if !ValidForSave(r) {
        return Err(InvalidRevision);
      }
      SaveKeepsSound(State(), codec, origins, r, o, newID, now);
      var stamped := Stamped(r, newID, now);
      var prior := if r.postID in byPost then byPost[r.postID] else [];
      var row := PersistedFromInput(stamped, prior, o);
      ghost var hops := HopsOfSave(revisions, prior, stamped.createdAt, o);
      revisions := revisions[row.value.id := row.value];
      byPost := byPost[r.postID := prior + [row.value.id]];
      origins := origins[row.value.id := Origin(r.content.doc, hops)];
      return Ok(row.value.id);
    }

    /** The position of the newest snapshot of the list, or -1. */
    method FindLastSnapshot(post: Uuid, prior: seq<Uuid>) returns (last: int)
      requires Valid() && prior == List(State(), post)
      ensures last == LastSnapshot(revisions, prior)
    {
      var i := |prior| - 1;
      assert prior[..|prior|] == prior;
      while i >= 0
        invariant -1 <= i < |prior|
        invariant LastSnapshot(revisions, prior) == LastSnapshot(revisions, prior[..i + 1])
      {
        assert RowOk(State(), post, i);
        assert prior[..i + 1][..i] == prior[..i];
        if revisions[prior[i]].snapshot.Some? {
          return i;
        }
        i := i - 1;
      }
      return -1;
    }

    /** Whether the save may be stored as a delta. */
    method DecideDelta(post: Uuid, prior: seq<Uuid>, createdAt: Time, o: SaveOptions) returns (due: bool)
      requires Valid() && prior == List(State(), post)
      ensures due == DeltaDue(revisions, prior, createdAt, o)
    {
      if o.force || |prior| == 0 {
        return false;
      }
      var last := FindLastSnapshot(post, prior);
      if last < 0 {
        return false;
      }
      if |prior| - last >= o.EveryN() {
        return false;
      }
      assert RowOk(State(), post, last);
      if o.MaxAgeSec() > 0 {
        var age := Sub(createdAt, revisions[prior[last]].createdAt);
        if age >= Seconds(o.MaxAgeSec()) {
          return false;
        }
      }
      return true;
    }

    method PersistedFromInput(r: Revision, prior: seq<Uuid>, o: SaveOptions) returns (row: Result<Revision, Error>)
      requires Valid() && r.content.Document?
      requires prior == List(State(), r.postID)
      ensures row == Persisted(State(), codec, r, o)
    {
      var due := DecideDelta(r.postID, prior, r.createdAt, o);
      if !due {
        return Ok(AsSnapshot(r));
      }
      var parentID := prior[|prior| - 1];
      var parent := MaterializeAt(revisions, codec, parentID, 0);
      if parent.Err? {
        return Ok(AsSnapshot(r));
      }
      var patch := codec.compute(parent.value, r.content.doc);
      if patch.None? {
        return Err(InvalidDelta);
      }
      return Ok(AsDelta(r, patch.value, parentID));
    }

    method Materialize(id: Uuid) returns (res: Result<Json, Error>)
      requires Valid()
      ensures id !in revisions ==> res == Err(CorruptChain)
      ensures id in revisions ==>
                id in origins &&
                res == if origins[id].hops < MAX_CHAIN_DEPTH then Ok(origins[id].doc) else Err(CorruptChain)
    {
      res := MaterializeAt(revisions, codec, id, 0);
      if id in revisions {
        MaterializeExact(State(), codec, origins, id, origins[id].hops, 0);
      }
    }

    /** The post's rows in insertion order. */
    method ReadRows(post: Uuid) returns (rows: seq<Revision>)
      requires Valid()
      ensures rows == RowsIn(State(), post)
    {
      var ids := if post in byPost then byPost[post] else [];
      rows := [];
      for i := 0 to |ids|
        invariant |rows| == i && forall k :: 0 <= k < i ==> rows[k] == RowAt(State(), ids[k])
      {
        assert RowOk(State(), post, i);
        rows := rows + [revisions[ids[i]]];
      }
    }

    /** List: the matching rows, newest first, up to the limit. The same rows remain if the whole
        listing is filtered afterwards. */
    method ListNewest(post: Uuid, f: Filters) returns (out: seq<Revision>)
      requires Valid()
      ensures out == Cut(SortNewest(Filter(Matching(f), RowsIn(State(), post))), Limit(f))
      ensures out == Cut(Filter(Matching(f), SortNewest(RowsIn(State(), post))), Limit(f))
    {
      var all := ReadRows(post);
      var found := [];
      for i := 0 to |all|
        invariant found == Filter(Matching(f), all[..i])
      {
        assert all[..i + 1] == all[..i] + [all[i]];
        FilterAppend(Matching(f), all[..i], all[i]);
        if !Matches(all[i], f) {
          continue;
        }
        found := found + [all[i]];
      }
      assert all[..|all|] == all;
      NewerOrders();
      FilterThenSort(Newer, Matching(f), all);
      out := SortNewest(found);
      if |out| > Limit(f) {
        out := out[..Limit(f)];
      }
    }

    // ---------- Prune ----------

    method Prune(post: Uuid, retention: R.RetentionPolicy, now: Time) returns (deleted: nat)
      requires Valid()
      modifies this
      ensures Valid() && origins == old(origins)
      ensures State() == PruneStep(old(State()), post, retention.Normalized(), now)
      ensures var cs := Candidates(old(State()), post);
              deleted == |R.DoomedIds(cs, retention.Normalized(), now)|
    {
      var policy := retention.Normalized();
      var ids := if post in byPost then byPost[post] else [];
      ghost var s := State();
      ghost var cs := Candidates(s, post);
      PruneKeepsSound(s, codec, origins, post, policy, now);
      if |ids| == 0 {
        PruneOfNothing(s, post, policy, now);
        return 0;
      }
      ShowsCandidates(post);
      var capped := MarkOverCaps(ids, policy, now, cs);
      var marks := MarkTooOld(ids, policy, now, capped, cs);
      var toDelete := KeepAncestors(ids, marks, cs);
      R.SuffixIsTail(cs, 0);
      assert cs[0..] == cs;
      C.ChosenIsDoomed(cs, policy, now);
      forall i | 0 <= i < |ids| ensures ids[i] in toDelete <==> i in R.DoomedRows(cs, policy, now) {
        C.SweptIsChosen(cs, C.Positions(cs), policy, now, marks, toDelete, i);
      }
      deleted := Apply(post, ids, toDelete, R.DoomedRows(cs, policy, now), cs);
    }

    lemma {:induction false} ShowsCandidates(post: Uuid)
      requires Valid()
      ensures Shows(List(State(), post), Candidates(State(), post))
    {
      LinkedGivesChain(State(), post);
      var ids, cs := List(State(), post), Candidates(State(), post);
      forall i | 0 <= i < |ids|
        ensures ids[i] in revisions && cs[i] == CandidateOf(revisions[ids[i]]) && cs[i].id == ids[i]
        ensures revisions[ids[i]].snapshot.None? <==> revisions[ids[i]].delta.Some?
      {
        assert RowOk(State(), post, i);
        assert IDs(cs)[i] == cs[i].id;
      }
    }

    /** The rows of `ids`, as the retention specification sees them. */
    ghost predicate Shows(ids: seq<Uuid>, cs: seq<R.Candidate>) reads this {
      && |cs| == |ids| && R.ChainOk(cs) && IDs(cs) == ids
      && forall i :: 0 <= i < |ids| ==>
           ids[i] in revisions && cs[i] == CandidateOf(revisions[ids[i]]) && cs[i].id == ids[i]
           && (revisions[ids[i]].snapshot.None? <==> revisions[ids[i]].delta.Some?)
    }

    /** Collects the rows the caps count, group by group, oldest first. */
    method GroupRows(ids: seq<Uuid>, p: R.RetentionPolicy, now: Time, ghost cs: seq<R.Candidate>)
      returns (autosaves: map<Uuid, seq<Uuid>>, manuals: seq<Uuid>, publishes: seq<Uuid>)
      requires Shows(ids, cs)
      ensures C.GroupsAutosaves(autosaves, cs, p, now)
      ensures manuals == R.Members(cs, R.Manuals, p, now)
      ensures publishes == R.Members(cs, R.Publishes, p, now)
    {
      autosaves, manuals, publishes := map[], [], [];
      for i := 0 to |ids|
        invariant C.GroupsAutosaves(autosaves, cs[..i], p, now)
        invariant manuals == R.Members(cs[..i], R.Manuals, p, now)
        invariant publishes == R.Members(cs[..i], R.Publishes, p, now)
      {
        var r := revisions[ids[i]];
        ghost var c := cs[i];
        assert c == CandidateOf(r) && c.id == ids[i];
        C.GroupsNext(autosaves, cs, p, now, i);
        if r.isPermanent {
          continue;
        }
        if p.minKeepAll > 0 && Sub(now, r.createdAt) < p.minKeepAll {
          continue;
        }
        match r.kind
        case Autosave =>
          autosaves := C.Added(autosaves, r.authorID, ids[i]);
        case Manual => manuals := manuals + [ids[i]];
        case Publish => publishes := publishes + [ids[i]];
        case Unknown(_) =>
      }
      assert cs[..|ids|] == cs;
    }

    method MarkOverCaps(ids: seq<Uuid>, p: R.RetentionPolicy, now: Time, ghost cs: seq<R.Candidate>) returns (marks: set<Uuid>)
      requires Shows(ids, cs)
      ensures forall x :: x in marks <==> C.CappedId(cs, p, now, x)
    {
      var autosaves, manuals, publishes := GroupRows(ids, p, now, cs);
      marks := C.DropOverCaps(cs, p, now, autosaves, manuals, publishes);
    }

    method MarkTooOld(ids: seq<Uuid>, p: R.RetentionPolicy, now: Time, capped: set<Uuid>, ghost cs: seq<R.Candidate>)
      returns (marks: set<Uuid>)
      requires Shows(ids, cs)
      requires forall x :: x in capped <==> C.CappedId(cs, p, now, x)
      ensures forall x :: x in marks <==> C.MarkedId(cs, p, now, x)
    {
      marks := capped;
      if p.maxAgeAutosave > 0 {
        for i := 0 to |ids|
          invariant forall x :: x in marks <==> x in capped || C.TooOldBefore(cs, p, now, x, i)
        {
          var r := revisions[ids[i]];
          C.TooOldNext(cs, p, now, i);
          if !r.kind.Autosave? {
            continue;
          }
          if r.isPermanent {
            continue;
          }
          if Sub(now, r.createdAt) >= p.maxAgeAutosave {
            marks := marks + {ids[i]};
          }
        }
      }
      C.MarkedIsCappedOrOld(cs, p, now);
    }

    method KeepAncestors(ids: seq<Uuid>, marks: set<Uuid>, ghost cs: seq<R.Candidate>) returns (out: set<Uuid>)
      requires Shows(ids, cs)
      ensures C.DistinctIDs(cs) && C.Ranked(C.Indexed(cs), C.Positions(cs))
      ensures out == marks - C.Reached(cs, C.Positions(cs), marks, |cs|)
    {
      ChainIsRanked(cs);
      out := marks;
      for i := 0 to |ids|
        invariant out == marks - C.Reached(cs, C.Positions(cs), marks, i)
      {
        C.SweepStep(cs, C.Positions(cs), marks, out, i);
        if ids[i] in out {
          continue;
        }
        out := WalkUp(ids, out, i, cs);
      }
    }

    /** Unmarks every row that row i is rebuilt through. */
    method WalkUp(ids: seq<Uuid>, before: set<Uuid>, i: nat, ghost cs: seq<R.Candidate>) returns (out: set<Uuid>)
      requires Shows(ids, cs) && i < |ids|
      requires C.DistinctIDs(cs) && C.Ranked(C.Indexed(cs), C.Positions(cs))
      ensures out == before - C.AboveRow(cs, C.Positions(cs), i)
    {
      ghost var byID, rank := C.Indexed(cs), C.Positions(cs);
      C.IndexedMeaning(cs);
      out := before;
      var cur := revisions[ids[i]];
      ghost var c: nat := i;
      while cur.delta.Some? && cur.deltaFrom != NIL
        invariant c <= i && cur == revisions[ids[c]] && cs[c].id in byID
        invariant out - C.Above(byID, rank, cs[c].id) == before - C.Above(byID, rank, cs[i].id)
        decreases c
      {
        assert R.LinkOk(cs, c) && C.RankedAt(byID, rank, cs[c].id);
        out := out - {cur.deltaFrom};
        if cur.deltaFrom !in revisions {
          break;
        }
        cur := revisions[cur.deltaFrom];
        c := c - 1;
      }
      assert R.LinkOk(cs, c);
    }

    method Apply(post: Uuid, ids: seq<Uuid>, toDelete: set<Uuid>, ghost doomed: set<nat>, ghost cs: seq<R.Candidate>)
      returns (deleted: nat)
      requires post in byPost && byPost[post] == ids && Shows(ids, cs)
      requires forall i :: 0 <= i < |ids| ==> (ids[i] in toDelete <==> i in doomed)
      modifies this
      ensures deleted == |R.Dropped(cs, doomed, |cs|)|
      ensures revisions == old(revisions) - (set x | x in R.Dropped(cs, doomed, |cs|))
      ensures byPost == old(byPost)[post := IDs(R.Kept(cs, doomed, 0, |cs|))]
      ensures origins == old(origins)
    {
      deleted := 0;
      var kept: seq<Uuid> := [];
      for i := 0 to |ids|
        invariant deleted == |R.Dropped(cs, doomed, i)|
        invariant revisions == old(revisions) - (set x | x in R.Dropped(cs, doomed, i))
        invariant kept == IDs(R.Kept(cs, doomed, 0, i))
        invariant byPost == old(byPost) && origins == old(origins)
      {
        if ids[i] in toDelete {
          revisions := revisions - {ids[i]};
          deleted := deleted + 1;
          continue;
        }
        kept := kept + [ids[i]];
      }
      byPost := byPost[post := kept];
    }
  }
}
