/** The delta chains of the in-memory revision store as a value: what the store
    keeps true of them, and what a save does to them (memory.go). */
module Chains {
  import opened Common
  import opened Delta
  import opened Revisions

  type Rows = map<Uuid, Revision>

  datatype Store = Store(revisions: Rows, byPost: map<Uuid, seq<Uuid>>)

  const EMPTY_STORE: Store := Store(map[], map[])

  /** The post's revision ids in insertion order. */
  function List(s: Store, post: Uuid): seq<Uuid> {
    if post in s.byPost then s.byPost[post] else []
  }

  function MaterializeAt(rows: Rows, codec: Codec, id: Uuid, depth: nat): Result<Json, Error>
    decreases MAX_CHAIN_DEPTH - depth
  {
    if depth >= MAX_CHAIN_DEPTH || id !in rows then Err(CorruptChain)
    else
      var r := rows[id];
      if r.snapshot.Some? then Ok(r.snapshot.value)
      else if r.deltaFrom == NIL then Err(CorruptChain)
      else
        match MaterializeAt(rows, codec, r.deltaFrom, depth + 1)
        case Err(e) => Err(e)
        case Ok(parent) =>
          if r.delta.None? then Ok(parent)
          else match codec.apply(parent, r.delta.value)
            case None => Err(InvalidDelta)
            case Some(doc) => Ok(doc)
  }

  /** The row under `id`; an absent id reads as the zero row. */
  function RowAt(s: Store, id: Uuid): Revision {
    if id in s.revisions then s.revisions[id]
    else Revision(NIL, NIL, NIL, Unknown(""), 0, Empty, NIL, None, None, false)
  }

  // ---------- What a save decides ----------

  /** Index of the last snapshot in `ids`, or -1. */
  function LastSnapshot(rows: Rows, ids: seq<Uuid>): (m: int)
    ensures -1 <= m < |ids|
  {
    if ids == [] then -1
    else if ids[|ids| - 1] in rows && rows[ids[|ids| - 1]].snapshot.Some? then |ids| - 1
    else LastSnapshot(rows, ids[..|ids| - 1])
  }

  predicate AgedOut(createdAt: Time, snapshotAt: Time, o: SaveOptions) {
    o.MaxAgeSec() > 0 && Sub(createdAt, snapshotAt) >= Seconds(o.MaxAgeSec())
  }

  /** No cap asks for a snapshot: the row is to be stored as a delta, if its
      parent can be read. */
  predicate DeltaDue(rows: Rows, ids: seq<Uuid>, createdAt: Time, o: SaveOptions) {
    var m := LastSnapshot(rows, ids);
    && !o.force
    && m >= 0
    && |ids| - m < o.EveryN()
    && ids[m] in rows
    && !AgedOut(createdAt, rows[ids[m]].createdAt, o)
  }

  /** How many deltas away from a snapshot a save puts its row.  A parent too deep
      to be read makes the save fall back to a snapshot. */
  function HopsOfSave(rows: Rows, ids: seq<Uuid>, createdAt: Time, o: SaveOptions): (h: nat)
    ensures h < o.EveryN() && h <= MAX_CHAIN_DEPTH
    ensures h == MAX_CHAIN_DEPTH ==> o.EveryN() > MAX_CHAIN_DEPTH
  {
    var since := |ids| - LastSnapshot(rows, ids);
    if DeltaDue(rows, ids, createdAt, o) && since <= MAX_CHAIN_DEPTH then since else 0
  }

  /** The persisted form of the stamped revision `r`. */
  function Persisted(s: Store, codec: Codec, r: Revision, o: SaveOptions): Result<Revision, Error>
    requires r.content.Document?
  {
    var ids := List(s, r.postID);
    if !DeltaDue(s.revisions, ids, r.createdAt, o) then Ok(AsSnapshot(r))
    else
      match MaterializeAt(s.revisions, codec, ids[|ids| - 1], 0)
      case Err(_) => Ok(AsSnapshot(r))
      case Ok(parent) =>
        match codec.compute(parent, r.content.doc)
        case None => Err(InvalidDelta)
        case Some(patch) => Ok(AsDelta(r, patch, ids[|ids| - 1]))
  }

  function Inserted(s: Store, row: Revision): Store {
    Store(s.revisions[row.id := row], s.byPost[row.postID := List(s, row.postID) + [row.id]])
  }

  function SaveStep(s: Store, codec: Codec, r: Revision, o: SaveOptions, newID: Uuid, now: Time): (res: (Store, Result<Uuid, Error>))
    // A save that fails changes nothing.
    ensures res.1.Err? ==> res.0 == s
  {
    if !ValidForSave(r) then (s, Err(InvalidRevision))
    else
      match Persisted(s, codec, Stamped(r, newID, now), o)
      case Err(e) => (s, Err(e))
      case Ok(row) => (Inserted(s, row), Ok(row.id))
  }

  // ---------- The chain invariant ----------

  /** The i-th row of a post: a snapshot, or a delta against the row before it. */
  ghost predicate RowOk(s: Store, post: Uuid, i: nat)
    requires i < |List(s, post)|
  {
    var ids := List(s, post);
    && ids[i] in s.revisions
    && var r := s.revisions[ids[i]];
       && r.postID == post
       && (r.snapshot.Some? ==> r.delta.None? && r.deltaFrom == NIL)
       && (r.snapshot.None? ==> r.delta.Some? && i > 0 && r.deltaFrom == ids[i - 1])
  }

  predicate NoRepeats(ids: seq<Uuid>) {
    forall i, j :: 0 <= i < j < |ids| ==> ids[i] != ids[j]
  }

  /** The invariant that memory.go keeps without naming it: in every post's list
      the first row is a snapshot and a delta's parent is the row just before it,
      and the lists and the row map hold the same ids. */
  ghost predicate Linked(s: Store) {
    && (forall id :: id in s.revisions ==>
          id != NIL && s.revisions[id].id == id && id in List(s, s.revisions[id].postID))
    && (forall post, i :: 0 <= i < |List(s, post)| ==> RowOk(s, post, i))
    && (forall post :: NoRepeats(List(s, post)))
  }

  /** `id` is a row exactly `k` deltas away from the snapshot it is rebuilt from. */
  ghost predicate SnapshotAt(rows: Rows, id: Uuid, k: nat)
    decreases k
  {
    && id in rows
    && if k == 0 then rows[id].snapshot.Some?
       else rows[id].snapshot.None? && rows[id].delta.Some? && SnapshotAt(rows, rows[id].deltaFrom, k - 1)
  }

  /** The document given to a revision's save, and how many deltas away from a
      snapshot the save put it. */
  datatype Origin = Origin(doc: Json, hops: nat)
  type Origins = map<Uuid, Origin>

  /** Each row, one step at a time, stores the document given to its save. */
  ghost predicate Faithful(rows: Rows, codec: Codec, origins: Origins) {
    forall id :: id in rows ==>
      && id in origins
      && (rows[id].snapshot.Some? ==> rows[id].snapshot.value == origins[id].doc)
      && (rows[id].snapshot.None? && rows[id].delta.Some? && rows[id].deltaFrom in origins ==>
            codec.apply(origins[rows[id].deltaFrom].doc, rows[id].delta.value) == Some(origins[id].doc))
  }

  ghost predicate Steady(rows: Rows, origins: Origins) {
    forall id :: id in rows ==> id in origins && SnapshotAt(rows, id, origins[id].hops)
  }

  ghost predicate Sound(s: Store, codec: Codec, origins: Origins) {
    Linked(s) && Faithful(s.revisions, codec, origins) && Steady(s.revisions, origins)
  }

  /** Reading a row `k` hops deep gives its document, exactly while the walk stays
      under maxChainDepth. */
  lemma {:induction false} MaterializeExact(s: Store, codec: Codec, origins: Origins, id: Uuid, k: nat, depth: nat)
    requires Linked(s) && Faithful(s.revisions, codec, origins)
    requires SnapshotAt(s.revisions, id, k)
    ensures MaterializeAt(s.revisions, codec, id, depth) ==
            if depth + k < MAX_CHAIN_DEPTH then Ok(origins[id].doc) else Err(CorruptChain)
    decreases k
  {
    if k > 0 && depth < MAX_CHAIN_DEPTH {
      MaterializeExact(s, codec, origins, s.revisions[id].deltaFrom, k - 1, depth + 1);
    }
  }

  /** More rows, same ids: the hops of an old row are not disturbed. */
  lemma {:induction false} HopsKept(old_: Rows, new_: Rows, id: Uuid, k: nat)
    requires SnapshotAt(old_, id, k)
    requires forall x :: x in old_ ==> x in new_ && new_[x] == old_[x]
    ensures SnapshotAt(new_, id, k)
    decreases k
  {
    if k > 0 {
      HopsKept(old_, new_, old_[id].deltaFrom, k - 1);
    }
  }

  /** What LastSnapshot returns. */
  lemma {:induction false} LastSnapshotMeaning(rows: Rows, ids: seq<Uuid>)
    ensures var m := LastSnapshot(rows, ids);
            && (m >= 0 ==> ids[m] in rows && rows[ids[m]].snapshot.Some?)
            && forall i :: m < i < |ids| && ids[i] in rows ==> rows[ids[i]].snapshot.None?
  {
    if ids != [] && !(ids[|ids| - 1] in rows && rows[ids[|ids| - 1]].snapshot.Some?) {
      LastSnapshotMeaning(rows, ids[..|ids| - 1]);
    }
  }

  /** The newest row of a post is as many hops deep as it is rows after the last
      snapshot. */
  lemma {:induction false} NewestHops(s: Store, post: Uuid, i: nat)
    requires Linked(s) && LastSnapshot(s.revisions, List(s, post)) <= i < |List(s, post)|
    ensures 0 <= LastSnapshot(s.revisions, List(s, post))
    ensures SnapshotAt(s.revisions, List(s, post)[i], i - LastSnapshot(s.revisions, List(s, post)))
  {
    var ids := List(s, post);
    var m := LastSnapshot(s.revisions, ids);
    LastSnapshotMeaning(s.revisions, ids);
    assert RowOk(s, post, 0) && RowOk(s, post, i);
    if i > m {
      NewestHops(s, post, i - 1);
    }
  }

  /** A save never breaks the chains, and the new row stores its document. */
  lemma {:induction false} SaveKeepsSound(s: Store, codec: Codec, origins: Origins, r: Revision, o: SaveOptions, newID: Uuid, now: Time)
    requires Sound(s, codec, origins) && codec.RoundTrips()
    requires ValidForSave(r) && Draft(r)
    requires Stamped(r, newID, now).id != NIL && Stamped(r, newID, now).id !in origins
    ensures var (s', res) := SaveStep(s, codec, r, o, newID, now);
            && res == Ok(Stamped(r, newID, now).id)
            && Sound(s', codec, origins[res.value :=
                 Origin(r.content.doc, HopsOfSave(s.revisions, List(s, r.postID), Stamped(r, newID, now).createdAt, o))])
  {
    var st := Stamped(r, newID, now);
    var row := PersistedRow(s, codec, origins, st, o);
    InsertKeepsSound(s, codec, origins, row,
      Origin(r.content.doc, HopsOfSave(s.revisions, List(s, r.postID), st.createdAt, o)));
  }

  /** What a row must be to stand `origin.hops` deltas after a snapshot. */
  ghost predicate NewRowOk(s: Store, codec: Codec, origins: Origins, row: Revision, origin: Origin) {
    var ids := List(s, row.postID);
    if origin.hops == 0 then row.snapshot == Some(origin.doc) && row.delta.None? && row.deltaFrom == NIL
    else
      && row.snapshot.None? && row.delta.Some? && ids != [] && row.deltaFrom == ids[|ids| - 1]
      && SnapshotAt(s.revisions, row.deltaFrom, origin.hops - 1) && row.deltaFrom in origins
      && codec.apply(origins[row.deltaFrom].doc, row.delta.value) == Some(origin.doc)
  }

  /** The row a save inserts: its document in full, or a delta that rebuilds it
      from the newest row. */
  lemma {:induction false} PersistedRow(s: Store, codec: Codec, origins: Origins, r: Revision, o: SaveOptions)
    returns (row: Revision)
    requires Sound(s, codec, origins) && codec.RoundTrips() && r.content.Document?
    ensures Persisted(s, codec, r, o) == Ok(row) && row.id == r.id && row.postID == r.postID
    ensures NewRowOk(s, codec, origins, row,
              Origin(r.content.doc, HopsOfSave(s.revisions, List(s, r.postID), r.createdAt, o)))
  {
    var ids := List(s, r.postID);
    row := AsSnapshot(r);
    if DeltaDue(s.revisions, ids, r.createdAt, o) {
      var m := LastSnapshot(s.revisions, ids);
      var parent := ids[|ids| - 1];
      NewestHops(s, r.postID, |ids| - 1);
      MaterializeExact(s, codec, origins, parent, |ids| - 1 - m, 0);
      if |ids| - m <= MAX_CHAIN_DEPTH {
        assert codec.compute(origins[parent].doc, r.content.doc).Some?;
        row := AsDelta(r, codec.compute(origins[parent].doc, r.content.doc).value, parent);
      }
    }
  }

  lemma {:induction false} InsertKeepsSound(s: Store, codec: Codec, origins: Origins, row: Revision, origin: Origin)
    requires Sound(s, codec, origins)
    requires row.id != NIL && row.id !in origins && NewRowOk(s, codec, origins, row, origin)
    ensures Sound(Inserted(s, row), codec, origins[row.id := origin])
  {
    assert row.id !in s.revisions;
    assert origin.hops > 0 ==> row.deltaFrom in s.revisions;
    InsertKeepsLinked(s, row);
    ParentsPresent(s);
    InsertKeepsFaithful(s.revisions, codec, origins, row, origin);
    InsertKeepsSteady(s.revisions, origins, row, origin);
  }

  lemma {:induction false} InsertKeepsFaithful(rows: Rows, codec: Codec, origins: Origins, row: Revision, origin: Origin)
    requires Faithful(rows, codec, origins) && row.id !in origins
    requires forall id :: id in rows && rows[id].snapshot.None? ==> rows[id].delta.Some? && rows[id].deltaFrom in rows
    requires row.snapshot.Some? ==> row.snapshot.value == origin.doc
    requires row.snapshot.None? ==>
               && row.delta.Some? && row.deltaFrom in rows
               && codec.apply(origins[row.deltaFrom].doc, row.delta.value) == Some(origin.doc)
    ensures Faithful(rows[row.id := row], codec, origins[row.id := origin])
  {
    assert row.id !in rows;
    forall id | id in rows && rows[id].snapshot.None? ensures rows[id].deltaFrom != row.id {}
  }

  lemma {:induction false} InsertKeepsSteady(rows: Rows, origins: Origins, row: Revision, origin: Origin)
    requires Steady(rows, origins) && row.id !in rows
    requires if origin.hops == 0 then row.snapshot.Some?
             else row.snapshot.None? && row.delta.Some? && SnapshotAt(rows, row.deltaFrom, origin.hops - 1)
    ensures Steady(rows[row.id := row], origins[row.id := origin])
  {
    var rows' := rows[row.id := row];
    if origin.hops > 0 { HopsKept(rows, rows', row.deltaFrom, origin.hops - 1); }
    forall id | id in rows ensures id in origins && SnapshotAt(rows', id, origins[id].hops) {
      HopsKept(rows, rows', id, origins[id].hops);
    }
  }

  /** Every delta's parent is a row. */
  lemma {:induction false} ParentsPresent(s: Store)
    requires Linked(s)
    ensures forall id :: id in s.revisions && s.revisions[id].snapshot.None? ==>
              s.revisions[id].delta.Some? && s.revisions[id].deltaFrom in s.revisions
  {
    forall id | id in s.revisions && s.revisions[id].snapshot.None?
      ensures s.revisions[id].delta.Some? && s.revisions[id].deltaFrom in s.revisions
    {
      var post := s.revisions[id].postID;
      var i :| 0 <= i < |List(s, post)| && List(s, post)[i] == id;
      assert RowOk(s, post, i) && (i > 0 ==> RowOk(s, post, i - 1));
    }
  }

  lemma {:induction false} InsertKeepsLinked(s: Store, row: Revision)
    requires Linked(s) && row.id != NIL && row.id !in s.revisions
    requires var ids := List(s, row.postID);
             || (row.snapshot.Some? && row.delta.None? && row.deltaFrom == NIL)
             || (row.snapshot.None? && row.delta.Some? && ids != [] && row.deltaFrom == ids[|ids| - 1])
    ensures Linked(Inserted(s, row))
  {
    var s' := Inserted(s, row);
    var old_ := List(s, row.postID);
    assert forall post, i :: 0 <= i < |List(s, post)| ==> RowOk(s, post, i);
    assert forall post :: List(s', post) == if post == row.postID then old_ + [row.id] else List(s, post);
    forall id | id in s'.revisions
      ensures id != NIL && s'.revisions[id].id == id && id in List(s', s'.revisions[id].postID)
    {
      if id == row.id { assert List(s', row.postID)[|old_|] == id; }
    }
    forall post, i | 0 <= i < |List(s', post)| ensures RowOk(s', post, i) {
      if post != row.postID || i < |old_| { assert RowOk(s, post, i); }
    }
    forall post ensures NoRepeats(List(s', post)) {
      assert NoRepeats(List(s, post));
      forall i | 0 <= i < |old_| ensures old_[i] != row.id { assert RowOk(s, row.postID, i); }
    }
  }
}
