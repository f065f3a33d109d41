/** When a save is refused, what row it stores, and when that row is a full snapshot, by the fields
    of the revision and of the options (store.go, memory.go, postgres.go). */
module SaveRules {
  import opened Common
  import opened Delta
  import opened Revisions
  import opened Chains
  import opened Pruning
  import opened Pruners
  import opened History
  import R = Retention

  /** d nanoseconds reach the age cap: a day when none is given, never when it is negative. Caps of 2^63
      nanoseconds and more wrap, and differences that do not fit saturate. */
  predicate AgeReached(o: SaveOptions, d: int) {
    var sec := if o.maxAgeSec == 0 then 86_400 else o.maxAgeSec;
    && sec > 0
    && if sec <= 9_223_372_036 then d >= sec * 1_000_000_000
       else
         (if d < -0x8000_0000_0000_0000 then -0x8000_0000_0000_0000
          else if d > 0x7FFF_FFFF_FFFF_FFFF then 0x7FFF_FFFF_FFFF_FFFF else d)
         >= (sec * 1_000_000_000 + 0x8000_0000_0000_0000) % 0x1_0000_0000_0000_0000 - 0x8000_0000_0000_0000
  }

  lemma {:induction false} AgedOutMeaning(createdAt: Time, at: Time, o: SaveOptions)
    ensures AgedOut(createdAt, at, o) <==> AgeReached(o, createdAt - at)
  {
    var sec := o.MaxAgeSec();
    if 0 < sec <= 9_223_372_036 {
      assert (sec * SECOND - MIN_INT64) % 0x1_0000_0000_0000_0000 == sec * SECOND - MIN_INT64;
    }
  }

  /** The cap works as documented, for every difference of times, exactly when it is not so long that it wraps. */
  lemma {:induction false} AgeCapWorksExactlyWhen(o: SaveOptions)
    requires o.maxAgeSec > 0
    ensures (forall d: int :: AgeReached(o, d) <==> d >= o.maxAgeSec * 1_000_000_000) <==> o.maxAgeSec <= 9_223_372_036
  {
    if o.maxAgeSec > 9_223_372_036 {
      var w := (o.maxAgeSec * 1_000_000_000 + 0x8000_0000_0000_0000) % 0x1_0000_0000_0000_0000 - 0x8000_0000_0000_0000;
      assert AgeReached(o, w) && w < o.maxAgeSec * 1_000_000_000;
    }
  }

  /** A save is refused exactly for a missing post, an unknown kind, or content that is absent or not JSON,
      and refuses with ErrInvalidRevision. */
  lemma {:induction false} SaveRefusesExactlyWhen(s: Store, codec: Codec, origins: Origins, r: Revision, o: SaveOptions, newID: Uuid, now: Time)
    requires Sound(s, codec, origins) && codec.RoundTrips()
    ensures SaveStep(s, codec, r, o, newID, now).1 ==
            if r.postID == NIL || (r.kind != Autosave && r.kind != Manual && r.kind != Publish) || r.content == Empty || r.content == Malformed
            then Err(InvalidRevision) else Ok(if r.id == NIL then newID else r.id)
  {
    if ValidForSave(r) {
      var row := PersistedRow(s, codec, origins, Stamped(r, newID, now), o);
    }
  }

  /** ids[m] is the post's newest snapshot. */
  lemma {:induction false} NewestSnapshotIsLast(s: Store, post: Uuid, m: nat)
    requires Linked(s) && m < |List(s, post)|
    requires List(s, post)[m] in s.revisions && s.revisions[List(s, post)[m]].snapshot.Some?
    requires forall i :: m < i < |List(s, post)| ==> List(s, post)[i] in s.revisions && s.revisions[List(s, post)[i]].snapshot.None?
    ensures LastSnapshot(s.revisions, List(s, post)) == m
  {
    LastSnapshotMeaning(s.revisions, List(s, post));
  }

  /** What the save of a valid revision stores: the revision itself, with an id and a time if it had none, its
      document either in full or as a delta against the newest row of the post. */
  lemma {:induction false} StoredRow(s: Store, codec: Codec, origins: Origins, r: Revision, o: SaveOptions, newID: Uuid, now: Time)
    returns (row: Revision)
    requires Sound(s, codec, origins) && codec.RoundTrips() && ValidForSave(r)
    ensures var s', ids := SaveStep(s, codec, r, o, newID, now).0, List(s, r.postID);
            && s'.revisions == s.revisions[row.id := row] && s'.byPost == s.byPost[r.postID := ids + [row.id]]
            && row.id == (if r.id == NIL then newID else r.id)
            && row.createdAt == (if r.createdAt == 0 then now else r.createdAt)
            && row.postID == r.postID && row.authorID == r.authorID && row.kind == r.kind
            && row.isPermanent == r.isPermanent && row.content == Empty
            && if row.snapshot.Some? then row.snapshot.value == r.content.doc && row.delta == None && row.deltaFrom == NIL
               else
                 && ids != [] && row.deltaFrom == ids[|ids| - 1] && row.deltaFrom in origins && row.delta.Some?
                 && codec.apply(origins[row.deltaFrom].doc, row.delta.value) == Some(r.content.doc)
  {
    row := PersistedRow(s, codec, origins, Stamped(r, newID, now), o);
  }

  /** And it is stored in full exactly when the caller forces it, the post is new, SnapshotEveryN rows stand since
      the newest snapshot, counting it, MaxSnapshotAge has passed since then, or the newest row is too deep to be read. */
  lemma {:induction false} SnapshotExactlyWhen(s: Store, codec: Codec, origins: Origins, r: Revision, o: SaveOptions, newID: Uuid, now: Time, m: nat)
    returns (row: Revision)
    requires Sound(s, codec, origins) && codec.RoundTrips() && ValidForSave(r)
    requires var ids := List(s, r.postID);
             ids == [] ||
             (&& m < |ids| && ids[m] in s.revisions && s.revisions[ids[m]].snapshot.Some?
              && forall i :: m < i < |ids| ==> ids[i] in s.revisions && s.revisions[ids[i]].snapshot.None?)
    ensures SaveStep(s, codec, r, o, newID, now).0.revisions == s.revisions[row.id := row]
    ensures var ids := List(s, r.postID);
            var createdAt := if r.createdAt == 0 then now else r.createdAt;
            row.snapshot.Some? <==>
              || o.force || ids == []
              || |ids| - m >= (if o.everyN <= 0 then 20 else o.everyN)
              || AgeReached(o, createdAt - s.revisions[ids[m]].createdAt)
              || |ids| - m > 1024
  {
    var st, ids := Stamped(r, newID, now), List(s, r.postID);
    row := PersistedRow(s, codec, origins, st, o);
    if ids != [] {
      NewestSnapshotIsLast(s, r.postID, m);
      AgedOutMeaning(st.createdAt, s.revisions[ids[m]].createdAt, o);
    }
  }

  // ---------- The Postgres store ----------

  lemma {:induction false} LatestIs(rows: seq<Revision>, at: Time)
    requires exists i :: 0 <= i < |rows| && rows[i].snapshot.Some? && rows[i].createdAt == at
    requires forall i :: 0 <= i < |rows| && rows[i].snapshot.Some? ==> rows[i].createdAt <= at
    ensures LatestSnapshotTime(rows) == Some(at)
  {
    LatestIsLatest(rows);
  }

  lemma {:induction false} LatestIsLatest(rows: seq<Revision>)
    ensures LatestSnapshotTime(rows).None? <==> forall i :: 0 <= i < |rows| ==> rows[i].snapshot.None?
    ensures LatestSnapshotTime(rows).Some? ==>
              && (exists i :: 0 <= i < |rows| && rows[i].snapshot.Some? && rows[i].createdAt == LatestSnapshotTime(rows).value)
              && forall i :: 0 <= i < |rows| && rows[i].snapshot.Some? ==> rows[i].createdAt <= LatestSnapshotTime(rows).value
  {
    if rows != [] {
      var n := |rows| - 1;
      LatestIsLatest(rows[..n]);
      assert forall i :: 0 <= i < n ==> rows[..n][i] == rows[i];
      if LatestSnapshotTime(rows[..n]).Some? {
        var i :| 0 <= i < n && rows[..n][i].snapshot.Some? && rows[..n][i].createdAt == LatestSnapshotTime(rows[..n]).value;
        assert rows[i].snapshot.Some?;
      }
    }
  }

  function Since(rows: seq<Revision>, at: Time): set<nat> { set i: nat | i < |rows| && rows[i].createdAt >= at }

  lemma {:induction false} CountSinceIs(rows: seq<Revision>, at: Time)
    ensures CountSince(rows, Some(at)) == |Since(rows, at)|
  {
    if rows == [] {
      assert Since(rows, at) == {};
    } else {
      var n := |rows| - 1;
      CountSinceIs(rows[..n], at);
      assert Since(rows, at) == Since(rows[..n], at) + if rows[n].createdAt >= at then {n} else {};
    }
  }

  /** The Postgres store decides by the same rules, with the latest snapshot time for the newest snapshot and the rows
      from that time on for the rows since. */
  lemma {:induction false} PgSnapshotExactlyWhen(rows: seq<Revision>, createdAt: Time, o: SaveOptions, at: Time)
    requires rows == [] ||
             ((exists i :: 0 <= i < |rows| && rows[i].snapshot.Some? && rows[i].createdAt == at)
              && forall i :: 0 <= i < |rows| && rows[i].snapshot.Some? ==> rows[i].createdAt <= at)
    ensures PgUsesSnapshot(rows, createdAt, o) <==>
              || o.force || rows == []
              || |Since(rows, at)| >= (if o.everyN <= 0 then 20 else o.everyN)
              || AgeReached(o, createdAt - at)
  {
    if rows != [] {
      LatestIs(rows, at);
      CountSinceIs(rows, at);
      AgedOutMeaning(createdAt, at, o);
      var i :| 0 <= i < |rows| && rows[i].snapshot.Some? && rows[i].createdAt == at;
      assert i in Since(rows, at);
    }
  }

  // ---------- Runs ----------

  /** The row k parents up. */
  function Up(rows: Rows, id: Uuid, k: nat): Uuid
    requires SnapshotAt(rows, id, k)
    decreases k
  {
    if k == 0 then id else Up(rows, rows[id].deltaFrom, k - 1)
  }

  lemma {:induction false} UpStays(rows: Rows, rows': Rows, id: Uuid, k: nat)
    requires SnapshotAt(rows, id, k) && SnapshotAt(rows', id, k)
    requires forall x :: x in rows && x in rows' ==> rows[x] == rows'[x]
    ensures Up(rows, id, k) == Up(rows', id, k) && Up(rows, id, k) in rows && Up(rows, id, k) in rows'
    decreases k
  {
    if k > 0 { UpStays(rows, rows', rows[id].deltaFrom, k - 1); }
  }

  lemma {:induction false} UpInList(s: Store, post: Uuid, i: nat)
    requires Linked(s) && 0 <= LastSnapshot(s.revisions, List(s, post)) <= i < |List(s, post)|
    ensures var ids, m := List(s, post), LastSnapshot(s.revisions, List(s, post));
            SnapshotAt(s.revisions, ids[i], i - m) && Up(s.revisions, ids[i], i - m) == ids[m]
  {
    NewestHops(s, post, i);
    assert RowOk(s, post, i);
    if i > LastSnapshot(s.revisions, List(s, post)) {
      LastSnapshotMeaning(s.revisions, List(s, post));
      UpInList(s, post, i - 1);
    }
  }

  /** Row x was stored `k` deltas after a snapshot that had not reached the age cap of the options. */
  ghost predicate Young(rows: Rows, x: Uuid, k: nat, o: SaveOptions) {
    && SnapshotAt(rows, x, k)
    && (k > 0 ==> Up(rows, x, k) in rows && !AgeReached(o, rows[x].createdAt - rows[Up(rows, x, k)].createdAt))
  }

  lemma {:induction false} SavedAtDepth(s: Store, codec: Codec, origins: Origins, op: Step) returns (row: Revision)
    requires Sound(s, codec, origins) && codec.RoundTrips() && Accepted(op) && Draft(op.r) && IdOf(op) !in origins
    ensures After(codec, s, op).revisions == s.revisions[row.id := row] && row.id == IdOf(op) && row.id !in s.revisions
    ensures var ids, k := List(s, op.r.postID), SavedHops(s, op);
            if k == 0 then row.snapshot.Some?
            else
              && row.snapshot.None? && row.delta.Some? && ids != [] && row.deltaFrom == ids[|ids| - 1]
              && LastSnapshot(s.revisions, ids) == |ids| - k >= 0 && ids[|ids| - k] in s.revisions
              && !AgeReached(op.o, row.createdAt - s.revisions[ids[|ids| - k]].createdAt)
  {
    var st, ids, k := Stamped(op.r, op.newID, op.now), List(s, op.r.postID), SavedHops(s, op);
    row := PersistedRow(s, codec, origins, st, op.o);
    if k > 0 { AgedOutMeaning(st.createdAt, s.revisions[ids[|ids| - k]].createdAt, op.o); }
  }

  lemma {:induction false} SaveIsYoung(s: Store, codec: Codec, origins: Origins, op: Step) returns (row: Revision)
    requires Sound(s, codec, origins) && codec.RoundTrips() && Accepted(op) && Draft(op.r) && IdOf(op) !in origins
    ensures After(codec, s, op).revisions == s.revisions[row.id := row] && row.id == IdOf(op)
    ensures Young(s.revisions[row.id := row], row.id, SavedHops(s, op), op.o)
  {
    row := SavedAtDepth(s, codec, origins, op);
    RowIsYoung(s, op.r.postID, row, SavedHops(s, op), op.o);
  }

  lemma {:induction false} RowIsYoung(s: Store, post: Uuid, row: Revision, k: nat, o: SaveOptions)
    requires Linked(s) && row.id !in s.revisions
    requires var ids := List(s, post);
             if k == 0 then row.snapshot.Some?
             else
               && row.snapshot.None? && row.delta.Some? && ids != [] && row.deltaFrom == ids[|ids| - 1]
               && LastSnapshot(s.revisions, ids) == |ids| - k >= 0 && ids[|ids| - k] in s.revisions
               && !AgeReached(o, row.createdAt - s.revisions[ids[|ids| - k]].createdAt)
    ensures Young(s.revisions[row.id := row], row.id, k, o)
  {
    var ids := List(s, post);
    if k > 0 {
      UpInList(s, post, |ids| - 1);
      DeltaIsYoung(s.revisions, row, ids[|ids| - 1], k, ids[|ids| - k], o);
    } else {
      SnapshotIsYoung(s.revisions, row, o);
    }
  }

  lemma {:induction false} SnapshotIsYoung(rows: Rows, row: Revision, o: SaveOptions)
    requires row.snapshot.Some?
    ensures Young(rows[row.id := row], row.id, 0, o)
  {
  }

  /** A new delta is one further from the snapshot its parent hangs from. */
  lemma {:induction false} DeltaIsYoung(rows: Rows, row: Revision, parent: Uuid, k: nat, root: Uuid, o: SaveOptions)
    requires k > 0 && row.id !in rows && row.snapshot.None? && row.delta.Some? && row.deltaFrom == parent
    requires SnapshotAt(rows, parent, k - 1) && Up(rows, parent, k - 1) == root && root in rows
    requires !AgeReached(o, row.createdAt - rows[root].createdAt)
    ensures Young(rows[row.id := row], row.id, k, o)
  {
    var rows' := rows[row.id := row];
    HopsKept(rows, rows', parent, k - 1);
    UpStays(rows, rows', parent, k - 1);
    assert SnapshotAt(rows', row.id, k) && Up(rows', row.id, k) == root;
  }

  /** A step changes no row that is there before and after. */
  lemma {:induction false} StepKeepsRows(s: Store, codec: Codec, origins: Origins, op: Step)
    requires Sound(s, codec, origins) && codec.RoundTrips() && (Accepted(op) ==> IdOf(op) !in origins)
    ensures var rows' := After(codec, s, op).revisions;
            forall x :: x in s.revisions && x in rows' ==> s.revisions[x] == rows'[x]
  {
    if Accepted(op) {
      var row := PersistedRow(s, codec, origins, Stamped(op.r, op.newID, op.now), op.o);
      assert After(codec, s, op).revisions == s.revisions[row.id := row] && row.id !in s.revisions;
    }
  }

  lemma {:induction false} RowsStay(codec: Codec, ops: seq<Step>)
    requires codec.RoundTrips() && WellUsed(ops) && ops != []
    ensures var rows, rows' := Run(codec, ops[..|ops| - 1]).revisions, Run(codec, ops).revisions;
            forall x :: x in rows && x in rows' ==> rows[x] == rows'[x]
  {
    var front, op := ops[..|ops| - 1], ops[|ops| - 1];
    RunIsSound(codec, front);
    OriginsAreSaves(codec, front);
    forall j | 0 <= j < |front| && Accepted(front[j]) && Accepted(op) ensures IdOf(front[j]) != IdOf(op) {
      assert front[j] == ops[j];
    }
    StepKeepsRows(Run(codec, front), codec, OriginsOf(codec, front), op);
  }

  /** In every run, each surviving delta was made less than the MaxSnapshotAge of its save after the snapshot it is
      rebuilt from, by the times of the two rows. */
  lemma {:induction false} DeltasAreYoung(codec: Codec, ops: seq<Step>, i: nat)
    requires codec.RoundTrips() && WellUsed(ops)
    requires i < |ops| && Accepted(ops[i]) && IdOf(ops[i]) in Run(codec, ops).revisions
    ensures Young(Run(codec, ops).revisions, IdOf(ops[i]), SavedHops(Run(codec, ops[..i]), ops[i]), ops[i].o)
    decreases |ops|
  {
    if i == |ops| - 1 {
      NewestIsYoung(codec, ops);
    } else {
      var front := ops[..|ops| - 1];
      assert front[i] == ops[i] && front[..i] == ops[..i];
      StillThere(codec, ops, i);
      DeltasAreYoung(codec, front, i);
      YoungStays(codec, ops, i);
    }
  }

  lemma {:induction false} NewestIsYoung(codec: Codec, ops: seq<Step>)
    requires codec.RoundTrips() && WellUsed(ops) && ops != [] && Accepted(ops[|ops| - 1])
    ensures var n := |ops| - 1;
            Young(Run(codec, ops).revisions, IdOf(ops[n]), SavedHops(Run(codec, ops[..n]), ops[n]), ops[n].o)
  {
    var front, op := ops[..|ops| - 1], ops[|ops| - 1];
    RunIsSound(codec, front);
    OriginsAreSaves(codec, front);
    forall j | 0 <= j < |front| && Accepted(front[j]) ensures IdOf(front[j]) != IdOf(op) { assert front[j] == ops[j]; }
    var row := SaveIsYoung(Run(codec, front), codec, OriginsOf(codec, front), op);
  }

  lemma {:induction false} YoungStays(codec: Codec, ops: seq<Step>, i: nat)
    requires codec.RoundTrips() && WellUsed(ops)
    requires i < |ops| - 1 && Accepted(ops[i]) && IdOf(ops[i]) in Run(codec, ops).revisions
    requires var k := SavedHops(Run(codec, ops[..i]), ops[i]);
             Young(Run(codec, ops[..|ops| - 1]).revisions, IdOf(ops[i]), k, ops[i].o)
    ensures var k := SavedHops(Run(codec, ops[..i]), ops[i]); Young(Run(codec, ops).revisions, IdOf(ops[i]), k, ops[i].o)
  {
    HistoryTheorem(codec, ops, i);
    RowsStay(codec, ops);
    UpStays(Run(codec, ops[..|ops| - 1]).revisions, Run(codec, ops).revisions, IdOf(ops[i]), SavedHops(Run(codec, ops[..i]), ops[i]));
  }

  /** What is there after the last step and was saved before it was there in between. */
  lemma {:induction false} StillThere(codec: Codec, ops: seq<Step>, i: nat)
    requires WellUsed(ops) && i < |ops| - 1 && Accepted(ops[i]) && IdOf(ops[i]) in Run(codec, ops).revisions
    ensures IdOf(ops[i]) in Run(codec, ops[..|ops| - 1]).revisions
  {
    var op := ops[|ops| - 1];
    if Accepted(op) { assert IdOf(ops[i]) != IdOf(op); }
  }
}
