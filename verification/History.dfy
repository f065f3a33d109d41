/** Whole runs of the revision store: saves and prunes over any posts. */
module History {
  import opened Common
  import opened Delta
  import opened Revisions
  import opened Chains
  import opened Pruning
  import R = Retention

  datatype Step =
    | Save(r: Revision, o: SaveOptions, newID: Uuid, now: Time)
    | Prune(post: Uuid, policy: R.RetentionPolicy, at: Time)

  predicate Accepted(op: Step) { op.Save? && ValidForSave(op.r) }

  function IdOf(op: Step): Uuid
    requires op.Save?
  {
    Stamped(op.r, op.newID, op.now).id
  }

  function After(codec: Codec, s: Store, op: Step): Store {
    match op
    case Save(r, o, newID, now) => SaveStep(s, codec, r, o, newID, now).0
    case Prune(post, policy, at) => PruneStep(s, post, policy.Normalized(), at)
  }

  /** The store after the steps, from empty. */
  function Run(codec: Codec, ops: seq<Step>): Store {
    if ops == [] then EMPTY_STORE else After(codec, Run(codec, ops[..|ops| - 1]), ops[|ops| - 1])
  }

  /** Identifiers are never reused, and callers leave the persisted slots empty. */
  ghost predicate WellUsed(ops: seq<Step>) {
    && (forall i :: 0 <= i < |ops| && Accepted(ops[i]) ==> IdOf(ops[i]) != NIL && Draft(ops[i].r))
    && (forall i, j :: 0 <= i < j < |ops| && Accepted(ops[i]) && Accepted(ops[j]) ==> IdOf(ops[i]) != IdOf(ops[j]))
  }

  /** How deep the save `op`, made in the store `s`, puts its row. */
  function SavedHops(s: Store, op: Step): nat
    requires op.Save?
  {
    HopsOfSave(s.revisions, List(s, op.r.postID), Stamped(op.r, op.newID, op.now).createdAt, op.o)
  }

  function OriginsOf(codec: Codec, ops: seq<Step>): Origins {
    if ops == [] then map[]
    else
      var before := OriginsOf(codec, ops[..|ops| - 1]);
      var op := ops[|ops| - 1];
      if Accepted(op) then
        before[IdOf(op) := Origin(op.r.content.doc, SavedHops(Run(codec, ops[..|ops| - 1]), op))]
      else before
  }

  /** Origins are the accepted saves: nothing else is in them, and each is as its save left it. */
  lemma {:induction false} OriginsMeaning(codec: Codec, ops: seq<Step>)
    requires WellUsed(ops)
    ensures forall id :: id in OriginsOf(codec, ops) ==>
              exists i :: 0 <= i < |ops| && Accepted(ops[i]) && IdOf(ops[i]) == id
    ensures forall i :: 0 <= i < |ops| && Accepted(ops[i]) ==>
              && IdOf(ops[i]) in OriginsOf(codec, ops)
              && OriginsOf(codec, ops)[IdOf(ops[i])] == Origin(ops[i].r.content.doc, SavedHops(Run(codec, ops[..i]), ops[i]))
  {
    OriginsAreSaves(codec, ops);
    forall i | 0 <= i < |ops| && Accepted(ops[i])
      ensures IdOf(ops[i]) in OriginsOf(codec, ops)
      ensures OriginsOf(codec, ops)[IdOf(ops[i])] == Origin(ops[i].r.content.doc, SavedHops(Run(codec, ops[..i]), ops[i]))
    {
      SavesAreOrigins(codec, ops, i);
    }
  }

  lemma {:induction false} OriginsAreSaves(codec: Codec, ops: seq<Step>)
    ensures forall id :: id in OriginsOf(codec, ops) ==>
              exists i :: 0 <= i < |ops| && Accepted(ops[i]) && IdOf(ops[i]) == id
  {
    if ops != [] {
      var front := ops[..|ops| - 1];
      OriginsAreSaves(codec, front);
      assert forall i :: 0 <= i < |front| ==> front[i] == ops[i];
    }
  }

  lemma {:induction false} SavesAreOrigins(codec: Codec, ops: seq<Step>, i: nat)
    requires WellUsed(ops) && i < |ops| && Accepted(ops[i])
    ensures IdOf(ops[i]) in OriginsOf(codec, ops)
    ensures OriginsOf(codec, ops)[IdOf(ops[i])] == Origin(ops[i].r.content.doc, SavedHops(Run(codec, ops[..i]), ops[i]))
  {
    var front := ops[..|ops| - 1];
    if i < |front| {
      SavesAreOrigins(codec, front, i);
      assert front[..i] == ops[..i] && front[i] == ops[i];
    }
  }

  /** The chain invariant holds after every run. */
  lemma {:induction false} RunIsSound(codec: Codec, ops: seq<Step>)
    requires codec.RoundTrips() && WellUsed(ops)
    ensures Sound(Run(codec, ops), codec, OriginsOf(codec, ops))
  {
    if ops != [] {
      var front, op := ops[..|ops| - 1], ops[|ops| - 1];
      RunIsSound(codec, front);
      OriginsMeaning(codec, front);
      var s, origins := Run(codec, front), OriginsOf(codec, front);
      match op
      case Save(r, o, newID, now) =>
        if Accepted(op) {
          forall i | 0 <= i < |front| && Accepted(front[i]) ensures IdOf(front[i]) != IdOf(op) {
            assert front[i] == ops[i];
          }
          SaveKeepsSound(s, codec, origins, r, o, newID, now);
        }
      case Prune(post, policy, at) =>
        PruneKeepsSound(s, codec, origins, post, policy.Normalized(), at);
    }
  }

  /** History theorem.  After any run, every revision still present stands exactly
      as many deltas after a snapshot as its save put it, fewer than its
      SnapshotEveryN, and materializing it gives the document of its save, unless
      that depth is the 1024 the reader refuses. */
  lemma {:induction false} HistoryTheorem(codec: Codec, ops: seq<Step>, i: nat)
    requires codec.RoundTrips() && WellUsed(ops)
    requires i < |ops| && Accepted(ops[i]) && IdOf(ops[i]) in Run(codec, ops).revisions
    ensures var rows := Run(codec, ops).revisions;
            var hops := SavedHops(Run(codec, ops[..i]), ops[i]);
            && hops < ops[i].o.EveryN()
            && SnapshotAt(rows, IdOf(ops[i]), hops)
            && MaterializeAt(rows, codec, IdOf(ops[i]), 0) ==
                 if hops < MAX_CHAIN_DEPTH then Ok(ops[i].r.content.doc) else Err(CorruptChain)
  {
    RunIsSound(codec, ops);
    OriginsMeaning(codec, ops);
    var s, origins := Run(codec, ops), OriginsOf(codec, ops);
    MaterializeExact(s, codec, origins, IdOf(ops[i]), SavedHops(Run(codec, ops[..i]), ops[i]), 0);
  }

  /** With SnapshotEveryN at most 1024 every surviving revision reads back. */
  lemma {:induction false} EveryRevisionReadsBack(codec: Codec, ops: seq<Step>, i: nat)
    requires codec.RoundTrips() && WellUsed(ops)
    requires i < |ops| && Accepted(ops[i]) && IdOf(ops[i]) in Run(codec, ops).revisions
    requires ops[i].o.EveryN() <= MAX_CHAIN_DEPTH
    ensures MaterializeAt(Run(codec, ops).revisions, codec, IdOf(ops[i]), 0) == Ok(ops[i].r.content.doc)
  {
    HistoryTheorem(codec, ops, i);
  }

  /** In general a surviving revision reads back if and only if, when it was saved,
      no delta was due or the last snapshot was not exactly 1024 rows back. */
  lemma {:induction false} ReadsBackExactlyWhen(codec: Codec, ops: seq<Step>, i: nat)
    requires codec.RoundTrips() && WellUsed(ops)
    requires i < |ops| && Accepted(ops[i]) && IdOf(ops[i]) in Run(codec, ops).revisions
    ensures var s := Run(codec, ops[..i]);
            var ids := List(s, ops[i].r.postID);
            var due := DeltaDue(s.revisions, ids, Stamped(ops[i].r, ops[i].newID, ops[i].now).createdAt, ops[i].o);
            MaterializeAt(Run(codec, ops).revisions, codec, IdOf(ops[i]), 0) == Ok(ops[i].r.content.doc) <==>
              !(due && |ids| - LastSnapshot(s.revisions, ids) == MAX_CHAIN_DEPTH)
  {
    HistoryTheorem(codec, ops, i);
  }

  // ---------- A run that loses a revision ----------

  /** The k-th save of a post whose caller asks for a snapshot every 1025 rows. */
  function DeepSave(k: nat): Step {
    Save(Revision(k + 1, 1, 0, Manual, 1, Document(Num(k)), NIL, None, None, false),
         SaveOptions(MAX_CHAIN_DEPTH + 1, -1, false), k + 1, 1)
  }

  function DeepRun(n: nat): (ops: seq<Step>)
    ensures |ops| == n && forall k :: 0 <= k < n ==> ops[k] == DeepSave(k)
  {
    if n == 0 then [] else DeepRun(n - 1) + [DeepSave(n - 1)]
  }

  ghost predicate DeepState(s: Store, n: nat) {
    && n >= 1 && |List(s, 1)| == n && List(s, 1)[n - 1] == n
    && LastSnapshot(s.revisions, List(s, 1)) == 0
  }

  /** In such a state the next save is due a delta, one deeper. */
  lemma {:induction false} DeepHops(s: Store, k: nat)
    requires Linked(s) && DeepState(s, k) && k <= MAX_CHAIN_DEPTH
    ensures SavedHops(s, DeepSave(k)) == k
  {
    var o := DeepSave(k).o;
    assert RowOk(s, 1, 0) && o.EveryN() == MAX_CHAIN_DEPTH + 1 && o.MaxAgeSec() == -1;
    assert DeltaDue(s.revisions, List(s, 1), 1, o);
  }

  lemma {:induction false} DeepSaveStep(codec: Codec, s: Store, origins: Origins, k: nat)
    requires codec.RoundTrips() && Sound(s, codec, origins) && DeepState(s, k)
    requires k <= MAX_CHAIN_DEPTH && k + 1 !in origins
    ensures DeepState(After(codec, s, DeepSave(k)), k + 1)
  {
    var op := DeepSave(k);
    DeepHops(s, k);
    var row := PersistedRow(s, codec, origins, Stamped(op.r, k + 1, 1), op.o);
    assert After(codec, s, op) == Inserted(s, row);
    DeepInsert(s, row, k);
  }

  lemma {:induction false} DeepInsert(s: Store, row: Revision, k: nat)
    requires Linked(s) && DeepState(s, k) && k + 1 !in s.revisions
    requires row.id == k + 1 && row.postID == 1 && row.snapshot.None?
    ensures DeepState(Inserted(s, row), k + 1)
  {
    var ids := List(s, 1);
    forall i | 0 <= i < |ids| ensures ids[i] in s.revisions && ids[i] != k + 1 { assert RowOk(s, 1, i); }
    LastSnapshotSkips(s.revisions, Inserted(s, row).revisions, ids, k + 1);
  }

  lemma {:induction false} DeepRunWellUsed(n: nat)
    ensures WellUsed(DeepRun(n))
  {
  }

  lemma {:induction false} FirstDeepSave(codec: Codec)
    ensures DeepState(Run(codec, DeepRun(1)), 1)
  {
    var ops := DeepRun(1);
    assert ops[..|ops| - 1] == [] && ops[0] == DeepSave(0);
    var s := Run(codec, ops);
    assert Run(codec, []) == EMPTY_STORE;
    assert s == After(codec, EMPTY_STORE, DeepSave(0));
    assert List(s, 1) == [1];
    assert s.revisions[1].snapshot.Some?;
  }

  lemma {:induction false} DeepRunNext(codec: Codec, n: nat)
    requires n >= 1
    ensures DeepRun(n)[..n - 1] == DeepRun(n - 1)
    ensures Run(codec, DeepRun(n)) == After(codec, Run(codec, DeepRun(n - 1)), DeepSave(n - 1))
  {
    var ops := DeepRun(n);
    assert ops[..|ops| - 1] == DeepRun(n - 1) && ops[|ops| - 1] == DeepSave(n - 1);
  }

  lemma {:induction false} DeepOrigins(codec: Codec, n: nat)
    ensures n + 1 !in OriginsOf(codec, DeepRun(n))
  {
    DeepRunWellUsed(n);
    OriginsMeaning(codec, DeepRun(n));
    forall i | 0 <= i < n ensures IdOf(DeepRun(n)[i]) == i + 1 {}
  }

  lemma {:induction false} DeepRunGrows(codec: Codec, n: nat)
    requires codec.RoundTrips() && 2 <= n <= MAX_CHAIN_DEPTH + 1
    requires DeepState(Run(codec, DeepRun(n - 1)), n - 1)
    ensures DeepState(Run(codec, DeepRun(n)), n)
  {
    var ops := DeepRun(n - 1);
    var s, origins := Run(codec, ops), OriginsOf(codec, ops);
    DeepRunWellUsed(n - 1);
    assert Sound(s, codec, origins) by { RunIsSound(codec, ops); }
    DeepOrigins(codec, n - 1);
    DeepSaveStep(codec, s, origins, n - 1);
    DeepRunNext(codec, n);
  }

  lemma {:induction false} DeepRunChain(codec: Codec, n: nat)
    requires codec.RoundTrips() && 1 <= n <= MAX_CHAIN_DEPTH + 1
    ensures DeepState(Run(codec, DeepRun(n)), n)
  {
    if n == 1 {
      FirstDeepSave(codec);
    } else {
      DeepRunChain(codec, n - 1);
      DeepRunGrows(codec, n);
    }
  }

  /** Appending a delta does not move the last snapshot. */
  lemma {:induction false} LastSnapshotSkips(rows: Rows, rows': Rows, ids: seq<Uuid>, id: Uuid)
    requires forall x :: x in ids ==> x in rows && x in rows' && rows'[x] == rows[x]
    requires id in rows' && rows'[id].snapshot.None?
    ensures LastSnapshot(rows', ids + [id]) == LastSnapshot(rows', ids) == LastSnapshot(rows, ids)
  {
    assert (ids + [id])[..|ids|] == ids;
    LastSnapshotSame(rows, rows', ids);
  }

  lemma {:induction false} LastSnapshotSame(rows: Rows, rows': Rows, ids: seq<Uuid>)
    requires forall x :: x in ids ==> x in rows && x in rows' && rows'[x] == rows[x]
    ensures LastSnapshot(rows', ids) == LastSnapshot(rows, ids)
  {
    if ids != [] {
      LastSnapshotSame(rows, rows', ids[..|ids| - 1]);
    }
  }

  /** With SnapshotEveryN at 1025 the 1025th save is accepted, and its revision
      can never be read. */
  lemma {:induction false} DeepSaveIsLost(codec: Codec)
    requires codec.RoundTrips()
    ensures var s := Run(codec, DeepRun(MAX_CHAIN_DEPTH + 1));
            MAX_CHAIN_DEPTH + 1 in s.revisions &&
            MaterializeAt(s.revisions, codec, MAX_CHAIN_DEPTH + 1, 0) == Err(CorruptChain)
  {
    var n := MAX_CHAIN_DEPTH + 1;
    var ops := DeepRun(n);
    DeepRunWellUsed(n);
    DeepRunWellUsed(n - 1);
    RunIsSound(codec, ops);
    RunIsSound(codec, DeepRun(n - 1));
    DeepRunChain(codec, n);
    DeepRunChain(codec, n - 1);
    DeepRunNext(codec, n);
    DeepHops(Run(codec, DeepRun(n - 1)), n - 1);
    assert RowOk(Run(codec, ops), 1, n - 1);
    HistoryTheorem(codec, ops, n - 1);
  }
}
