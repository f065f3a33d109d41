/** Stores whose nightly report is not the documented one (pruner.go). */
module PrunerRuns {
  import opened Common
  import opened Delta
  import opened Revisions
  import opened Chains
  import opened Pruning
  import opened MemoryStores
  import opened Pruners
  import opened DryRuns
  import opened SkippedRows
  import opened History
  import opened Listings
  import R = Retention
  import C = Classify

  /** The k-th save of post 1, a manual one whose caller sets its time. */
  function ManualSave(k: nat, at: Time, force: bool, pinned: bool): Step {
    Save(Revision(k, 1, 0, Manual, at, Document(Num(k)), NIL, None, None, pinned), SaveOptions(0, 0, force), k, at)
  }

  function Snapshot(k: nat, at: Time, pinned: bool): R.Candidate { R.Candidate(k, 0, at, Manual, true, NIL, pinned) }

  /** Row 2, a delta of row 1. */
  function Child(at: Time): R.Candidate { R.Candidate(2, 0, at, Manual, false, 1, false) }

  lemma {:induction false} OneSave(codec: Codec, at: Time, pinned: bool) returns (s: Store)
    requires codec.RoundTrips()
    ensures s == Run(codec, [ManualSave(1, at, false, pinned)]) && Linked(s) && List(s, 1) == [1]
    ensures Candidates(s, 1) == [Snapshot(1, at, pinned)]
    ensures 1 in s.revisions && s.revisions[1].createdAt == at && s.revisions[1].snapshot == Some(Num(1))
  {
    var op := ManualSave(1, at, false, pinned);
    s := Run(codec, [op]);
    assert Linked(s) by { RunIsSound(codec, [op]); }
    assert [op][..0] == [] && Run(codec, []) == EMPTY_STORE;
    assert s == After(codec, EMPTY_STORE, op);
    assert Candidates(s, 1) == [Snapshot(1, at, pinned)];
  }

  lemma {:induction false} TwoSaves(codec: Codec, first: Time, second: Time) returns (s: Store)
    requires codec.RoundTrips() && Sub(second, first) < Seconds(DEFAULT_MAX_SNAPSHOT_AGE_SEC)
    ensures s == Run(codec, [ManualSave(1, first, false, false), ManualSave(2, second, false, false)])
    ensures Linked(s) && List(s, 1) == [1, 2]
    ensures Candidates(s, 1) == [Snapshot(1, first, false), Child(second)]
  {
    var ops := [ManualSave(1, first, false, false), ManualSave(2, second, false, false)];
    var before := OneSave(codec, first, false);
    s := Run(codec, ops);
    assert Linked(s) by { TwoAreSound(codec, ops); }
    assert s == After(codec, before, ops[1]) by { assert ops[..1] == [ops[0]]; }
    SecondSave(codec, before, first, second);
  }

  lemma {:induction false} TwoAreSound(codec: Codec, ops: seq<Step>)
    requires codec.RoundTrips() && |ops| == 2 && ops[0].Save? && ops[1].Save? && Draft(ops[0].r) && Draft(ops[1].r)
    requires IdOf(ops[0]) == 1 && IdOf(ops[1]) == 2
    ensures Linked(Run(codec, ops))
  {
    RunIsSound(codec, ops);
  }

  lemma {:induction false} SecondSave(codec: Codec, s: Store, first: Time, second: Time)
    requires codec.RoundTrips() && Sub(second, first) < Seconds(DEFAULT_MAX_SNAPSHOT_AGE_SEC)
    requires List(s, 1) == [1] && Candidates(s, 1) == [Snapshot(1, first, false)]
    requires 1 in s.revisions && s.revisions[1].createdAt == first && s.revisions[1].snapshot == Some(Num(1))
    ensures var after := After(codec, s, ManualSave(2, second, false, false));
            List(after, 1) == [1, 2] && Candidates(after, 1) == [Snapshot(1, first, false), Child(second)]
  {
    var op := ManualSave(2, second, false, false);
    assert LastSnapshot(s.revisions, [1]) == 0;
    assert DeltaDue(s.revisions, [1], second, op.o);
    assert MaterializeAt(s.revisions, codec, 1, 0) == Ok(Num(1));
    assert codec.compute(Num(1), Num(2)).Some?;
    var after := After(codec, s, op);
    assert List(after, 1) == [1] + [2];
    assert Candidates(s, 1)[0] == CandidateOf(s.revisions[1]);
    assert Candidates(after, 1) == [Snapshot(1, first, false), Child(second)];
  }

  lemma {:induction false} ShownOfOne(s: Store)
    requires Linked(s) && |List(s, 1)| == 1
    ensures ShownCandidates(s, 1) == Candidates(s, 1) && |Shown(s, 1)| == 1
  {
    var rows := RowsIn(s, 1);
    RowsDiffer(s, 1);
    assert SortNewest(rows) == Sorted(Newer, rows[..0]) + [rows[0]] + [];
    assert Reversed(Shown(s, 1)) == rows;
  }

  lemma {:induction false} ShownOfTwo(s: Store)
    requires Linked(s) && |List(s, 1)| == 2
    ensures var cs := Candidates(s, 1);
            ShownCandidates(s, 1) == if DryOrders.Later(cs[1], cs[0]) then cs else [cs[1], cs[0]]
  {
    var rows, cs := RowsIn(s, 1), Candidates(s, 1);
    RowsDiffer(s, 1);
    assert rows[..1] == [rows[0]] && rows[..1][..0] == [];
    assert Sorted(Newer, rows[..1]) == [rows[0]];
    assert Insert(Newer, rows[1], [rows[0]][1..]) == [rows[1]];
    assert SortNewest(rows) == if Newer(rows[1], rows[0]) then [rows[1], rows[0]] else [rows[0], rows[1]];
    assert Reversed(Shown(s, 1)) == if Newer(rows[1], rows[0]) then [rows[0], rows[1]] else [rows[1], rows[0]];
  }

  // ---------- Two rows under a policy that keeps one ----------

  lemma {:induction false} MembersOfTwo(cs: seq<R.Candidate>, now: Time)
    requires |cs| == 2 && Joins(cs[0], R.Manuals) && Joins(cs[1], R.Manuals)
    ensures R.Marked(cs, 0, Per(R.Policy(1, 0)), now) && !R.Marked(cs, 1, Per(R.Policy(1, 0)), now)
  {
    var p := Per(R.Policy(1, 0));
    assert cs[1..] == [cs[1]] && cs[2..] == [] && [cs[1]][..0] == [];
    assert R.Members([cs[1]], R.Manuals, p, now) == [cs[1].id];
  }

  /** Listed in insertion order the delta holds its snapshot back. */
  lemma {:induction false} DeltaLast(first: Time, second: Time, now: Time)
    ensures var cs, p := [Snapshot(1, first, false), Child(second)], Per(R.Policy(1, 0));
            C.ChosenRows(cs, p, now) == {} && C.ChosenIds(cs, p, now) == [] && C.Spared(cs, 0, p, now)
  {
    var cs, p := [Snapshot(1, first, false), Child(second)], Per(R.Policy(1, 0));
    MembersOfTwo(cs, now);
    var one: nat := 1;
    assert R.Reaches(cs, 1, 1, 0);
    assert R.Reaches(cs, cs[one].id, cs[0].id, one);
    assert C.Spared(cs, 0, p, now);
    assert C.ChosenRows(cs, p, now) == {};
    assert R.Dropped(cs, {}, 1) == [];
  }

  /** Listed the other way round the delta goes. */
  lemma {:induction false} DeltaFirst(first: Time, second: Time, now: Time)
    ensures var cs, p := [Child(second), Snapshot(1, first, false)], Per(R.Policy(1, 0));
            |C.ChosenIds(cs, p, now)| == 1
  {
    var cs, p := [Child(second), Snapshot(1, first, false)], Per(R.Policy(1, 0));
    MembersOfTwo(cs, now);
    forall hops: nat | hops > 0 ensures !R.Reaches(cs, cs[1].id, cs[0].id, hops) {}
    assert C.ChosenRows(cs, p, now) == {0};
    assert R.Dropped(cs, {0}, 1) == [2];
  }

  lemma {:induction false} DeletedIsChosen(s: Store, policy: R.Policy, now: Time)
    requires Linked(s)
    ensures Deleted(s, 1, policy, now) == |C.ChosenIds(Candidates(s, 1), Per(policy), now)|
  {
    ChainTail(s, 1, 0);
    assert Candidates(s, 1)[0..] == Candidates(s, 1);
    C.ChosenIsDoomed(Candidates(s, 1), Per(policy), now);
  }

  /** A delta whose caller dates it before its snapshot: a dry run reports one row, a real run deletes none. */
  lemma {:induction false} EarlierDeltaIsReported(codec: Codec, now: Time)
    requires codec.RoundTrips()
    ensures var s := Run(codec, [ManualSave(1, 10, false, false), ManualSave(2, 5, false, false)]);
            Reported(s, 1, R.Policy(1, 0), now) == 1 && Deleted(s, 1, R.Policy(1, 0), now) == 0
  {
    var s := TwoSaves(codec, 10, 5);
    ShownOfTwo(s);
    DeletedIsChosen(s, R.Policy(1, 0), now);
    DeltaLast(10, 5, now);
    DeltaFirst(10, 5, now);
  }

  lemma {:induction false} RetainedOfTwo(cs: seq<R.Candidate>, first: Time, second: Time, now: Time)
    requires cs == [Snapshot(1, first, false), Child(second)]
    ensures PermanentRows(cs) == {} && RetainedRows(cs, R.Policy(1, 0), now) == {0}
  {
    DeltaLast(first, second, now);
    MembersOfTwo(cs, now);
    RetainedMeaning(cs, R.Policy(1, 0), now);
    assert PermanentRows(cs) == {};
    assert HeldBack(cs, R.Policy(1, 0), now) == {0};
  }

  /** A snapshot that the delta after it holds back, and that Skipped does not count. */
  lemma {:induction false} SnapshotIsHeldBack(codec: Codec, now: Time)
    requires codec.RoundTrips()
    ensures var s := Run(codec, [ManualSave(1, 1, false, false), ManualSave(2, 2, false, false)]);
            Pinned(Shown(s, 1)) == 0 && RetainedRows(ShownCandidates(s, 1), R.Policy(1, 0), now) == {0}
  {
    var s := TwoSaves(codec, 1, 2);
    ShownOfTwo(s);
    RetainedOfTwo(ShownCandidates(s, 1), 1, 2, now);
    SkippedIsRightExactlyWhen(s, 1, R.Policy(1, 0), now);
  }

  lemma {:induction false} RetainedOfPinned(cs: seq<R.Candidate>, at: Time)
    requires cs == [Snapshot(1, at, true)]
    ensures PermanentRows(cs) == {0} && RetainedRows(cs, R.Policy(1, 50), at) == {}
  {
    UnpinnedIsMarked(cs, 0, R.Policy(1, 50), at);
  }

  /** A pinned row inside the keep window, which Skipped counts: no cap or window would take it unpinned. */
  lemma {:induction false} PinnedInsideIsCounted(codec: Codec, at: Time)
    requires codec.RoundTrips()
    ensures var s := Run(codec, [ManualSave(1, at, false, true)]);
            Pinned(Shown(s, 1)) == 1 && RetainedRows(ShownCandidates(s, 1), R.Policy(1, 50), at) == {}
  {
    var s := OneSave(codec, at, true);
    ShownOfOne(s);
    RetainedOfPinned(ShownCandidates(s, 1), at);
    SkippedIsRightExactlyWhen(s, 1, R.Policy(1, 50), at);
  }

  // ---------- One row more than the worker is shown ----------

  function FlatSave(k: nat): Step { ManualSave(k + 1, k + 1, true, false) }

  function FlatRun(n: nat): (ops: seq<Step>)
    ensures |ops| == n && forall k :: 0 <= k < n ==> ops[k] == FlatSave(k)
  {
    if n == 0 then [] else FlatRun(n - 1) + [FlatSave(n - 1)]
  }

  /** Snapshots 1 to n, each dated after the one before. */
  ghost predicate Flat(s: Store, n: nat) {
    && |List(s, 1)| == n
    && forall i :: 0 <= i < n ==> List(s, 1)[i] == i + 1 && i + 1 in s.revisions
                                  && CandidateOf(s.revisions[i + 1]) == Snapshot(i + 1, i + 1, false)
  }

  lemma {:induction false} FlatRunIsFlat(codec: Codec, n: nat)
    ensures Flat(Run(codec, FlatRun(n)), n)
  {
    var ops := FlatRun(n);
    if n == 0 {
      assert Run(codec, ops) == EMPTY_STORE;
    } else {
      FlatRunIsFlat(codec, n - 1);
      var s := Run(codec, FlatRun(n - 1));
      assert ops[..n - 1] == FlatRun(n - 1);
      assert Run(codec, ops) == After(codec, s, FlatSave(n - 1));
      FlatGrows(codec, s, n - 1);
    }
  }

  lemma {:induction false} FlatGrows(codec: Codec, s: Store, n: nat)
    requires Flat(s, n)
    ensures Flat(After(codec, s, FlatSave(n)), n + 1)
  {
    var op := FlatSave(n);
    assert !DeltaDue(s.revisions, List(s, 1), n + 1, op.o);
    var after := After(codec, s, op);
    assert after == Inserted(s, AsSnapshot(Stamped(op.r, op.newID, op.now)));
    assert List(after, 1) == List(s, 1) + [n + 1];
    forall i | 0 <= i < n ensures List(after, 1)[i] == i + 1 && after.revisions[i + 1] == s.revisions[i + 1] {
      assert List(s, 1)[i] == i + 1;
    }
  }

  lemma {:induction false} FlatIsAscending(s: Store, n: nat)
    requires Linked(s) && Flat(s, n)
    ensures Ascending(Newer, RowsIn(s, 1))
    ensures |Candidates(s, 1)| == n && forall i :: 0 <= i < n ==> Candidates(s, 1)[i] == Snapshot(i + 1, i + 1, false)
  {
    forall i | 0 <= i < n ensures RowsIn(s, 1)[i].createdAt == i + 1 && Candidates(s, 1)[i] == Snapshot(i + 1, i + 1, false) {
      assert List(s, 1)[i] == i + 1;
    }
  }

  lemma {:induction false} FlatRunIsLinked(codec: Codec, n: nat)
    requires codec.RoundTrips()
    ensures Linked(Run(codec, FlatRun(n)))
  {
    var ops := FlatRun(n);
    forall i | 0 <= i < n ensures IdOf(ops[i]) == i + 1 {}
    RunIsSound(codec, ops);
  }

  /** Of more than 1000 manual snapshots a dry run that keeps the last reports too few. */
  lemma {:induction false} OlderRowsAreMissed(codec: Codec, n: nat, now: Time)
    requires codec.RoundTrips() && n > PRUNER_LIST_LIMIT
    ensures var s := Run(codec, FlatRun(n)); Reported(s, 1, R.Policy(1, 0), now) < Deleted(s, 1, R.Policy(1, 0), now)
  {
    var s := Run(codec, FlatRun(n));
    FlatRunIsLinked(codec, n);
    FlatRunIsFlat(codec, n);
    FlatIsAscending(s, n);
    FlatMisses(s, n, now);
  }

  lemma {:induction false} FlatMisses(s: Store, n: nat, now: Time)
    requires Linked(s) && Ascending(Newer, RowsIn(s, 1)) && n > PRUNER_LIST_LIMIT
    requires |Candidates(s, 1)| == n && forall i :: 0 <= i < n ==> Candidates(s, 1)[i] == Snapshot(i + 1, i + 1, false)
    ensures Reported(s, 1, R.Policy(1, 0), now) < Deleted(s, 1, R.Policy(1, 0), now)
  {
    FirstIsExpendable(Candidates(s, 1));
    ExpendableExactlyWhen(Candidates(s, 1), 0);
    assert R.Doomed(Candidates(s, 1), 0, Per(R.Policy(1, 0)), now);
    DryRunAgainstReal(s, 1, R.Policy(1, 0), now);
    assert 0 < Unseen(s, 1);
  }

  lemma {:induction false} FirstIsExpendable(cs: seq<R.Candidate>)
    requires |cs| > 1 && forall i :: 0 <= i < |cs| ==> cs[i] == Snapshot(i + 1, i + 1, false)
    ensures Expendable(cs, 0)
  {
    assert cs[1].isSnapshot && Joins(cs[1], R.Manuals);
    assert Crowded(cs, 0);
  }
}
