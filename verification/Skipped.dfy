/** The number of skipped rows the retention worker reports beside the one it documents (pruner.go). */
module SkippedRows {
  import opened Revisions
  import opened Chains
  import opened Pruning
  import opened MemoryStores
  import opened Pruners
  import opened DryRuns
  import opened DryOrders
  import R = Retention
  import C = Classify

  /** The row outlived the window and its group's cap; whether it is pinned is not asked. */
  predicate OutsideWindow(cs: seq<R.Candidate>, i: nat, policy: R.Policy, now: Time)
    requires i < |cs|
  {
    && policy.keepLast > 0 && R.GroupOf(cs[i]) != R.Ungrouped
    && (policy.keepWithin > 0 ==> Sub(now, cs[i].createdAt) >= policy.keepWithin)
    && |R.Members(cs[i + 1..], R.GroupOf(cs[i]), Per(policy), now)| >= policy.keepLast
  }

  function Unpinned(cs: seq<R.Candidate>, i: nat): seq<R.Candidate>
    requires i < |cs|
  {
    cs[i := cs[i].(isPermanent := false)]
  }

  /** The row would have been marked had it not been pinned, and stays. */
  ghost predicate Retained(cs: seq<R.Candidate>, i: nat, policy: R.Policy, now: Time) {
    && i < |cs| && R.Marked(Unpinned(cs, i), i, Per(policy), now)
    && i !in C.ChosenRows(cs, Per(policy), now)
  }

  /** What Skipped is documented to count. */
  ghost function RetainedRows(cs: seq<R.Candidate>, policy: R.Policy, now: Time): set<nat> {
    set i: nat | i < |cs| && Retained(cs, i, policy, now)
  }

  /** What it counts. */
  ghost function PermanentRows(cs: seq<R.Candidate>): set<nat> {
    set i: nat | i < |cs| && cs[i].isPermanent
  }

  /** Marked rows that an unmarked row is rebuilt through. */
  ghost function HeldBack(cs: seq<R.Candidate>, policy: R.Policy, now: Time): set<nat> {
    set i: nat | i < |cs| && R.Marked(cs, i, Per(policy), now) && C.Spared(cs, i, Per(policy), now)
  }

  ghost function PinnedInside(cs: seq<R.Candidate>, policy: R.Policy, now: Time): set<nat> {
    set i: nat | i < |cs| && cs[i].isPermanent && !OutsideWindow(cs, i, policy, now)
  }

  /** Row i is marked and the parent of the delta j, which is not. */
  predicate HoldsBack(cs: seq<R.Candidate>, i: nat, j: nat, policy: R.Policy, now: Time)
    requires i < |cs| && j < |cs|
  {
    && R.Marked(cs, i, Per(policy), now) && !R.Marked(cs, j, Per(policy), now)
    && !cs[j].isSnapshot && cs[j].deltaFrom != NIL && cs[j].deltaFrom == cs[i].id
  }

  /** No pinned row is inside the window. */
  ghost predicate PinsAreOutside(cs: seq<R.Candidate>, policy: R.Policy, now: Time) {
    forall i :: 0 <= i < |cs| && cs[i].isPermanent ==> OutsideWindow(cs, i, policy, now)
  }

  /** No marked row is the parent of an unmarked delta. */
  ghost predicate ParentsGoLast(cs: seq<R.Candidate>, policy: R.Policy, now: Time) {
    forall i: nat, j: nat :: i < |cs| && j < |cs| ==> !HoldsBack(cs, i, j, policy, now)
  }

  // ---------- Rows outside the window ----------

  lemma {:induction false} UnpinnedIsMarked(cs: seq<R.Candidate>, i: nat, policy: R.Policy, now: Time)
    requires i < |cs|
    ensures R.Marked(Unpinned(cs, i), i, Per(policy), now) <==> OutsideWindow(cs, i, policy, now)
    ensures !cs[i].isPermanent ==> (R.Marked(cs, i, Per(policy), now) <==> OutsideWindow(cs, i, policy, now))
    ensures cs[i].isPermanent ==> !R.Marked(cs, i, Per(policy), now)
  {
    assert Unpinned(cs, i)[i + 1..] == cs[i + 1..];
    assert !cs[i].isPermanent ==> Unpinned(cs, i) == cs;
  }

  // ---------- Rows held back ----------

  lemma {:induction false} FirstOnTheWay(cs: seq<R.Candidate>, j: nat, i: nat, hops: nat, policy: R.Policy, now: Time)
    requires C.DistinctIDs(cs) && j < |cs| && i < |cs| && hops > 0
    requires R.Marked(cs, i, Per(policy), now) && !R.Marked(cs, j, Per(policy), now)
    requires R.Reaches(cs, cs[j].id, cs[i].id, hops)
    ensures !ParentsGoLast(cs, policy, now)
    decreases hops
  {
    var k :| 0 <= k < |cs| && cs[k].id == cs[j].id && !cs[k].isSnapshot && cs[k].deltaFrom != NIL
             && R.Reaches(cs, cs[k].deltaFrom, cs[i].id, hops - 1);
    if hops == 1 {
      assert HoldsBack(cs, i, j, policy, now);
    } else {
      var parent :| 0 <= parent < |cs| && cs[parent].id == cs[k].deltaFrom;
      if R.Marked(cs, parent, Per(policy), now) {
        assert HoldsBack(cs, parent, j, policy, now);
      } else {
        FirstOnTheWay(cs, parent, i, hops - 1, policy, now);
      }
    }
  }

  /** Some row is held back exactly when some marked row is the parent of an unmarked delta. */
  lemma {:induction false} HeldBackExactlyWhen(cs: seq<R.Candidate>, policy: R.Policy, now: Time)
    requires C.DistinctIDs(cs)
    ensures HeldBack(cs, policy, now) == {} <==> ParentsGoLast(cs, policy, now)
  {
    if i :| i in HeldBack(cs, policy, now) {
      var j: nat, hops: nat :| j < |cs| && !R.Marked(cs, j, Per(policy), now) && hops > 0
                               && R.Reaches(cs, cs[j].id, cs[i].id, hops);
      FirstOnTheWay(cs, j, i, hops, policy, now);
    }
    if i: nat, j: nat :| i < |cs| && j < |cs| && HoldsBack(cs, i, j, policy, now) {
      var once: nat := 1;
      assert R.Reaches(cs, cs[i].id, cs[i].id, 0);
      assert R.Reaches(cs, cs[j].id, cs[i].id, once);
      assert i in HeldBack(cs, policy, now);
    }
  }

  // ---------- The two numbers ----------

  /** The documented rows are the pinned ones, without those inside the window, and those held back. */
  lemma {:induction false} RetainedMeaning(cs: seq<R.Candidate>, policy: R.Policy, now: Time)
    ensures var kept, pinned := RetainedRows(cs, policy, now), PermanentRows(cs);
            var held, inside := HeldBack(cs, policy, now), PinnedInside(cs, policy, now);
            && kept == (pinned - inside) + held && inside <= pinned && held !! pinned
            && |kept| + |inside| == |pinned| + |held|
  {
    forall i: nat | i < |cs|
      ensures Retained(cs, i, policy, now) <==>
              if cs[i].isPermanent then OutsideWindow(cs, i, policy, now) else i in HeldBack(cs, policy, now)
      ensures i in HeldBack(cs, policy, now) ==> !cs[i].isPermanent
    {
      UnpinnedIsMarked(cs, i, policy, now);
    }
    var pinned, held, inside := PermanentRows(cs), HeldBack(cs, policy, now), PinnedInside(cs, policy, now);
    assert RetainedRows(cs, policy, now) == (pinned - inside) + held;
    assert |pinned - inside| == |pinned| - |inside|;
  }

  /** The rows counted are the rows documented exactly when every pinned row is outside the window and no
      marked row is the parent of an unmarked delta. */
  lemma {:induction false} SkippedExactlyWhen(cs: seq<R.Candidate>, policy: R.Policy, now: Time)
    requires C.DistinctIDs(cs)
    ensures PermanentRows(cs) == RetainedRows(cs, policy, now) <==>
            PinsAreOutside(cs, policy, now) && ParentsGoLast(cs, policy, now)
  {
    RetainedMeaning(cs, policy, now);
    HeldBackExactlyWhen(cs, policy, now);
    InsideExactlyWhen(cs, policy, now);
    SplitIsWhole(PermanentRows(cs), PinnedInside(cs, policy, now), HeldBack(cs, policy, now));
  }

  lemma {:induction false} InsideExactlyWhen(cs: seq<R.Candidate>, policy: R.Policy, now: Time)
    ensures PinnedInside(cs, policy, now) == {} <==> PinsAreOutside(cs, policy, now)
  {
    if i :| 0 <= i < |cs| && cs[i].isPermanent && !OutsideWindow(cs, i, policy, now) {
      assert i in PinnedInside(cs, policy, now);
    }
  }

  lemma {:induction false} SplitIsWhole(all: set<nat>, inside: set<nat>, more: set<nat>)
    requires inside <= all && more !! all
    ensures all == (all - inside) + more <==> inside == {} && more == {}
  {
    if x :| x in inside { assert x !in (all - inside) + more; }
    if x :| x in more { assert x in (all - inside) + more; }
  }

  // ---------- The worker's report ----------

  lemma {:induction false} PermanentCount(rows: seq<Revision>)
    ensures Pinned(rows) == |PermanentRows(Projected(rows))|
  {
    if rows == [] {
      assert PermanentRows(Projected(rows)) == {};
    } else {
      var n := |rows| - 1;
      PermanentCount(rows[..n]);
      assert PermanentRows(Projected(rows)) ==
             PermanentRows(Projected(rows[..n])) + if rows[n].isPermanent then {n} else {};
    }
  }

  lemma {:induction false} PinnedOfAppend(xs: seq<Revision>, ys: seq<Revision>)
    ensures Pinned(xs + ys) == Pinned(xs) + Pinned(ys)
  {
    if ys == [] {
      assert xs + ys == xs;
    } else {
      assert (xs + ys)[..|xs + ys| - 1] == xs + ys[..|ys| - 1];
      PinnedOfAppend(xs, ys[..|ys| - 1]);
    }
  }

  lemma {:induction false} PinnedReversed(rows: seq<Revision>)
    ensures Pinned(Listings.Reversed(rows)) == Pinned(rows)
  {
    if rows != [] {
      var n := |rows| - 1;
      PinnedReversed(rows[..n]);
      assert Listings.Reversed(rows) == [rows[n]] + Listings.Reversed(rows[..n]);
      PinnedOfAppend([rows[n]], Listings.Reversed(rows[..n]));
      assert [rows[n]][..0] == [];
    }
  }

  /** The skipped number of a sweep is the documented one, row for row, exactly when every pinned row
      shown is outside the window and no marked row shown is the parent of an unmarked delta shown; as
      a number it is short by the rows held back and over by the pinned rows inside the window. */
  lemma {:induction false} SkippedIsRightExactlyWhen(s: Store, post: Uuid, policy: R.Policy, now: Time)
    requires Linked(s)
    ensures var cs := ShownCandidates(s, post);
            && Pinned(Shown(s, post)) == |PermanentRows(cs)|
            && Pinned(Shown(s, post)) + |HeldBack(cs, policy, now)|
               == |RetainedRows(cs, policy, now)| + |PinnedInside(cs, policy, now)|
            && (PermanentRows(cs) == RetainedRows(cs, policy, now) <==>
                  PinsAreOutside(cs, policy, now) && ParentsGoLast(cs, policy, now))
  {
    var cs := ShownCandidates(s, post);
    var rank := ShownIsRanked(s, post);
    PinnedReversed(Shown(s, post));
    PermanentCount(Listings.Reversed(Shown(s, post)));
    RetainedMeaning(cs, policy, now);
    SkippedExactlyWhen(cs, policy, now);
  }

  lemma {:induction false} PinnedDropped(rows: seq<Revision>, n: nat)
    requires n <= |rows|
    ensures Pinned(rows[..n]) == |R.Dropped(Projected(rows), PermanentRows(Projected(rows)), n)|
  {
    if n > 0 {
      PinnedDropped(rows, n - 1);
      assert rows[..n][..n - 1] == rows[..n - 1];
    }
  }

  lemma {:induction false} PinnedIds(rows: seq<Revision>)
    requires C.DistinctIDs(Projected(rows))
    ensures var cs := Projected(rows); Pinned(rows) == |IdsAt(cs, PermanentRows(cs))|
  {
    PinnedDropped(rows, |rows|);
    DroppedCount(Projected(rows), PermanentRows(Projected(rows)), |rows|);
    assert rows[..|rows|] == rows && Projected(rows)[..|rows|] == Projected(rows);
  }

  lemma {:induction false} PermanentWithin(cs: seq<R.Candidate>, ds: seq<R.Candidate>)
    requires SameRows(cs, ds)
    ensures IdsAt(cs, PermanentRows(cs)) <= IdsAt(ds, PermanentRows(ds))
  {
    forall x | x in IdsAt(cs, PermanentRows(cs)) ensures x in IdsAt(ds, PermanentRows(ds)) {
      var i :| i in PermanentRows(cs) && i < |cs| && cs[i].id == x;
      var j := PlaceOf(cs, ds, i);
      assert j in PermanentRows(ds);
    }
  }

  /** Up to 1000 rows the worker sees every pinned row. */
  lemma {:induction false} EveryPinnedIsShown(s: Store, post: Uuid)
    requires Linked(s) && |List(s, post)| <= PRUNER_LIST_LIMIT
    ensures Pinned(Shown(s, post)) == |PermanentRows(Candidates(s, post))|
  {
    var cs, ds := Candidates(s, post), ShownCandidates(s, post);
    ShownAreTheRows(s, post);
    PermanentWithin(cs, ds);
    PermanentWithin(ds, cs);
    ProjectedTail(s, post, 0);
    assert RowsIn(s, post)[0..] == RowsIn(s, post) && cs[0..] == cs;
    assert IdsAt(cs, PermanentRows(cs)) == IdsAt(ds, PermanentRows(ds));
    PinnedIds(RowsIn(s, post));
    PinnedIds(Listings.Reversed(Shown(s, post)));
    PinnedReversed(Shown(s, post));
    PermanentCount(RowsIn(s, post));
  }

  /** So of the rows as a real run takes them, in insertion order, the same is true. */
  lemma {:induction false} RealSkippedIsRightExactlyWhen(s: Store, post: Uuid, policy: R.Policy, now: Time)
    requires Linked(s) && |List(s, post)| <= PRUNER_LIST_LIMIT
    ensures var cs := Candidates(s, post);
            && Pinned(Shown(s, post)) == |PermanentRows(cs)|
            && Pinned(Shown(s, post)) + |HeldBack(cs, policy, now)|
               == |RetainedRows(cs, policy, now)| + |PinnedInside(cs, policy, now)|
            && (PermanentRows(cs) == RetainedRows(cs, policy, now) <==>
                  PinsAreOutside(cs, policy, now) && ParentsGoLast(cs, policy, now))
  {
    EveryPinnedIsShown(s, post);
    LinkedGivesChain(s, post);
    RetainedMeaning(Candidates(s, post), policy, now);
    SkippedExactlyWhen(Candidates(s, post), policy, now);
  }
}
