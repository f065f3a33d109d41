/** What a prune does to the in-memory store, and what it leaves true. */
module Pruning {
  import opened Delta
  import opened Revisions
  import opened Chains
  import R = Retention

  function CandidateOf(r: Revision): R.Candidate {
    R.Candidate(r.id, r.authorID, r.createdAt, r.kind, r.snapshot.Some?, r.deltaFrom, r.isPermanent)
  }

  /** The post's rows, oldest first, as retention sees them. */
  function Candidates(s: Store, post: Uuid): (cs: seq<R.Candidate>)
    ensures |cs| == |List(s, post)|
  {
    var ids := List(s, post);
    seq(|ids|, i requires 0 <= i < |ids| => CandidateOf(RowAt(s, ids[i])))
  }

  function IDs(cs: seq<R.Candidate>): (ids: seq<Uuid>)
    ensures |ids| == |cs|
  {
    seq(|cs|, i requires 0 <= i < |cs| => cs[i].id)
  }

  function PruneStep(s: Store, post: Uuid, p: R.RetentionPolicy, now: Time): Store {
    if post !in s.byPost then s
    else
      var cs := Candidates(s, post);
      var drop := R.DoomedIds(cs, p, now);
      Store(s.revisions - (set x | x in drop), s.byPost[post := IDs(R.Survivors(cs, p, now))])
  }

  lemma {:induction false} LinkedGivesChain(s: Store, post: Uuid)
    requires Linked(s)
    ensures R.ChainOk(Candidates(s, post))
    ensures IDs(Candidates(s, post)) == List(s, post)
  {
    var ids := List(s, post);
    forall i | 0 <= i < |ids| ensures ids[i] in s.revisions && s.revisions[ids[i]].id == ids[i] {
      assert RowOk(s, post, i);
    }
    var cs := Candidates(s, post);
    forall i | 0 <= i < |cs| ensures R.LinkOk(cs, i) {
      assert RowOk(s, post, i);
    }
    assert NoRepeats(ids);
  }

  lemma {:induction false} DroppedMeaning(cs: seq<R.Candidate>, doomed: set<nat>, n: nat, x: Uuid)
    requires n <= |cs|
    ensures x in R.Dropped(cs, doomed, n) <==> exists i :: 0 <= i < n && cs[i].id == x && i in doomed
  {
    if n > 0 {
      DroppedMeaning(cs, doomed, n - 1, x);
    }
  }

  lemma {:induction false} KeptMeaning(cs: seq<R.Candidate>, doomed: set<nat>, n: nat, x: Uuid)
    requires n <= |cs|
    ensures x in IDs(R.Kept(cs, doomed, 0, n)) <==> exists i :: 0 <= i < n && cs[i].id == x && i !in doomed
  {
    if n > 0 {
      KeptMeaning(cs, doomed, n - 1, x);
      var k := R.Kept(cs, doomed, 0, n - 1);
      assert IDs(R.Kept(cs, doomed, 0, n)) == IDs(k) + if n - 1 in doomed then [] else [cs[n - 1].id];
    }
  }

  /** A row of the post is deleted exactly when it is doomed, and listed exactly
      when it is not. */
  lemma {:induction false} PruneSplitsRows(s: Store, post: Uuid, p: R.RetentionPolicy, now: Time, i: nat)
    requires Linked(s) && i < |List(s, post)|
    ensures var s' := PruneStep(s, post, p, now);
            var x := List(s, post)[i];
            && (x in s'.revisions <==> !R.Doomed(Candidates(s, post), i, p, now))
            && (x in List(s', post) <==> x in s'.revisions)
  {
    LinkedGivesChain(s, post);
    assert RowOk(s, post, i);
    var cs := Candidates(s, post);
    var x := cs[i].id;
    assert x == List(s, post)[i];
    DroppedMeaning(cs, R.DoomedRows(cs, p, now), |cs|, x);
    KeptMeaning(cs, R.DoomedRows(cs, p, now), |cs|, x);
  }

  lemma {:induction false} SurvivorComesFrom(s: Store, post: Uuid, p: R.RetentionPolicy, now: Time, q: nat) returns (i: nat)
    requires Linked(s) && q < |R.Survivors(Candidates(s, post), p, now)|
    ensures i < |List(s, post)| && R.Survivors(Candidates(s, post), p, now)[q] == Candidates(s, post)[i]
    ensures List(s, post)[i] in s.revisions && Candidates(s, post)[i] == CandidateOf(s.revisions[List(s, post)[i]])
    ensures Candidates(s, post)[i].id == List(s, post)[i]
    ensures !R.Doomed(Candidates(s, post), i, p, now) && RowOk(s, post, i)
  {
    LinkedGivesChain(s, post);
    var cs := Candidates(s, post);
    i := R.Origin(cs, R.DoomedRows(cs, p, now), |cs|, q);
    assert RowOk(s, post, i);
  }

  /** A prune keeps the chain invariant. */
  lemma {:induction false} PruneKeepsLinked(s: Store, post: Uuid, p: R.RetentionPolicy, now: Time)
    requires Linked(s)
    ensures Linked(PruneStep(s, post, p, now))
  {
    LinkedGivesChain(s, post);
    var s' := PruneStep(s, post, p, now);
    if post in s.byPost {
      var cs := Candidates(s, post);
      var ks := R.Survivors(cs, p, now);
      R.SurvivorsFormChain(cs, p, now);
      forall id | id in s'.revisions
        ensures id != NIL && s'.revisions[id].id == id && id in List(s', s'.revisions[id].postID)
      {
        if s.revisions[id].postID == post {
          var i :| 0 <= i < |List(s, post)| && List(s, post)[i] == id;
          PruneSplitsRows(s, post, p, now, i);
        }
      }
      forall b, q | 0 <= q < |List(s', b)| ensures RowOk(s', b, q) {
        if b == post {
          PrunedRowOk(s, post, p, now, q);
        } else {
          OtherRowOk(s, post, p, now, b, q);
        }
      }
      forall b ensures NoRepeats(List(s', b)) {
        if b == post {
          forall q, r | 0 <= q < r < |ks| ensures List(s', b)[q] != List(s', b)[r] {}
        } else {
          assert NoRepeats(List(s, b));
        }
      }
    }
  }

  lemma {:induction false} PrunedRowOk(s: Store, post: Uuid, p: R.RetentionPolicy, now: Time, q: nat)
    requires Linked(s) && post in s.byPost
    requires q < |List(PruneStep(s, post, p, now), post)|
    ensures RowOk(PruneStep(s, post, p, now), post, q)
  {
    var s' := PruneStep(s, post, p, now);
    var ks := R.Survivors(Candidates(s, post), p, now);
    var i := SurvivorComesFrom(s, post, p, now, q);
    var row := s.revisions[List(s, post)[i]];
    assert row.id in s'.revisions && ks[q] == CandidateOf(row) by { PruneSplitsRows(s, post, p, now, i); }
    assert R.LinkOk(ks, q) by {
      LinkedGivesChain(s, post);
      R.SurvivorsFormChain(Candidates(s, post), p, now);
    }
    assert List(s', post)[q] == ks[q].id && (q > 0 ==> List(s', post)[q - 1] == ks[q - 1].id);
  }

  lemma {:induction false} OtherRowOk(s: Store, post: Uuid, p: R.RetentionPolicy, now: Time, b: Uuid, q: nat)
    requires Linked(s) && post in s.byPost && b != post
    requires q < |List(s, b)|
    ensures RowOk(PruneStep(s, post, p, now), b, q)
  {
    LinkedGivesChain(s, post);
    assert RowOk(s, b, q);
    var cs := Candidates(s, post);
    var id := List(s, b)[q];
    DroppedMeaning(cs, R.DoomedRows(cs, p, now), |cs|, id);
    forall i | 0 <= i < |cs| ensures cs[i].id != id {
      assert RowOk(s, post, i);
    }
  }

  /** Fewer rows, parents still present: the hops of a survivor do not change. */
  lemma {:induction false} HopsSurvive(rows: Rows, rows': Rows, id: Uuid, k: nat)
    requires forall x :: x in rows' ==> x in rows && rows'[x] == rows[x]
    requires forall x :: x in rows' && rows'[x].snapshot.None? ==> rows'[x].deltaFrom in rows'
    requires id in rows' && SnapshotAt(rows, id, k)
    ensures SnapshotAt(rows', id, k)
    decreases k
  {
    if k > 0 {
      HopsSurvive(rows, rows', rows[id].deltaFrom, k - 1);
    }
  }

  /** A prune never breaks the chain of a survivor, nor moves it from its snapshot. */
  lemma {:induction false} PruneKeepsSound(s: Store, codec: Codec, origins: Origins, post: Uuid, p: R.RetentionPolicy, now: Time)
    requires Sound(s, codec, origins)
    ensures Sound(PruneStep(s, post, p, now), codec, origins)
  {
    PruneKeepsLinked(s, post, p, now);
    var s' := PruneStep(s, post, p, now);
    ParentsPresent(s');
    forall id | id in s'.revisions ensures SnapshotAt(s'.revisions, id, origins[id].hops) {
      HopsSurvive(s.revisions, s'.revisions, id, origins[id].hops);
    }
  }

  lemma {:induction false} CandidatesAfterPrune(s: Store, post: Uuid, p: R.RetentionPolicy, now: Time)
    requires Linked(s) && post in s.byPost
    ensures Candidates(PruneStep(s, post, p, now), post) == R.Survivors(Candidates(s, post), p, now)
  {
    var s' := PruneStep(s, post, p, now);
    var ks := R.Survivors(Candidates(s, post), p, now);
    forall q | 0 <= q < |ks| ensures Candidates(s', post)[q] == ks[q] {
      var i := SurvivorComesFrom(s, post, p, now, q);
      PruneSplitsRows(s, post, p, now, i);
      assert List(s', post)[q] == ks[q].id == List(s, post)[i];
      assert s'.revisions[List(s', post)[q]] == s.revisions[List(s, post)[i]];
    }
  }

  lemma {:induction false} NothingToPrune(s: Store, post: Uuid, p: R.RetentionPolicy, now: Time)
    requires Linked(s)
    requires forall q :: 0 <= q < |Candidates(s, post)| ==> !R.Doomed(Candidates(s, post), q, p, now)
    ensures PruneStep(s, post, p, now) == s
  {
    LinkedGivesChain(s, post);
    var cs := Candidates(s, post);
    R.NothingDoomed(cs, p, now);
    assert (set x | x in R.DoomedIds(cs, p, now)) == {};
    assert s.revisions - {} == s.revisions;
  }

  lemma {:induction false} PruneOfNothing(s: Store, post: Uuid, p: R.RetentionPolicy, now: Time)
    requires Linked(s) && List(s, post) == []
    ensures Candidates(s, post) == [] && PruneStep(s, post, p, now) == s
  {
    NothingToPrune(s, post, p, now);
  }

  /** A second prune changes nothing. */
  lemma {:induction false} PruneTwice(s: Store, post: Uuid, p: R.RetentionPolicy, now: Time)
    requires Linked(s)
    ensures var s' := PruneStep(s, post, p, now);
            PruneStep(s', post, p, now) == s'
  {
    PruneKeepsLinked(s, post, p, now);
    LinkedGivesChain(s, post);
    var s' := PruneStep(s, post, p, now);
    LinkedGivesChain(s', post);
    if post in s.byPost {
      CandidatesAfterPrune(s, post, p, now);
      R.PruneIdempotent(Candidates(s, post), p, now);
      NothingToPrune(s', post, p, now);
    }
  }
}
