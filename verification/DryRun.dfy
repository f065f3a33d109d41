/** What a dry run of the retention worker reports beside what a real run does (pruner.go). */
module DryRuns {
  import opened Common
  import opened Delta
  import opened Revisions
  import opened Chains
  import opened Pruning
  import opened MemoryStores
  import opened Pruners
  import opened Listings
  import opened Permutations
  import R = Retention
  import C = Classify

  /** The per-post policy of a Policy, as the store uses it. */
  function Per(policy: R.Policy): R.RetentionPolicy { policy.PerPost().Normalized() }

  // ---------- Listings that reverse the insertion order ----------

  lemma {:induction false} RowsDiffer(s: Store, post: Uuid)
    requires Linked(s)
    ensures forall i, j :: 0 <= i < j < |RowsIn(s, post)| ==> RowsIn(s, post)[i].id != RowsIn(s, post)[j].id
    ensures forall i :: 0 <= i < |RowsIn(s, post)| ==>
              Candidates(s, post)[i] == CandidateOf(RowsIn(s, post)[i]) && RowsIn(s, post)[i].id == List(s, post)[i]
  {
    LinkedGivesChain(s, post);
    assert NoRepeats(List(s, post));
    forall i | 0 <= i < |RowsIn(s, post)| ensures RowsIn(s, post)[i].id == List(s, post)[i] {
      assert RowOk(s, post, i);
    }
  }

  /** The listing is the insertion order reversed exactly when each row is later than those before it,
      or as late with a greater id. */
  lemma {:induction false} ListingReversesExactlyWhen(s: Store, post: Uuid)
    requires Linked(s)
    ensures SortNewest(RowsIn(s, post)) == Reversed(RowsIn(s, post)) <==> Ascending(Newer, RowsIn(s, post))
  {
    NewerOrders();
    RowsDiffer(s, post);
    if Ascending(Newer, RowsIn(s, post)) {
      SortOfAscending(Newer, RowsIn(s, post));
    } else if SortNewest(RowsIn(s, post)) == Reversed(RowsIn(s, post)) {
      ReversalMeansAscending(Newer, RowsIn(s, post));
    }
  }

  /** How many rows of the post the worker is not shown. */
  function Unseen(s: Store, post: Uuid): nat {
    if |List(s, post)| > 1000 then |List(s, post)| - 1000 else 0
  }

  lemma {:induction false} ShownIsNewest(s: Store, post: Uuid)
    requires Linked(s) && Ascending(Newer, RowsIn(s, post))
    ensures Unseen(s, post) <= |List(s, post)| && ShownCandidates(s, post) == Candidates(s, post)[Unseen(s, post)..]
    ensures R.TailOk(ShownCandidates(s, post))
  {
    ListingReversesExactlyWhen(s, post);
    ShownLength(s, post);
    ShownFlipped(s, post);
    ChainTail(s, post, Unseen(s, post));
  }

  /** Of a post listed in reverse of its insertion order a real run deletes, besides what a dry run reports,
      exactly the doomed rows the dry run is not shown. */
  lemma {:induction false} DryRunAgainstReal(s: Store, post: Uuid, policy: R.Policy, now: Time)
    requires Linked(s) && Ascending(Newer, RowsIn(s, post))
    ensures var cs := Candidates(s, post);
            && Deleted(s, post, policy, now)
               == |R.Dropped(cs, R.DoomedRows(cs, Per(policy), now), Unseen(s, post))| + Reported(s, post, policy, now)
            && (Reported(s, post, policy, now) == Deleted(s, post, policy, now) <==>
                  forall i :: 0 <= i < Unseen(s, post) ==> !R.Doomed(cs, i, Per(policy), now))
  {
    var cs, k := Candidates(s, post), Unseen(s, post);
    ShownIsNewest(s, post);
    C.ChosenIsDoomed(cs[k..], Per(policy), now);
    R.NewestDoomedIds(cs, k, Per(policy), now);
    DroppedNothing(cs, R.DoomedRows(cs, Per(policy), now), k);
  }

  lemma {:induction false} DroppedNothing(cs: seq<R.Candidate>, doomed: set<nat>, n: nat)
    requires n <= |cs|
    ensures |R.Dropped(cs, doomed, n)| == 0 <==> forall i :: 0 <= i < n ==> i !in doomed
  {
    if n > 0 { DroppedNothing(cs, doomed, n - 1); }
  }

  // ---------- Under every policy ----------

  /** A newer row of its group could outlive row i. */
  predicate Crowded(cs: seq<R.Candidate>, i: nat) {
    && i < |cs| && !cs[i].isPermanent && R.GroupOf(cs[i]) != R.Ungrouped
    && exists k :: i < k < |cs| && Joins(cs[k], R.GroupOf(cs[i]))
  }

  /** A row of the group that is not pinned. */
  predicate Joins(c: R.Candidate, g: R.Group) { !c.isPermanent && R.GroupOf(c) == g }

  /** Row i is crowded, and so is every row rebuilt through it. */
  ghost predicate Expendable(cs: seq<R.Candidate>, i: nat) {
    Crowded(cs, i) && forall j :: i < j < |cs| && R.DeltaRun(cs, i, j) ==> Crowded(cs, j)
  }

  lemma {:induction false} CountedNewer(cs: seq<R.Candidate>, g: R.Group, p: R.RetentionPolicy, now: Time)
    ensures |R.Members(cs, g, p, now)| > 0 <==> exists k :: 0 <= k < |cs| && R.Counted(cs[k], g, p, now)
  {
    if cs != [] { CountedNewer(cs[..|cs| - 1], g, p, now); }
  }

  /** Whatever the policy and the instant, a marked row is crowded. */
  lemma {:induction false} MarkedIsCrowded(cs: seq<R.Candidate>, i: nat, policy: R.Policy, now: Time)
    requires i < |cs| && R.Marked(cs, i, Per(policy), now)
    ensures Crowded(cs, i)
  {
    CountedNewer(cs[i + 1..], R.GroupOf(cs[i]), Per(policy), now);
    var k :| 0 <= k < |cs[i + 1..]| && R.Counted(cs[i + 1..][k], R.GroupOf(cs[i]), Per(policy), now);
    assert Joins(cs[i + 1 + k], R.GroupOf(cs[i]));
  }

  /** Keeping the last of each group and nothing for its age marks every crowded row. */
  lemma {:induction false} CrowdedIsMarked(cs: seq<R.Candidate>, i: nat, now: Time)
    requires Crowded(cs, i)
    ensures R.Marked(cs, i, Per(R.Policy(1, 0)), now)
  {
    var p := Per(R.Policy(1, 0));
    var k :| i < k < |cs| && Joins(cs[k], R.GroupOf(cs[i]));
    assert R.Counted(cs[i + 1..][k - i - 1], R.GroupOf(cs[i]), p, now);
    CountedNewer(cs[i + 1..], R.GroupOf(cs[i]), p, now);
  }

  /** Some policy at some instant deletes the row exactly when it is expendable. */
  lemma {:induction false} ExpendableExactlyWhen(cs: seq<R.Candidate>, i: nat)
    requires i < |cs|
    ensures (exists policy, now :: R.Doomed(cs, i, Per(policy), now)) <==> Expendable(cs, i)
    ensures Expendable(cs, i) ==> forall now :: R.Doomed(cs, i, Per(R.Policy(1, 0)), now)
  {
    if policy, now :| R.Doomed(cs, i, Per(policy), now) {
      MarkedIsCrowded(cs, i, policy, now);
      forall j | i < j < |cs| && R.DeltaRun(cs, i, j) ensures Crowded(cs, j) {
        assert R.Marked(cs, j, Per(policy), now);
        MarkedIsCrowded(cs, j, policy, now);
      }
    }
    if Expendable(cs, i) {
      forall now ensures R.Doomed(cs, i, Per(R.Policy(1, 0)), now) {
        CrowdedIsMarked(cs, i, now);
        forall j | i < j < |cs| && R.DeltaRun(cs, i, j) ensures R.Marked(cs, j, Per(R.Policy(1, 0)), now) {
          CrowdedIsMarked(cs, j, now);
        }
      }
      assert R.Doomed(cs, i, Per(R.Policy(1, 0)), 0);
    }
  }

  /** The dry run of such a post is right, under every policy at every instant, exactly when none of the
      rows it is not shown is expendable; so always up to 1000 rows. */
  lemma {:induction false} DryRunRightExactlyWhen(s: Store, post: Uuid)
    requires Linked(s) && Ascending(Newer, RowsIn(s, post))
    ensures (forall policy, now :: Reported(s, post, policy, now) == Deleted(s, post, policy, now)) <==>
            forall i :: 0 <= i < Unseen(s, post) ==> !Expendable(Candidates(s, post), i)
  {
    var cs := Candidates(s, post);
    if forall i :: 0 <= i < Unseen(s, post) ==> !Expendable(cs, i) {
      forall policy, now ensures Reported(s, post, policy, now) == Deleted(s, post, policy, now) {
        DryRunAgainstReal(s, post, policy, now);
        forall i | 0 <= i < Unseen(s, post) ensures !R.Doomed(cs, i, Per(policy), now) { ExpendableExactlyWhen(cs, i); }
      }
    }
    if i :| 0 <= i < Unseen(s, post) && Expendable(cs, i) {
      ExpendableExactlyWhen(cs, i);
      DryRunAgainstReal(s, post, R.Policy(1, 0), 0);
      assert R.Doomed(cs, i, Per(R.Policy(1, 0)), 0);
      assert Reported(s, post, R.Policy(1, 0), 0) != Deleted(s, post, R.Policy(1, 0), 0);
    }
  }
}
