/** Dry runs over posts whose listing is not their insertion order reversed (pruner.go, memory.go). */
module DryOrders {
  import opened Revisions
  import opened Chains
  import opened Pruning
  import opened MemoryStores
  import opened Pruners
  import opened DryRuns
  import opened Listings
  import opened Permutations
  import R = Retention
  import C = Classify

  /** created_at ascending, id ascending. */
  predicate Later(c: R.Candidate, d: R.Candidate) {
    c.createdAt > d.createdAt || (c.createdAt == d.createdAt && c.id > d.id)
  }

  lemma {:induction false} LaterOrders()
    ensures Orders(Later)
  {
  }

  /** Two candidate lists with the same distinct rows. */
  ghost predicate SameRows(cs: seq<R.Candidate>, ds: seq<R.Candidate>) {
    C.DistinctIDs(cs) && C.DistinctIDs(ds) && |cs| == |ds| && forall c :: c in cs <==> c in ds
  }

  /** Rows of one group that are not pinned come oldest first. */
  ghost predicate GroupsInOrder(cs: seq<R.Candidate>) {
    forall a, b :: 0 <= a < b < |cs| && SharesCap(cs[a], cs[b]) ==> Later(cs[b], cs[a])
  }

  predicate SharesCap(c: R.Candidate, d: R.Candidate) {
    R.GroupOf(c) != R.Ungrouped && Joins(c, R.GroupOf(c)) && Joins(d, R.GroupOf(c))
  }

  // ---------- Members ----------

  function Countable(g: R.Group, p: R.RetentionPolicy, now: Time): R.Candidate -> bool {
    (c: R.Candidate) => R.Counted(c, g, p, now)
  }

  lemma {:induction false} MembersAreFiltered(cs: seq<R.Candidate>, g: R.Group, p: R.RetentionPolicy, now: Time)
    ensures R.Members(cs, g, p, now) == IDs(Filter(Countable(g, p, now), cs))
  {
    if cs != [] {
      var front, c := cs[..|cs| - 1], cs[|cs| - 1];
      assert cs == front + [c];
      MembersAreFiltered(front, g, p, now);
      FilterAppend(Countable(g, p, now), front, c);
      var kept := Filter(Countable(g, p, now), front);
      assert IDs(kept + [c]) == IDs(kept) + [c.id];
    }
  }

  /** Two lists of the same rows, both with their groups in order, have the same members. */
  lemma {:induction false} SameMembers(cs: seq<R.Candidate>, ds: seq<R.Candidate>, g: R.Group, p: R.RetentionPolicy, now: Time)
    requires SameRows(cs, ds) && GroupsInOrder(cs) && GroupsInOrder(ds) && g != R.Ungrouped
    ensures R.Members(cs, g, p, now) == R.Members(ds, g, p, now)
  {
    var keep := Countable(g, p, now);
    LaterOrders();
    MembersAreFiltered(cs, g, p, now);
    MembersAreFiltered(ds, g, p, now);
    CountedAscending(cs, g, p, now);
    CountedAscending(ds, g, p, now);
    forall c ensures c in Filter(keep, cs) <==> c in Filter(keep, ds) {
      FilterMeaning(keep, cs, c);
      FilterMeaning(keep, ds, c);
    }
    AscendingUnique(Later, Filter(keep, cs), Filter(keep, ds));
  }

  lemma {:induction false} CountedAscending(cs: seq<R.Candidate>, g: R.Group, p: R.RetentionPolicy, now: Time)
    requires GroupsInOrder(cs) && g != R.Ungrouped
    ensures Ascending(Later, Filter(Countable(g, p, now), cs))
  {
    var keep := Countable(g, p, now);
    forall i, j | 0 <= i < j < |cs| && keep(cs[i]) && keep(cs[j]) ensures Later(cs[j], cs[i]) {
      assert SharesCap(cs[i], cs[j]);
    }
    FilterAscending(Later, keep, cs);
  }

  // ---------- Marks ----------

  /** Under a Policy a row is marked exactly when its id is not among the newest of its group. */
  lemma {:induction false} MarkedByMembers(cs: seq<R.Candidate>, i: nat, policy: R.Policy, now: Time)
    requires C.DistinctIDs(cs) && i < |cs|
    ensures R.Marked(cs, i, Per(policy), now) <==>
            && policy.keepLast > 0 && R.GroupOf(cs[i]) != R.Ungrouped
            && cs[i].id in C.Oldest(R.Members(cs, R.GroupOf(cs[i]), Per(policy), now), policy.keepLast)
  {
    if policy.keepLast > 0 && R.GroupOf(cs[i]) != R.Ungrouped {
      C.OldestAreOverCap(cs, R.GroupOf(cs[i]), Per(policy), now, cs[i].id);
    }
  }

  /** The same row in another list. */
  lemma {:induction false} PlaceOf(cs: seq<R.Candidate>, ds: seq<R.Candidate>, i: nat) returns (j: nat)
    requires SameRows(cs, ds) && i < |cs|
    ensures j < |ds| && ds[j] == cs[i]
  {
    assert cs[i] in ds;
    j :| 0 <= j < |ds| && ds[j] == cs[i];
  }

  ghost predicate SameMark(cs: seq<R.Candidate>, ds: seq<R.Candidate>, policy: R.Policy, now: Time, x: Uuid) {
    C.MarkedId(cs, Per(policy), now, x) <==> C.MarkedId(ds, Per(policy), now, x)
  }

  lemma {:induction false} InOrderMarksAlike(cs: seq<R.Candidate>, ds: seq<R.Candidate>, policy: R.Policy, now: Time, x: Uuid)
    requires SameRows(cs, ds) && GroupsInOrder(cs) && GroupsInOrder(ds) && C.MarkedId(cs, Per(policy), now, x)
    ensures C.MarkedId(ds, Per(policy), now, x)
  {
    var i :| 0 <= i < |cs| && cs[i].id == x && R.Marked(cs, i, Per(policy), now);
    var j := PlaceOf(cs, ds, i);
    MarkedByMembers(cs, i, policy, now);
    MarkedByMembers(ds, j, policy, now);
    SameMembers(cs, ds, R.GroupOf(cs[i]), Per(policy), now);
  }

  /** Two different arrangements of distinct ids differ in their newest K, for some K. */
  lemma {:induction false} NewestDiffer(m: seq<Uuid>, l: seq<Uuid>) returns (keep: nat, x: Uuid)
    requires m != l && |m| == |l| && forall x :: x in m <==> x in l
    requires NoRepeats(m) && NoRepeats(l)
    ensures 1 <= keep <= |m| && x in m && x !in m[..|m| - keep] && x in l[..|l| - keep]
  {
    var n := |m| - 1;
    assert m == m[..n] + [m[n]] && l == l[..n] + [l[n]];
    if m[n] != l[n] {
      keep, x := 1, m[n];
      assert x in l;
    } else {
      forall x ensures x in m[..n] <==> x in l[..n] {
        assert x in m[..n] <==> x in m && x != m[n];
        assert x in l[..n] <==> x in l && x != l[n];
      }
      var k, y := NewestDiffer(m[..n], l[..n]);
      keep, x := k + 1, y;
      assert m[..n][..n - k] == m[..n - k] && l[..n][..n - k] == l[..n - k];
    }
  }

  /** If some group is out of order in one list and in order in the other, some policy tells them apart. */
  lemma {:induction false} OutOfOrderShows(cs: seq<R.Candidate>, ds: seq<R.Candidate>, a: nat, b: nat)
    returns (policy: R.Policy, x: Uuid)
    requires SameRows(cs, ds) && GroupsInOrder(ds)
    requires a < b < |cs| && SharesCap(cs[a], cs[b]) && !Later(cs[b], cs[a])
    ensures !SameMark(cs, ds, policy, 0, x)
  {
    var g := R.GroupOf(cs[a]);
    var p := Per(R.Policy(1, 0));
    var m, l := R.Members(cs, g, p, 0), R.Members(ds, g, p, 0);
    MembersOnce(cs, g, p, 0);
    MembersOnce(ds, g, p, 0);
    SameMemberSet(cs, ds, g, p, 0);
    MembersKeepOrder(cs, ds, a, b);
    var keep, y := NewestDiffer(m, l);
    policy, x := R.Policy(keep, 0), y;
    MembersIgnoreCap(cs, g, keep);
    MembersIgnoreCap(ds, g, keep);
    var i := MemberPlace(cs, g, p, 0, x);
    var j := PlaceOf(cs, ds, i);
    MarkedByMembers(cs, i, policy, 0);
    MarkedByMembers(ds, j, policy, 0);
    C.MarkedAtOwnId(cs, Per(policy), 0, i);
    C.MarkedAtOwnId(ds, Per(policy), 0, j);
  }

  /** Who is counted does not depend on how many are kept. */
  lemma {:induction false} MembersIgnoreCap(cs: seq<R.Candidate>, g: R.Group, keep: nat)
    requires keep > 0
    ensures R.Members(cs, g, Per(R.Policy(keep, 0)), 0) == R.Members(cs, g, Per(R.Policy(1, 0)), 0)
  {
    if cs != [] { MembersIgnoreCap(cs[..|cs| - 1], g, keep); }
  }

  lemma {:induction false} MemberPlace(cs: seq<R.Candidate>, g: R.Group, p: R.RetentionPolicy, now: Time, x: Uuid) returns (i: nat)
    requires x in R.Members(cs, g, p, now)
    ensures i < |cs| && cs[i].id == x && R.Counted(cs[i], g, p, now)
  {
    var q :| 0 <= q < |R.Members(cs, g, p, now)| && R.Members(cs, g, p, now)[q] == x;
    i := C.MemberAt(cs, g, p, now, q);
  }

  lemma {:induction false} MembersMeaning(cs: seq<R.Candidate>, g: R.Group, p: R.RetentionPolicy, now: Time, x: Uuid)
    ensures x in R.Members(cs, g, p, now) <==> exists i :: 0 <= i < |cs| && cs[i].id == x && R.Counted(cs[i], g, p, now)
  {
    if cs != [] { MembersMeaning(cs[..|cs| - 1], g, p, now, x); }
  }

  lemma {:induction false} MembersOnce(cs: seq<R.Candidate>, g: R.Group, p: R.RetentionPolicy, now: Time)
    requires C.DistinctIDs(cs)
    ensures NoRepeats(R.Members(cs, g, p, now))
  {
    if cs != [] {
      var front := cs[..|cs| - 1];
      MembersOnce(front, g, p, now);
      MembersMeaning(front, g, p, now, cs[|cs| - 1].id);
    }
  }

  lemma {:induction false} SameMemberSet(cs: seq<R.Candidate>, ds: seq<R.Candidate>, g: R.Group, p: R.RetentionPolicy, now: Time)
    requires SameRows(cs, ds)
    ensures forall x :: x in R.Members(cs, g, p, now) <==> x in R.Members(ds, g, p, now)
    ensures |R.Members(cs, g, p, now)| == |R.Members(ds, g, p, now)|
  {
    var m, l := R.Members(cs, g, p, now), R.Members(ds, g, p, now);
    forall x ensures x in m <==> x in l {
      MembersMeaning(cs, g, p, now, x);
      MembersMeaning(ds, g, p, now, x);
      if i :| 0 <= i < |cs| && cs[i].id == x && R.Counted(cs[i], g, p, now) { var j := PlaceOf(cs, ds, i); }
      if i :| 0 <= i < |ds| && ds[i].id == x && R.Counted(ds[i], g, p, now) { assert ds[i] in cs; }
    }
    MembersOnce(cs, g, p, now);
    MembersOnce(ds, g, p, now);
    SameLength(m, l);
  }

  lemma {:induction false} SameLength(m: seq<Uuid>, l: seq<Uuid>)
    requires forall x :: x in m <==> x in l
    requires NoRepeats(m) && NoRepeats(l)
    ensures |m| == |l|
  {
    DistinctSize(m);
    DistinctSize(l);
    var ms, ls := set k | 0 <= k < |m| :: m[k], set k | 0 <= k < |l| :: l[k];
    assert forall x :: x in ms <==> x in m;
    assert forall x :: x in ls <==> x in l;
    assert ms == ls;
  }

  /** The member lists differ: one has a before b, the other, being in order, has not. */
  lemma {:induction false} MembersKeepOrder(cs: seq<R.Candidate>, ds: seq<R.Candidate>, a: nat, b: nat)
    requires SameRows(cs, ds) && GroupsInOrder(ds)
    requires a < b < |cs| && SharesCap(cs[a], cs[b]) && !Later(cs[b], cs[a])
    ensures R.Members(cs, R.GroupOf(cs[a]), Per(R.Policy(1, 0)), 0) != R.Members(ds, R.GroupOf(cs[a]), Per(R.Policy(1, 0)), 0)
  {
    var g, p := R.GroupOf(cs[a]), Per(R.Policy(1, 0));
    var i := PlaceOf(cs, ds, a);
    var j := PlaceOf(cs, ds, b);
    assert cs[a].id != cs[b].id;
    assert SharesCap(ds[j], ds[i]) && SharesCap(ds[i], ds[j]);
    C.MembersAround(cs, g, p, 0, a);
    C.MembersAround(cs, g, p, 0, b);
    C.MembersAround(ds, g, p, 0, i);
    C.MembersAround(ds, g, p, 0, j);
    MembersOnce(cs, g, p, 0);
    MembersMeaning(cs[..b], g, p, 0, cs[a].id);
    assert cs[..b][a] == cs[a];
    MembersMeaning(ds[..j], g, p, 0, cs[a].id);
    assert j < i;
    forall k | 0 <= k < j ensures ds[..j][k].id != cs[a].id { assert k < i; }
    if R.Members(cs, g, p, 0) == R.Members(ds, g, p, 0) {
      SamePlace(R.Members(cs[..b], g, p, 0), R.Members(cs[b + 1..], g, p, 0),
                R.Members(ds[..j], g, p, 0), R.Members(ds[j + 1..], g, p, 0), cs[b].id);
    }
  }

  lemma {:induction false} SamePlace(a: seq<Uuid>, b: seq<Uuid>, c: seq<Uuid>, d: seq<Uuid>, x: Uuid)
    requires a + [x] + b == c + [x] + d
    requires NoRepeats(a + [x] + b)
    ensures a == c
  {
    var m := a + [x] + b;
    assert m[|a|] == x && (c + [x] + d)[|c|] == x;
    assert |a| == |c|;
    assert a == m[..|a|] && c == m[..|c|];
  }

  /** The lists mark the same ids, under every policy at every instant, exactly when the one is in order
      group by group, the other being so. */
  lemma {:induction false} MarksAgreeExactlyWhen(cs: seq<R.Candidate>, ds: seq<R.Candidate>)
    requires SameRows(cs, ds) && GroupsInOrder(ds)
    ensures (forall policy, now, x :: SameMark(cs, ds, policy, now, x)) <==> GroupsInOrder(cs)
  {
    if GroupsInOrder(cs) {
      forall policy, now, x ensures SameMark(cs, ds, policy, now, x) {
        if C.MarkedId(cs, Per(policy), now, x) { InOrderMarksAlike(cs, ds, policy, now, x); }
        if C.MarkedId(ds, Per(policy), now, x) { InOrderMarksAlike(ds, cs, policy, now, x); }
      }
    } else {
      var a, b :| 0 <= a < b < |cs| && SharesCap(cs[a], cs[b]) && !Later(cs[b], cs[a]);
      var policy, x := OutOfOrderShows(cs, ds, a, b);
    }
  }

  // ---------- Selections ----------

  lemma {:induction false} ReachesInEither(cs: seq<R.Candidate>, ds: seq<R.Candidate>, x: Uuid, y: Uuid, hops: nat)
    requires (forall c :: c in cs ==> c in ds) && R.Reaches(cs, x, y, hops)
    ensures R.Reaches(ds, x, y, hops)
    decreases hops
  {
    if hops > 0 {
      var i :| 0 <= i < |cs| && cs[i].id == x && !cs[i].isSnapshot && cs[i].deltaFrom != NIL
               && R.Reaches(cs, cs[i].deltaFrom, y, hops - 1);
      assert cs[i] in ds;
      ReachesInEither(cs, ds, cs[i].deltaFrom, y, hops - 1);
    }
  }

  /** Row i of one list is chosen when row j of the other, the same row, is. */
  lemma {:induction false} ChosenAlike(cs: seq<R.Candidate>, ds: seq<R.Candidate>, policy: R.Policy, now: Time, i: nat, j: nat)
    requires SameRows(cs, ds) && GroupsInOrder(cs) && GroupsInOrder(ds)
    requires i < |cs| && j < |ds| && cs[i] == ds[j] && i in C.ChosenRows(cs, Per(policy), now)
    ensures j in C.ChosenRows(ds, Per(policy), now)
  {
    var p := Per(policy);
    MarksAgreeExactlyWhen(cs, ds);
    assert SameMark(cs, ds, policy, now, cs[i].id);
    C.MarkedAtOwnId(cs, p, now, i);
    C.MarkedAtOwnId(ds, p, now, j);
    if C.Spared(ds, j, p, now) {
      var k: nat, hops: nat :| k < |ds| && !R.Marked(ds, k, p, now) && hops > 0 && R.Reaches(ds, ds[k].id, ds[j].id, hops);
      var h := PlaceOf(ds, cs, k);
      assert SameMark(cs, ds, policy, now, cs[h].id);
      C.MarkedAtOwnId(cs, p, now, h);
      C.MarkedAtOwnId(ds, p, now, k);
      ReachesInEither(ds, cs, ds[k].id, ds[j].id, hops);
      assert C.Spared(cs, i, p, now);
    }
  }

  /** The ids of some positions. */
  ghost function IdsAt(cs: seq<R.Candidate>, rows: set<nat>): set<Uuid> {
    set i | i in rows && i < |cs| :: cs[i].id
  }

  lemma {:induction false} NextIds(cs: seq<R.Candidate>, rows: set<nat>, n: nat)
    requires C.DistinctIDs(cs) && n < |cs|
    ensures IdsAt(cs[..n + 1], rows) == IdsAt(cs[..n], rows) + if n in rows then {cs[n].id} else {}
    ensures cs[n].id !in IdsAt(cs[..n], rows)
  {
  }

  lemma {:induction false} DroppedCount(cs: seq<R.Candidate>, rows: set<nat>, n: nat)
    requires C.DistinctIDs(cs) && n <= |cs|
    ensures |R.Dropped(cs, rows, n)| == |IdsAt(cs[..n], rows)|
  {
    if n == 0 {
      assert IdsAt(cs[..0], rows) == {};
    } else {
      DroppedCount(cs, rows, n - 1);
      NextIds(cs, rows, n - 1);
    }
  }

  lemma {:induction false} SameCount(cs: seq<R.Candidate>, ds: seq<R.Candidate>, policy: R.Policy, now: Time)
    requires SameRows(cs, ds) && GroupsInOrder(cs) && GroupsInOrder(ds)
    ensures IdsAt(cs, C.ChosenRows(cs, Per(policy), now)) == IdsAt(ds, C.ChosenRows(ds, Per(policy), now))
    ensures |C.ChosenIds(cs, Per(policy), now)| == |C.ChosenIds(ds, Per(policy), now)|
  {
    ChosenWithin(cs, ds, policy, now);
    ChosenWithin(ds, cs, policy, now);
    DroppedCount(cs, C.ChosenRows(cs, Per(policy), now), |cs|);
    DroppedCount(ds, C.ChosenRows(ds, Per(policy), now), |ds|);
    assert cs[..|cs|] == cs && ds[..|ds|] == ds;
  }

  lemma {:induction false} ChosenWithin(cs: seq<R.Candidate>, ds: seq<R.Candidate>, policy: R.Policy, now: Time)
    requires SameRows(cs, ds) && GroupsInOrder(cs) && GroupsInOrder(ds)
    ensures IdsAt(cs, C.ChosenRows(cs, Per(policy), now)) <= IdsAt(ds, C.ChosenRows(ds, Per(policy), now))
  {
    forall x | x in IdsAt(cs, C.ChosenRows(cs, Per(policy), now)) ensures x in IdsAt(ds, C.ChosenRows(ds, Per(policy), now)) {
      var i :| i in C.ChosenRows(cs, Per(policy), now) && i < |cs| && cs[i].id == x;
      var j := PlaceOf(cs, ds, i);
      ChosenAlike(cs, ds, policy, now, i, j);
    }
  }

  // ---------- The two stores ----------

  /** By time the rows are the same, and every group is in order. */
  lemma {:induction false} ByTimeAreTheRows(s: Store, post: Uuid)
    requires Linked(s)
    ensures SameRows(Candidates(s, post), ByTime(s, post)) && GroupsInOrder(ByTime(s, post))
  {
    var cs, ds, sorted := Candidates(s, post), ByTime(s, post), SortNewest(RowsIn(s, post));
    LinkedGivesChain(s, post);
    SortKeepsLength(RowsIn(s, post));
    RowsDiffer(s, post);
    var from := NewestPositions(s, post, |sorted|);
    assert sorted[..|sorted|] == sorted;
    CoversAll(from, |cs|);
    forall c ensures c in cs <==> c in ds {
      if c in cs {
        var i :| 0 <= i < |cs| && cs[i] == c;
        var k := PositionOf(from, i);
        assert ds[k] == c;
      }
    }
    forall a, b | 0 <= a < b < |ds| ensures Later(ds[b], ds[a]) {
      assert Listings.Before(Newer, RowsIn(s, post), from[b], from[a]);
      assert from[a] != from[b];
    }
  }

  /** The in-memory store takes the rows in insertion order, the Postgres store by time. They mark the same rows of
      a post, under every policy at every instant, exactly when the rows of each group that are not pinned
      were inserted in listing order. */
  lemma {:induction false} StoresMarkAlikeExactlyWhen(s: Store, post: Uuid)
    requires Linked(s)
    ensures (forall policy, now, x :: SameMark(Candidates(s, post), ByTime(s, post), policy, now, x)) <==>
            GroupsInOrder(Candidates(s, post))
  {
    ByTimeAreTheRows(s, post);
    MarksAgreeExactlyWhen(Candidates(s, post), ByTime(s, post));
  }

  /** And then they delete the same rows. */
  lemma {:induction false} StoresDeleteAlike(s: Store, post: Uuid, policy: R.Policy, now: Time)
    requires Linked(s) && GroupsInOrder(Candidates(s, post))
    ensures var cs, ds, p := Candidates(s, post), ByTime(s, post), Per(policy);
            && IdsAt(cs, R.DoomedRows(cs, p, now)) == IdsAt(ds, C.ChosenRows(ds, p, now))
            && |C.ChosenIds(ds, p, now)| == Deleted(s, post, policy, now)
  {
    ByTimeAreTheRows(s, post);
    SameCount(Candidates(s, post), ByTime(s, post), policy, now);
    ChainTail(s, post, 0);
    assert Candidates(s, post)[0..] == Candidates(s, post);
    C.ChosenIsDoomed(Candidates(s, post), Per(policy), now);
  }

  // ---------- Dry runs of posts of at most 1000 rows ----------

  /** The worker is shown all rows of such a post, as the Postgres store reads them. */
  lemma {:induction false} ShownAreTheRows(s: Store, post: Uuid)
    requires Linked(s) && |List(s, post)| <= PRUNER_LIST_LIMIT
    ensures ShownCandidates(s, post) == ByTime(s, post)
    ensures SameRows(Candidates(s, post), ShownCandidates(s, post)) && GroupsInOrder(ShownCandidates(s, post))
  {
    ShownLength(s, post);
    ByTimeAreTheRows(s, post);
  }

  /** Of a post of at most 1000 rows a dry run marks what a real run marks, under every policy at every
      instant, exactly when the rows of each group that are not pinned were inserted in listing order. */
  lemma {:induction false} DryRunMarksAlikeExactlyWhen(s: Store, post: Uuid)
    requires Linked(s) && |List(s, post)| <= PRUNER_LIST_LIMIT
    ensures (forall policy, now, x :: SameMark(Candidates(s, post), ShownCandidates(s, post), policy, now, x)) <==>
            GroupsInOrder(Candidates(s, post))
  {
    ShownAreTheRows(s, post);
    MarksAgreeExactlyWhen(Candidates(s, post), ShownCandidates(s, post));
  }

  /** And then it reports what a real run deletes. */
  lemma {:induction false} DryRunOfOrderedGroups(s: Store, post: Uuid, policy: R.Policy, now: Time)
    requires Linked(s) && |List(s, post)| <= PRUNER_LIST_LIMIT && GroupsInOrder(Candidates(s, post))
    ensures Reported(s, post, policy, now) == Deleted(s, post, policy, now)
  {
    ShownAreTheRows(s, post);
    StoresDeleteAlike(s, post, policy, now);
  }
}
