/** The classifier of the Postgres store and the dry run, as the loops that
    compute it (postgres.go, pruner.go). */
module Classify {
  import opened Revisions
  import opened Retention

  /** What the count caps drop from one group: all but its newest `keep` rows. */
  function Oldest(ids: seq<Uuid>, keep: int): seq<Uuid> {
    if keep < 0 || |ids| <= keep then if keep < 0 then ids else [] else ids[..|ids| - keep]
  }

  ghost predicate InGroupOverCap(cs: seq<Candidate>, g: Group, p: RetentionPolicy, now: Time, i: nat)
    requires i < |cs|
  {
    GroupOf(cs[i]) == g && OverCap(cs, i, p, now)
  }

  lemma {:induction false} MemberAt(cs: seq<Candidate>, g: Group, p: RetentionPolicy, now: Time, q: nat) returns (i: nat)
    requires q < |Members(cs, g, p, now)|
    ensures i < |cs| && Counted(cs[i], g, p, now) && |Members(cs[..i], g, p, now)| == q
    ensures cs[i].id == Members(cs, g, p, now)[q]
  {
    var front := cs[..|cs| - 1];
    if q == |Members(front, g, p, now)| {
      i := |cs| - 1;
    } else {
      i := MemberAt(front, g, p, now, q);
      assert front[..i] == cs[..i];
    }
  }

  lemma {:induction false} MembersAround(cs: seq<Candidate>, g: Group, p: RetentionPolicy, now: Time, i: nat)
    requires i < |cs| && Counted(cs[i], g, p, now)
    ensures Members(cs, g, p, now) == Members(cs[..i], g, p, now) + [cs[i].id] + Members(cs[i + 1..], g, p, now)
  {
    assert cs == cs[..i] + ([cs[i]] + cs[i + 1..]);
    MembersOfConcat(cs[..i], [cs[i]] + cs[i + 1..], g, p, now);
    MembersOfConcat([cs[i]], cs[i + 1..], g, p, now);
  }

  /** Dropping the oldest of a group drops exactly its rows that are over the cap. */
  lemma {:induction false} OldestAreOverCap(cs: seq<Candidate>, g: Group, p: RetentionPolicy, now: Time, x: Uuid)
    requires Cap(p, g) > 0
    ensures x in Oldest(Members(cs, g, p, now), Cap(p, g)) <==>
            exists i :: 0 <= i < |cs| && cs[i].id == x && InGroupOverCap(cs, g, p, now, i)
  {
    var ms := Members(cs, g, p, now);
    var dropped := Oldest(ms, Cap(p, g));
    if x in dropped {
      var q :| 0 <= q < |dropped| && dropped[q] == x;
      var i := MemberAt(cs, g, p, now, q);
      MembersAround(cs, g, p, now, i);
      assert InGroupOverCap(cs, g, p, now, i);
    }
    if i :| 0 <= i < |cs| && cs[i].id == x && InGroupOverCap(cs, g, p, now, i) {
      MembersAround(cs, g, p, now, i);
      var q := |Members(cs[..i], g, p, now)|;
      assert dropped[q] == x;
    }
  }

  method MarkOldestForDrop(ids: seq<Uuid>, keep: int, marks: set<Uuid>) returns (out: set<Uuid>)
    requires keep > 0
    ensures out == marks + set x | x in Oldest(ids, keep)
  {
    out := marks;
    if |ids| <= keep {
      return;
    }
    var drop := |ids| - keep;
    for i := 0 to drop
      invariant out == marks + set x | x in ids[..i]
    {
      assert ids[..i + 1] == ids[..i] + [ids[i]];
      out := out + {ids[i]};
    }
  }

  /** The autosaves of each author, and nothing else, oldest first. */
  ghost predicate GroupsAutosaves(m: map<Uuid, seq<Uuid>>, cs: seq<Candidate>, p: RetentionPolicy, now: Time) {
    forall a :: Members(cs, AutosavesOf(a), p, now) == if a in m then m[a] else []
  }

  function Added(m: map<Uuid, seq<Uuid>>, author: Uuid, id: Uuid): map<Uuid, seq<Uuid>> {
    m[author := (if author in m then m[author] else []) + [id]]
  }

  /** The groups after one more row. */
  lemma {:induction false} GroupsNext(m: map<Uuid, seq<Uuid>>, cs: seq<Candidate>, p: RetentionPolicy, now: Time, i: nat)
    requires i < |cs| && GroupsAutosaves(m, cs[..i], p, now)
    ensures forall g :: Members(cs[..i + 1], g, p, now)
                        == Members(cs[..i], g, p, now) + if Counted(cs[i], g, p, now) then [cs[i].id] else []
    ensures GroupsAutosaves(if !Exempt(cs[i], p, now) && cs[i].kind.Autosave? then Added(m, cs[i].authorID, cs[i].id) else m,
                            cs[..i + 1], p, now)
  {
    assert cs[..i + 1][..i] == cs[..i];
  }

  method GroupCandidates(cs: seq<Candidate>, p: RetentionPolicy, now: Time)
    returns (autosaves: map<Uuid, seq<Uuid>>, manuals: seq<Uuid>, publishes: seq<Uuid>)
    ensures GroupsAutosaves(autosaves, cs, p, now)
    ensures manuals == Members(cs, Manuals, p, now)
    ensures publishes == Members(cs, Publishes, p, now)
  {
    autosaves, manuals, publishes := map[], [], [];
    for i := 0 to |cs|
      invariant GroupsAutosaves(autosaves, cs[..i], p, now)
      invariant manuals == Members(cs[..i], Manuals, p, now)
      invariant publishes == Members(cs[..i], Publishes, p, now)
    {
      var c := cs[i];
      GroupsNext(autosaves, cs, p, now, i);
      if c.isPermanent || (p.minKeepAll > 0 && Sub(now, c.createdAt) < p.minKeepAll) {
        continue;
      }
      match c.kind
      case Autosave =>
        autosaves := Added(autosaves, c.authorID, c.id);
      case Manual => manuals := manuals + [c.id];
      case Publish => publishes := publishes + [c.id];
      case Unknown(_) =>
    }
    assert cs[..|cs|] == cs;
  }

  ghost predicate OverCapId(cs: seq<Candidate>, p: RetentionPolicy, now: Time, x: Uuid, g: Group) {
    exists i :: 0 <= i < |cs| && cs[i].id == x && InGroupOverCap(cs, g, p, now, i)
  }

  /** The ids the caps and the age rule mark. */
  ghost predicate MarkedId(cs: seq<Candidate>, p: RetentionPolicy, now: Time, x: Uuid) {
    exists i :: 0 <= i < |cs| && cs[i].id == x && Marked(cs, i, p, now)
  }

  ghost predicate CappedId(cs: seq<Candidate>, p: RetentionPolicy, now: Time, x: Uuid) {
    exists i :: 0 <= i < |cs| && cs[i].id == x && OverCap(cs, i, p, now)
  }

  method DropOldAutosaves(ghost cs: seq<Candidate>, p: RetentionPolicy, ghost now: Time, autosaves: map<Uuid, seq<Uuid>>)
    returns (marks: set<Uuid>)
    requires GroupsAutosaves(autosaves, cs, p, now) && p.maxAutosavesPerAuthor > 0
    ensures forall x :: x in marks <==> exists a :: OverCapId(cs, p, now, x, AutosavesOf(a))
  {
    forall a, x
      ensures OverCapId(cs, p, now, x, AutosavesOf(a)) <==> a in autosaves && x in Oldest(autosaves[a], p.maxAutosavesPerAuthor)
    {
      OldestAreOverCap(cs, AutosavesOf(a), p, now, x);
      assert Members(cs, AutosavesOf(a), p, now) == if a in autosaves then autosaves[a] else [];
    }
    marks := {};
    var todo := autosaves.Keys;
    while todo != {}
      invariant todo <= autosaves.Keys
      invariant forall x :: x in marks <==>
                  exists a :: a in autosaves && a !in todo && x in Oldest(autosaves[a], p.maxAutosavesPerAuthor)
    {
      var a :| a in todo;
      marks := MarkOldestForDrop(autosaves[a], p.maxAutosavesPerAuthor, marks);
      todo := todo - {a};
    }
  }

  method DropOverCaps(ghost cs: seq<Candidate>, p: RetentionPolicy, ghost now: Time,
                      autosaves: map<Uuid, seq<Uuid>>, manuals: seq<Uuid>, publishes: seq<Uuid>)
    returns (marks: set<Uuid>)
    requires GroupsAutosaves(autosaves, cs, p, now)
    requires manuals == Members(cs, Manuals, p, now) && publishes == Members(cs, Publishes, p, now)
    ensures forall x :: x in marks <==> CappedId(cs, p, now, x)
  {
    marks := {};
    if p.maxAutosavesPerAuthor > 0 {
      marks := DropOldAutosaves(cs, p, now, autosaves);
    }
    assert forall x :: x in marks <==> exists a :: OverCapId(cs, p, now, x, AutosavesOf(a));
    ghost var first := marks;
    if p.maxManual > 0 {
      marks := MarkOldestForDrop(manuals, p.maxManual, marks);
      forall x ensures OverCapId(cs, p, now, x, Manuals) <==> x in Oldest(manuals, Cap(p, Manuals)) {
        OldestAreOverCap(cs, Manuals, p, now, x);
      }
    }
    assert forall x :: x in marks <==> x in first || OverCapId(cs, p, now, x, Manuals);
    ghost var second := marks;
    if p.maxPublish > 0 {
      marks := MarkOldestForDrop(publishes, p.maxPublish, marks);
      forall x ensures OverCapId(cs, p, now, x, Publishes) <==> x in Oldest(publishes, Cap(p, Publishes)) {
        OldestAreOverCap(cs, Publishes, p, now, x);
      }
    }
    assert forall x :: x in marks <==> x in second || OverCapId(cs, p, now, x, Publishes);
    forall x ensures x in marks <==> CappedId(cs, p, now, x) {
      CappedInSomeGroup(cs, p, now, x);
    }
  }

  lemma {:induction false} CappedInSomeGroup(cs: seq<Candidate>, p: RetentionPolicy, now: Time, x: Uuid)
    ensures CappedId(cs, p, now, x) <==>
            || (exists a :: OverCapId(cs, p, now, x, AutosavesOf(a)))
            || OverCapId(cs, p, now, x, Manuals) || OverCapId(cs, p, now, x, Publishes)
  {
    if CappedId(cs, p, now, x) {
      var i :| 0 <= i < |cs| && cs[i].id == x && OverCap(cs, i, p, now);
      assert InGroupOverCap(cs, GroupOf(cs[i]), p, now, i);
      assert OverCapId(cs, p, now, x, GroupOf(cs[i]));
    }
  }

  ghost predicate TooOldBefore(cs: seq<Candidate>, p: RetentionPolicy, now: Time, x: Uuid, n: nat)
    requires n <= |cs|
  {
    exists k :: 0 <= k < n && cs[k].id == x && TooOld(cs[k], p, now)
  }

  lemma {:induction false} TooOldNext(cs: seq<Candidate>, p: RetentionPolicy, now: Time, n: nat)
    requires n < |cs|
    ensures forall x :: TooOldBefore(cs, p, now, x, n + 1) <==>
              TooOldBefore(cs, p, now, x, n) || (cs[n].id == x && TooOld(cs[n], p, now))
  {
    forall x | TooOldBefore(cs, p, now, x, n + 1)
      ensures TooOldBefore(cs, p, now, x, n) || (cs[n].id == x && TooOld(cs[n], p, now))
    {
      var k :| 0 <= k < n + 1 && cs[k].id == x && TooOld(cs[k], p, now);
    }
    forall x | TooOldBefore(cs, p, now, x, n) ensures TooOldBefore(cs, p, now, x, n + 1) {
      var k :| 0 <= k < n && cs[k].id == x && TooOld(cs[k], p, now);
      assert k < n + 1;
    }
  }

  lemma {:induction false} MarkedIsCappedOrOld(cs: seq<Candidate>, p: RetentionPolicy, now: Time)
    ensures forall x :: MarkedId(cs, p, now, x) <==> CappedId(cs, p, now, x) || TooOldBefore(cs, p, now, x, |cs|)
  {
    forall x ensures MarkedId(cs, p, now, x) <==> CappedId(cs, p, now, x) || TooOldBefore(cs, p, now, x, |cs|) {
      if i :| 0 <= i < |cs| && cs[i].id == x && OverCap(cs, i, p, now) { assert Marked(cs, i, p, now); }
      if i :| 0 <= i < |cs| && cs[i].id == x && TooOld(cs[i], p, now) { assert Marked(cs, i, p, now); }
    }
  }

  method MarkTooOld(cs: seq<Candidate>, p: RetentionPolicy, now: Time, capped: set<Uuid>) returns (marks: set<Uuid>)
    requires forall x :: x in capped <==> CappedId(cs, p, now, x)
    ensures forall x :: x in marks <==> MarkedId(cs, p, now, x)
  {
    marks := capped;
    if p.maxAgeAutosave > 0 {
      for i := 0 to |cs|
        invariant forall x :: x in marks <==> x in capped || TooOldBefore(cs, p, now, x, i)
      {
        var c := cs[i];
        TooOldNext(cs, p, now, i);
        if !c.kind.Autosave? || c.isPermanent {
          continue;
        }
        if Sub(now, c.createdAt) >= p.maxAgeAutosave {
          marks := marks + {c.id};
        }
      }
    }
    MarkedIsCappedOrOld(cs, p, now);
  }

  // ---------- The reachability sweep ----------

  /** The candidates by id; the last of any that share one. */
  function Indexed(cs: seq<Candidate>): map<Uuid, Candidate> {
    if cs == [] then map[] else Indexed(cs[..|cs| - 1])[cs[|cs| - 1].id := cs[|cs| - 1]]
  }

  ghost predicate DistinctIDs(cs: seq<Candidate>) {
    forall i, j :: 0 <= i < j < |cs| ==> cs[i].id != cs[j].id
  }

  lemma {:induction false} IndexedMeaning(cs: seq<Candidate>)
    requires DistinctIDs(cs)
    ensures forall k :: 0 <= k < |cs| ==> cs[k].id in Indexed(cs) && Indexed(cs)[cs[k].id] == cs[k]
    ensures forall x :: x in Indexed(cs) ==> exists k :: 0 <= k < |cs| && cs[k].id == x && Indexed(cs)[x] == cs[k]
  {
    if cs != [] {
      IndexedMeaning(cs[..|cs| - 1]);
    }
  }

  method IndexByID(cs: seq<Candidate>) returns (byID: map<Uuid, Candidate>)
    ensures byID == Indexed(cs)
  {
    byID := map[];
    for i := 0 to |cs|
      invariant byID == Indexed(cs[..i])
    {
      assert cs[..i + 1][..i] == cs[..i];
      byID := byID[cs[i].id := cs[i]];
    }
    assert cs[..|cs|] == cs;
  }

  /** The row a delta is a patch against. */
  predicate HasParent(c: Candidate) { !c.isSnapshot && c.deltaFrom != NIL }

  /** Following parents always comes to an end. */
  ghost predicate Ranked(byID: map<Uuid, Candidate>, rank: map<Uuid, nat>) {
    forall x :: x in byID ==> RankedAt(byID, rank, x)
  }

  ghost predicate RankedAt(byID: map<Uuid, Candidate>, rank: map<Uuid, nat>, x: Uuid)
    requires x in byID
  {
    && x in rank
    && (HasParent(byID[x]) && byID[x].deltaFrom in byID ==>
          byID[x].deltaFrom in rank && rank[byID[x].deltaFrom] < rank[x])
  }

  /** The rows x is rebuilt through. */
  ghost function Above(byID: map<Uuid, Candidate>, rank: map<Uuid, nat>, x: Uuid): set<Uuid>
    requires Ranked(byID, rank) && x in byID
    decreases if x in rank then rank[x] else 0
  {
    assert RankedAt(byID, rank, x);
    if !HasParent(byID[x]) then {}
    else
      var y := byID[x].deltaFrom;
      if y !in byID then {y}
      else
        assert RankedAt(byID, rank, y);
        {y} + Above(byID, rank, y)
  }

  /** What lies above a row above x lies above x. */
  lemma {:induction false} AboveCloses(byID: map<Uuid, Candidate>, rank: map<Uuid, nat>, x: Uuid, y: Uuid)
    requires Ranked(byID, rank) && x in byID && y in byID && y in Above(byID, rank, x)
    ensures Above(byID, rank, y) <= Above(byID, rank, x)
    decreases if x in rank then rank[x] else 0
  {
    assert RankedAt(byID, rank, x);
    var parent := byID[x].deltaFrom;
    if y != parent { AboveCloses(byID, rank, parent, y); }
  }

  /** The rows that row i is rebuilt through. */
  ghost function AboveRow(cs: seq<Candidate>, rank: map<Uuid, nat>, i: nat): set<Uuid>
    requires DistinctIDs(cs) && Ranked(Indexed(cs), rank) && i < |cs|
  {
    IndexedMeaning(cs);
    Above(Indexed(cs), rank, cs[i].id)
  }

  /** The rows that some unmarked row among the first n is rebuilt through. */
  ghost function Reached(cs: seq<Candidate>, rank: map<Uuid, nat>, marks: set<Uuid>, n: nat): set<Uuid>
    requires DistinctIDs(cs) && Ranked(Indexed(cs), rank) && n <= |cs|
  {
    if n == 0 then {}
    else Reached(cs, rank, marks, n - 1) + if cs[n - 1].id in marks then {} else AboveRow(cs, rank, n - 1)
  }

  ghost predicate ReachedFrom(cs: seq<Candidate>, rank: map<Uuid, nat>, marks: set<Uuid>, j: nat, x: Uuid)
    requires DistinctIDs(cs) && Ranked(Indexed(cs), rank) && j < |cs|
  {
    cs[j].id !in marks && x in AboveRow(cs, rank, j)
  }

  lemma {:induction false} ReachedMeaning(cs: seq<Candidate>, rank: map<Uuid, nat>, marks: set<Uuid>, n: nat, x: Uuid)
    requires DistinctIDs(cs) && Ranked(Indexed(cs), rank) && n <= |cs|
    ensures x in Reached(cs, rank, marks, n) <==> exists j :: 0 <= j < n && ReachedFrom(cs, rank, marks, j, x)
  {
    if n > 0 {
      ReachedMeaning(cs, rank, marks, n - 1, x);
      assert x in Reached(cs, rank, marks, n) <==>
        x in Reached(cs, rank, marks, n - 1) || ReachedFrom(cs, rank, marks, n - 1, x);
    }
  }

  /** What lies above a reached row is reached. */
  lemma {:induction false} ReachedCloses(cs: seq<Candidate>, rank: map<Uuid, nat>, marks: set<Uuid>, n: nat, i: nat)
    requires DistinctIDs(cs) && Ranked(Indexed(cs), rank) && n <= |cs| && i < |cs|
    requires cs[i].id in Reached(cs, rank, marks, n)
    ensures AboveRow(cs, rank, i) <= Reached(cs, rank, marks, n)
  {
    IndexedMeaning(cs);
    ReachedMeaning(cs, rank, marks, n, cs[i].id);
    var j :| 0 <= j < n && ReachedFrom(cs, rank, marks, j, cs[i].id);
    AboveCloses(Indexed(cs), rank, cs[j].id, cs[i].id);
    forall x | x in AboveRow(cs, rank, i) ensures x in Reached(cs, rank, marks, n) {
      assert ReachedFrom(cs, rank, marks, j, x);
      ReachedMeaning(cs, rank, marks, n, x);
    }
  }

  /** The sweep's marks after its first n rows. */
  lemma {:induction false} SweepStep(cs: seq<Candidate>, rank: map<Uuid, nat>, marks: set<Uuid>, out: set<Uuid>, n: nat)
    requires DistinctIDs(cs) && Ranked(Indexed(cs), rank) && n < |cs|
    requires out == marks - Reached(cs, rank, marks, n)
    ensures (if cs[n].id in out then out else out - AboveRow(cs, rank, n))
            == marks - Reached(cs, rank, marks, n + 1)
  {
    if cs[n].id in marks && cs[n].id !in out {
      ReachedCloses(cs, rank, marks, n, n);
    }
  }

  method RescueAncestors(cs: seq<Candidate>, ghost rank: map<Uuid, nat>, marks: set<Uuid>) returns (out: set<Uuid>)
    requires DistinctIDs(cs) && Ranked(Indexed(cs), rank)
    ensures out == marks - Reached(cs, rank, marks, |cs|)
  {
    var byID := IndexByID(cs);
    IndexedMeaning(cs);
    out := marks;
    for i := 0 to |cs|
      invariant out == marks - Reached(cs, rank, marks, i)
    {
      SweepStep(cs, rank, marks, out, i);
      if cs[i].id in out {
        continue;
      }
      out := WalkUp(byID, rank, out, cs[i].id);
    }
  }

  /** Unmarks every row that x is rebuilt through. */
  method WalkUp(byID: map<Uuid, Candidate>, ghost rank: map<Uuid, nat>, before: set<Uuid>, x: Uuid) returns (out: set<Uuid>)
    requires Ranked(byID, rank) && x in byID
    ensures out == before - Above(byID, rank, x)
  {
    out := before;
    var cur := byID[x];
    ghost var at := x;
    while !cur.isSnapshot && cur.deltaFrom != NIL
      invariant at in byID && cur == byID[at] && at in rank
      invariant out - Above(byID, rank, at) == before - Above(byID, rank, x)
      decreases rank[at]
    {
      assert RankedAt(byID, rank, at);
      out := out - {cur.deltaFrom};
      if cur.deltaFrom !in byID {
        break;
      }
      at := cur.deltaFrom;
      cur := byID[cur.deltaFrom];
    }
  }

  // ---------- What is selected ----------

  /** Some unmarked row reaches row i through DeltaFrom. */
  ghost predicate Spared(cs: seq<Candidate>, i: nat, p: RetentionPolicy, now: Time)
    requires i < |cs|
  {
    exists j: nat, hops: nat :: j < |cs| && !Marked(cs, j, p, now) && hops > 0 && Reaches(cs, cs[j].id, cs[i].id, hops)
  }

  /** The marked rows no unmarked row reaches, in whatever order the candidates come. */
  ghost function ChosenRows(cs: seq<Candidate>, p: RetentionPolicy, now: Time): set<nat> {
    set i: nat | i < |cs| && Marked(cs, i, p, now) && !Spared(cs, i, p, now)
  }

  ghost function ChosenIds(cs: seq<Candidate>, p: RetentionPolicy, now: Time): seq<Uuid> {
    Dropped(cs, ChosenRows(cs, p, now), |cs|)
  }

  /** Being above a row is being reached from it. */
  lemma {:induction false} AboveReaches(cs: seq<Candidate>, rank: map<Uuid, nat>, x: Uuid, y: Uuid)
    requires DistinctIDs(cs) && Ranked(Indexed(cs), rank) && x in Indexed(cs)
    ensures y in Above(Indexed(cs), rank, x) <==> exists hops: nat :: hops > 0 && Reaches(cs, x, y, hops)
    decreases if x in rank then rank[x] else 0
  {
    IndexedMeaning(cs);
    var byID := Indexed(cs);
    assert RankedAt(byID, rank, x);
    var i :| 0 <= i < |cs| && cs[i].id == x && byID[x] == cs[i];
    if HasParent(cs[i]) {
      var parent := cs[i].deltaFrom;
      forall hops: nat | hops > 0 ensures Reaches(cs, x, y, hops) <==> Reaches(cs, parent, y, hops - 1) {}
      if parent in byID {
        AboveReaches(cs, rank, parent, y);
        ReachesEitherWay(cs, x, parent, y);
      } else {
        assert forall hops: nat :: Reaches(cs, parent, y, hops) ==> hops == 0;
        assert Reaches(cs, parent, y, 0) <==> y == parent;
        ReachesEitherWay(cs, x, parent, y);
      }
    }
  }

  lemma {:induction false} ReachesEitherWay(cs: seq<Candidate>, x: Uuid, parent: Uuid, y: Uuid)
    requires forall hops: nat :: hops > 0 ==> (Reaches(cs, x, y, hops) <==> Reaches(cs, parent, y, hops - 1))
    ensures (exists hops: nat :: hops > 0 && Reaches(cs, x, y, hops)) <==>
            y == parent || exists hops: nat :: hops > 0 && Reaches(cs, parent, y, hops)
  {
    if hops: nat :| hops > 0 && Reaches(cs, x, y, hops) {
      var fewer: nat := hops - 1;
      assert Reaches(cs, parent, y, fewer);
      if fewer == 0 { assert y == parent; }
    }
    if hops: nat :| hops > 0 && Reaches(cs, parent, y, hops) {
      var more: nat := hops + 1;
      assert Reaches(cs, x, y, more) <==> Reaches(cs, parent, y, more - 1);
    }
    if y == parent {
      var once: nat := 1;
      assert Reaches(cs, parent, y, 0);
      assert Reaches(cs, x, y, once) <==> Reaches(cs, parent, y, once - 1);
    }
  }

  /** After the sweep exactly the chosen rows are marked. */
  lemma {:induction false} SweptIsChosen(cs: seq<Candidate>, rank: map<Uuid, nat>, p: RetentionPolicy, now: Time,
                                         marks: set<Uuid>, out: set<Uuid>, i: nat)
    requires DistinctIDs(cs) && Ranked(Indexed(cs), rank) && i < |cs|
    requires forall x :: x in marks <==> MarkedId(cs, p, now, x)
    requires out == marks - Reached(cs, rank, marks, |cs|)
    ensures cs[i].id in out <==> i in ChosenRows(cs, p, now)
  {
    forall k | 0 <= k < |cs| ensures cs[k].id in marks <==> Marked(cs, k, p, now) { MarkedAtOwnId(cs, p, now, k); }
    IndexedMeaning(cs);
    ReachedMeaning(cs, rank, marks, |cs|, cs[i].id);
    forall j | 0 <= j < |cs|
      ensures ReachedFrom(cs, rank, marks, j, cs[i].id) <==>
              !Marked(cs, j, p, now) && exists hops: nat :: hops > 0 && Reaches(cs, cs[j].id, cs[i].id, hops)
    {
      AboveReaches(cs, rank, cs[j].id, cs[i].id);
    }
  }

  lemma {:induction false} MarkedAtOwnId(cs: seq<Candidate>, p: RetentionPolicy, now: Time, k: nat)
    requires DistinctIDs(cs) && k < |cs|
    ensures MarkedId(cs, p, now, cs[k].id) <==> Marked(cs, k, p, now)
  {
  }

  /** Selects the chosen rows of any candidates with distinct ids whose parent pointers have no cycle,
      oldest first. */
  method ClassifyForPrune(cs: seq<Candidate>, ghost rank: map<Uuid, nat>, p: RetentionPolicy, now: Time) returns (out: seq<Uuid>)
    requires DistinctIDs(cs) && Ranked(Indexed(cs), rank)
    ensures out == ChosenIds(cs, p, now)
  {
    var autosaves, manuals, publishes := GroupCandidates(cs, p, now);
    var capped := DropOverCaps(cs, p, now, autosaves, manuals, publishes);
    var marks := MarkTooOld(cs, p, now, capped);
    var drop := RescueAncestors(cs, rank, marks);
    forall i | 0 <= i < |cs| ensures cs[i].id in drop <==> i in ChosenRows(cs, p, now) {
      SweptIsChosen(cs, rank, p, now, marks, drop, i);
    }
    out := InOrder(cs, drop, ChosenRows(cs, p, now));
  }

  /** The marked ids, oldest first. */
  method InOrder(cs: seq<Candidate>, drop: set<Uuid>, ghost chosen: set<nat>) returns (out: seq<Uuid>)
    requires forall i :: 0 <= i < |cs| ==> (cs[i].id in drop <==> i in chosen)
    ensures out == Dropped(cs, chosen, |cs|)
  {
    out := [];
    for i := 0 to |cs|
      invariant out == Dropped(cs, chosen, i)
    {
      if cs[i].id in drop {
        out := out + [cs[i].id];
      }
    }
  }

  // ---------- On a chain, or the newest part of one ----------

  /** Positions rank the rows of a chain. */
  ghost function Positions(cs: seq<Candidate>): (rank: map<Uuid, nat>)
    requires DistinctIDs(cs)
    ensures forall i :: 0 <= i < |cs| ==> cs[i].id in rank && rank[cs[i].id] == i
  {
    if cs == [] then map[] else Positions(cs[..|cs| - 1])[cs[|cs| - 1].id := |cs| - 1]
  }

  lemma {:induction false} TailIsRanked(cs: seq<Candidate>)
    requires TailOk(cs)
    ensures DistinctIDs(cs) && Ranked(Indexed(cs), Positions(cs))
  {
    IndexedMeaning(cs);
    forall x | x in Indexed(cs) ensures RankedAt(Indexed(cs), Positions(cs), x) {
      var i :| 0 <= i < |cs| && cs[i].id == x && Indexed(cs)[x] == cs[i];
      assert TailLinkOk(cs, i);
    }
  }

  lemma {:induction false} TailReaches(cs: seq<Candidate>, j: nat, i: nat, hops: nat)
    requires TailOk(cs) && j < |cs| && i < |cs|
    ensures Reaches(cs, cs[j].id, cs[i].id, hops) <==> j == i + hops && DeltaRun(cs, i, j)
    decreases hops
  {
    assert TailLinkOk(cs, j);
    if hops > 0 && !cs[j].isSnapshot && j > 0 {
      TailReaches(cs, j - 1, i, hops - 1);
    }
  }

  /** There the chosen rows are the doomed ones. */
  lemma {:induction false} ChosenIsDoomed(cs: seq<Candidate>, p: RetentionPolicy, now: Time)
    requires TailOk(cs)
    ensures ChosenRows(cs, p, now) == DoomedRows(cs, p, now) && ChosenIds(cs, p, now) == DoomedIds(cs, p, now)
  {
    forall i: nat | i < |cs| ensures Spared(cs, i, p, now) <==> Needed(cs, i, p, now) {
      forall j: nat, hops: nat | j < |cs|
        ensures Reaches(cs, cs[j].id, cs[i].id, hops) <==> j == i + hops && DeltaRun(cs, i, j)
      {
        TailReaches(cs, j, i, hops);
      }
      if Needed(cs, i, p, now) {
        var j :| i < j < |cs| && !Marked(cs, j, p, now) && DeltaRun(cs, i, j);
        assert Reaches(cs, cs[j].id, cs[i].id, j - i);
      }
    }
    assert ChosenRows(cs, p, now) == DoomedRows(cs, p, now);
  }
}
