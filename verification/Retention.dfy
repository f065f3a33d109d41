/** Retention: which revisions of a post a prune deletes (memory.go, postgres.go,
    pruner.go). */
module Retention {
  import opened Revisions

  datatype RetentionPolicy = RetentionPolicy(
    maxAutosavesPerAuthor: int, maxManual: int, maxPublish: int, maxAgeAutosave: int, minKeepAll: int)
  {
    function Normalized(): RetentionPolicy {
      RetentionPolicy(NonNegative(maxAutosavesPerAuthor), NonNegative(maxManual), NonNegative(maxPublish),
                      NonNegative(maxAgeAutosave), NonNegative(minKeepAll))
    }
  }

  function NonNegative(n: int): int { if n < 0 then 0 else n }

  const HOUR: int := 3600 * SECOND

  /** DefaultRetentionPolicy. */
  const DEFAULT_RETENTION := RetentionPolicy(5, 20, 0, 24 * HOUR, 7 * 24 * HOUR)

  /** What normalize is documented to return: zero-valued fields take their defaults. */
  function Filled(p: RetentionPolicy): RetentionPolicy {
    RetentionPolicy(OrDefault(p.maxAutosavesPerAuthor, DEFAULT_RETENTION.maxAutosavesPerAuthor),
                    OrDefault(p.maxManual, DEFAULT_RETENTION.maxManual),
                    OrDefault(p.maxPublish, DEFAULT_RETENTION.maxPublish),
                    OrDefault(p.maxAgeAutosave, DEFAULT_RETENTION.maxAgeAutosave),
                    OrDefault(p.minKeepAll, DEFAULT_RETENTION.minKeepAll))
  }

  function OrDefault(n: int, default: int): int { if n == 0 then default else NonNegative(n) }

  /** It does so exactly when no field with a default was left zero. */
  lemma {:induction false} NormalizeFillsExactlyWhen(p: RetentionPolicy)
    ensures p.Normalized() == Filled(p) <==>
            p.maxAutosavesPerAuthor != 0 && p.maxManual != 0 && p.maxAgeAutosave != 0 && p.minKeepAll != 0
    ensures RetentionPolicy(0, 0, 0, 0, 0).Normalized() != Filled(RetentionPolicy(0, 0, 0, 0, 0))
  {
  }

  /** The columns of a row that retention looks at. */
  datatype Candidate = Candidate(
    id: Uuid, authorID: Uuid, createdAt: Time, kind: Kind, isSnapshot: bool, deltaFrom: Uuid, isPermanent: bool)

  /** The lists the count caps are applied to. */
  datatype Group = AutosavesOf(author: Uuid) | Manuals | Publishes | Ungrouped

  function GroupOf(c: Candidate): Group {
    match c.kind
    case Autosave => AutosavesOf(c.authorID)
    case Manual => Manuals
    case Publish => Publishes
    case Unknown(_) => Ungrouped
  }

  function Cap(p: RetentionPolicy, g: Group): int {
    match g
    case AutosavesOf(_) => p.maxAutosavesPerAuthor
    case Manuals => p.maxManual
    case Publishes => p.maxPublish
    case Ungrouped => 0
  }

  /** Rows the count caps never see. */
  predicate Exempt(c: Candidate, p: RetentionPolicy, now: Time) {
    c.isPermanent || (p.minKeepAll > 0 && Sub(now, c.createdAt) < p.minKeepAll)
  }

  predicate Counted(c: Candidate, g: Group, p: RetentionPolicy, now: Time) {
    !Exempt(c, p, now) && GroupOf(c) == g
  }

  /** The counted ids of one group, oldest first. */
  function Members(cs: seq<Candidate>, g: Group, p: RetentionPolicy, now: Time): seq<Uuid> {
    if cs == [] then []
    else
      var last := cs[|cs| - 1];
      Members(cs[..|cs| - 1], g, p, now) + if Counted(last, g, p, now) then [last.id] else []
  }

  lemma {:induction false} MembersOfConcat(xs: seq<Candidate>, ys: seq<Candidate>, g: Group, p: RetentionPolicy, now: Time)
    ensures Members(xs + ys, g, p, now) == Members(xs, g, p, now) + Members(ys, g, p, now)
  {
    if ys == [] {
      assert xs + ys == xs;
    } else {
      assert (xs + ys)[..|xs + ys| - 1] == xs + ys[..|ys| - 1];
      MembersOfConcat(xs, ys[..|ys| - 1], g, p, now);
    }
  }

  // ---------- The specification, row by row ----------

  /** The row's group has a cap, and at least that many counted rows are newer. */
  predicate OverCap(cs: seq<Candidate>, i: nat, p: RetentionPolicy, now: Time)
    requires i < |cs|
  {
    var g := GroupOf(cs[i]);
    && Counted(cs[i], g, p, now)
    && Cap(p, g) > 0
    && |Members(cs[i + 1..], g, p, now)| >= Cap(p, g)
  }

  predicate TooOld(c: Candidate, p: RetentionPolicy, now: Time) {
    && p.maxAgeAutosave > 0 && c.kind == Autosave && !c.isPermanent
    && Sub(now, c.createdAt) >= p.maxAgeAutosave
  }

  predicate Marked(cs: seq<Candidate>, i: nat, p: RetentionPolicy, now: Time)
    requires i < |cs|
  {
    OverCap(cs, i, p, now) || TooOld(cs[i], p, now)
  }

  /** Rows i+1 to j are all deltas: row j is rebuilt through row i. */
  predicate DeltaRun(cs: seq<Candidate>, i: nat, j: nat)
    requires j < |cs|
  {
    forall k :: i < k <= j ==> !cs[k].isSnapshot
  }

  /** Some newer, unmarked row is rebuilt through row i. */
  predicate Needed(cs: seq<Candidate>, i: nat, p: RetentionPolicy, now: Time) {
    exists j :: i < j < |cs| && !Marked(cs, j, p, now) && DeltaRun(cs, i, j)
  }

  predicate Doomed(cs: seq<Candidate>, i: nat, p: RetentionPolicy, now: Time)
    requires i < |cs|
  {
    Marked(cs, i, p, now) && !Needed(cs, i, p, now)
  }

  /** The positions a prune deletes. */
  function DoomedRows(cs: seq<Candidate>, p: RetentionPolicy, now: Time): (doomed: set<nat>)
    ensures forall i: nat :: i in doomed <==> i < |cs| && Doomed(cs, i, p, now)
  {
    set i: nat | i < |cs| && Doomed(cs, i, p, now)
  }

  /** The rows lo to hi-1 without the doomed ones, in order. */
  function Kept(cs: seq<Candidate>, doomed: set<nat>, lo: nat, hi: nat): seq<Candidate>
    requires lo <= hi <= |cs|
    decreases hi
  {
    if lo == hi then []
    else Kept(cs, doomed, lo, hi - 1) + if hi - 1 in doomed then [] else [cs[hi - 1]]
  }

  function Survivors(cs: seq<Candidate>, p: RetentionPolicy, now: Time): seq<Candidate> {
    Kept(cs, DoomedRows(cs, p, now), 0, |cs|)
  }

  /** The doomed ids among the first n rows, oldest first. */
  function Dropped(cs: seq<Candidate>, doomed: set<nat>, n: nat): seq<Uuid>
    requires n <= |cs|
  {
    if n == 0 then []
    else Dropped(cs, doomed, n - 1) + if n - 1 in doomed then [cs[n - 1].id] else []
  }

  /** What a prune deletes, oldest first. */
  function DoomedIds(cs: seq<Candidate>, p: RetentionPolicy, now: Time): seq<Uuid> {
    Dropped(cs, DoomedRows(cs, p, now), |cs|)
  }

  /** A post's rows as Save and Prune keep them. */
  ghost predicate ChainOk(cs: seq<Candidate>) {
    && (forall i :: 0 <= i < |cs| ==> cs[i].id != NIL)
    && (forall i, j :: 0 <= i < j < |cs| ==> cs[i].id != cs[j].id)
    && (forall i :: 0 <= i < |cs| ==> LinkOk(cs, i))
  }

  ghost predicate LinkOk(cs: seq<Candidate>, i: nat)
    requires i < |cs|
  {
    if cs[i].isSnapshot then cs[i].deltaFrom == NIL else i > 0 && cs[i].deltaFrom == cs[i - 1].id
  }

  /** The newest rows of a chain, whose first row may have lost sight of its parent. */
  ghost predicate TailOk(cs: seq<Candidate>) {
    && (forall i :: 0 <= i < |cs| ==> cs[i].id != NIL)
    && (forall i, j :: 0 <= i < j < |cs| ==> cs[i].id != cs[j].id)
    && (forall i :: 0 <= i < |cs| ==> TailLinkOk(cs, i))
  }

  ghost predicate TailLinkOk(cs: seq<Candidate>, i: nat)
    requires i < |cs|
  {
    if cs[i].isSnapshot then cs[i].deltaFrom == NIL
    else if i > 0 then cs[i].deltaFrom == cs[i - 1].id
    else cs[i].deltaFrom != NIL && forall k :: 0 <= k < |cs| ==> cs[k].id != cs[i].deltaFrom
  }

  lemma {:induction false} SuffixIsTail(cs: seq<Candidate>, k: nat)
    requires ChainOk(cs) && k <= |cs|
    ensures TailOk(cs[k..])
  {
    forall i | 0 <= i < |cs| - k ensures TailLinkOk(cs[k..], i) {
      assert LinkOk(cs, k + i);
    }
  }

  /** Following DeltaFrom `hops` times from the row `from` gives the row `to`. */
  ghost predicate Reaches(cs: seq<Candidate>, from: Uuid, to: Uuid, hops: nat)
    decreases hops
  {
    if hops == 0 then from == to
    else
      exists i :: 0 <= i < |cs| && cs[i].id == from && !cs[i].isSnapshot && cs[i].deltaFrom != NIL
                  && Reaches(cs, cs[i].deltaFrom, to, hops - 1)
  }

  // ---------- What the specification means ----------

  lemma {:induction false} ReachesMeansRun(cs: seq<Candidate>, j: nat, i: nat, hops: nat)
    requires ChainOk(cs) && j < |cs| && i < |cs|
    ensures Reaches(cs, cs[j].id, cs[i].id, hops) <==> j == i + hops && DeltaRun(cs, i, j)
    decreases hops
  {
    assert LinkOk(cs, j);
    if hops > 0 {
      if !cs[j].isSnapshot {
        ReachesMeansRun(cs, j - 1, i, hops - 1);
      }
    }
  }

  /** A prune deletes exactly the marked rows that no unmarked row reaches through
      DeltaFrom. */
  lemma {:induction false} DeletesExactlyTheUnreached(cs: seq<Candidate>, i: nat, p: RetentionPolicy, now: Time)
    requires ChainOk(cs) && i < |cs|
    ensures Doomed(cs, i, p, now) <==>
            && Marked(cs, i, p, now)
            && !exists j: nat, hops: nat :: j < |cs| && !Marked(cs, j, p, now) && Reaches(cs, cs[j].id, cs[i].id, hops)
  {
    forall j: nat, hops: nat | j < |cs|
      ensures Reaches(cs, cs[j].id, cs[i].id, hops) <==> j == i + hops && DeltaRun(cs, i, j)
    {
      ReachesMeansRun(cs, j, i, hops);
    }
    if Needed(cs, i, p, now) {
      var j :| i < j < |cs| && !Marked(cs, j, p, now) && DeltaRun(cs, i, j);
      assert Reaches(cs, cs[j].id, cs[i].id, j - i);
    }
  }

  /** A survivor's parent survives. */
  lemma {:induction false} ParentSurvives(cs: seq<Candidate>, i: nat, p: RetentionPolicy, now: Time)
    requires 0 < i < |cs| && !cs[i].isSnapshot && !Doomed(cs, i, p, now)
    ensures !Doomed(cs, i - 1, p, now)
  {
    if !Marked(cs, i, p, now) {
      assert DeltaRun(cs, i - 1, i);
    } else {
      var j :| i < j < |cs| && !Marked(cs, j, p, now) && DeltaRun(cs, i, j);
      assert DeltaRun(cs, i - 1, j);
    }
  }

  /** Every permanent row survives. */
  lemma {:induction false} PermanentSurvives(cs: seq<Candidate>, i: nat, p: RetentionPolicy, now: Time)
    requires i < |cs| && cs[i].isPermanent
    ensures !Doomed(cs, i, p, now)
  {
  }

  // ---------- Recent rows ----------

  /** Younger than MinKeepAll. */
  predicate Recent(c: Candidate, p: RetentionPolicy, now: Time) {
    p.minKeepAll > 0 && Sub(now, c.createdAt) < p.minKeepAll
  }

  ghost predicate RecentGoes(cs: seq<Candidate>, i: nat, p: RetentionPolicy, now: Time) {
    i < |cs| && Recent(cs[i], p, now) && Doomed(cs, i, p, now)
  }

  /** MinKeepAll shields a row from the caps only: a recent row goes exactly when the age
      rule takes it and nothing needs it. */
  lemma {:induction false} RecentRowGoesExactlyWhen(cs: seq<Candidate>, i: nat, p: RetentionPolicy, now: Time)
    requires i < |cs| && Recent(cs[i], p, now)
    ensures Doomed(cs, i, p, now) <==> TooOld(cs[i], p, now) && !Needed(cs, i, p, now)
  {
  }

  /** A policy keeps every recent row, in every post at every instant, exactly when its age
      rule is off or looks no less far back than MinKeepAll. */
  lemma {:induction false} RecentRowsKeptExactlyWhen(p: RetentionPolicy)
    requires p == p.Normalized() && 0 < p.minKeepAll <= MAX_INT64
    ensures (forall cs, i: nat, now :: !RecentGoes(cs, i, p, now)) <==>
            p.maxAgeAutosave == 0 || p.minKeepAll <= p.maxAgeAutosave
  {
    if p.maxAgeAutosave == 0 || p.minKeepAll <= p.maxAgeAutosave {
      forall cs, i: nat, now ensures !RecentGoes(cs, i, p, now) {
        if i < |cs| && Recent(cs[i], p, now) { RecentRowGoesExactlyWhen(cs, i, p, now); }
      }
    } else {
      RecentAutosaveGoes(p);
    }
  }

  /** Otherwise a lone autosave that has just reached the age limit goes. */
  lemma {:induction false} RecentAutosaveGoes(p: RetentionPolicy)
    requires 0 < p.maxAgeAutosave < p.minKeepAll <= MAX_INT64
    ensures RecentGoes([Candidate(1, 0, 0, Autosave, true, NIL, false)], 0, p, p.maxAgeAutosave)
  {
    var cs := [Candidate(1, 0, 0, Autosave, true, NIL, false)];
    RecentRowGoesExactlyWhen(cs, 0, p, p.maxAgeAutosave);
  }

  /** The default policy is such a policy: a day-old autosave goes within the week. */
  lemma {:induction false} DefaultPolicyDropsRecentAutosaves()
    ensures exists cs, i: nat, now :: RecentGoes(cs, i, DEFAULT_RETENTION, now)
  {
    RecentAutosaveGoes(DEFAULT_RETENTION);
  }

  lemma {:induction false} KeptSplits(cs: seq<Candidate>, doomed: set<nat>, lo: nat, mid: nat, hi: nat)
    requires lo <= mid <= hi <= |cs|
    ensures Kept(cs, doomed, lo, hi) == Kept(cs, doomed, lo, mid) + Kept(cs, doomed, mid, hi)
    decreases hi
  {
    if mid < hi {
      KeptSplits(cs, doomed, lo, mid, hi - 1);
    }
  }

  /** Where the survivor at position q stood before. */
  lemma {:induction false} Origin(cs: seq<Candidate>, doomed: set<nat>, hi: nat, q: nat) returns (i: nat)
    requires hi <= |cs| && q < |Kept(cs, doomed, 0, hi)|
    ensures i < hi && i !in doomed && |Kept(cs, doomed, 0, i)| == q
    ensures Kept(cs, doomed, 0, hi) == Kept(cs, doomed, 0, i) + [cs[i]] + Kept(cs, doomed, i + 1, hi)
    decreases hi
  {
    if q == |Kept(cs, doomed, 0, hi - 1)| {
      i := hi - 1;
    } else {
      i := Origin(cs, doomed, hi - 1, q);
    }
  }

  /** What is left is again a chain: each delta's parent is still the row just
      before it. */
  lemma {:induction false} SurvivorsFormChain(cs: seq<Candidate>, p: RetentionPolicy, now: Time)
    requires ChainOk(cs)
    ensures ChainOk(Survivors(cs, p, now))
  {
    var ks := Survivors(cs, p, now);
    var d := DoomedRows(cs, p, now);
    forall q | 0 <= q < |ks| ensures ks[q].id != NIL && LinkOk(ks, q) {
      var i := Origin(cs, d, |cs|, q);
      assert LinkOk(cs, i);
      if !cs[i].isSnapshot {
        ParentSurvives(cs, i, p, now);
      }
    }
    forall q, r | 0 <= q < r < |ks| ensures ks[q].id != ks[r].id {
      var i := Origin(cs, d, |cs|, q);
      var j := Origin(cs, d, |cs|, r);
      if j <= i { KeptSplits(cs, d, 0, j, i); }
    }
  }

  // ---------- Classifying only the newest rows ----------

  /** Older rows have no say in whether a row is deleted. */
  lemma {:induction false} DoomedInSuffix(cs: seq<Candidate>, k: nat, i: nat, p: RetentionPolicy, now: Time)
    requires k <= i < |cs|
    ensures Doomed(cs[k..], i - k, p, now) <==> Doomed(cs, i, p, now)
  {
    var tail := cs[k..];
    forall j: nat | i <= j < |cs| ensures Marked(tail, j - k, p, now) <==> Marked(cs, j, p, now) {
      assert tail[j - k + 1..] == cs[j + 1..];
    }
    forall j: nat | i <= j < |cs| ensures DeltaRun(tail, i - k, j - k) <==> DeltaRun(cs, i, j) {
      if DeltaRun(tail, i - k, j - k) {
        forall m | i < m <= j ensures !cs[m].isSnapshot { assert cs[m] == tail[m - k]; }
      }
    }
    if Needed(cs, i, p, now) {
      var j :| i < j < |cs| && !Marked(cs, j, p, now) && DeltaRun(cs, i, j);
      assert DeltaRun(tail, i - k, j - k) && !Marked(tail, j - k, p, now);
    }
    if Needed(tail, i - k, p, now) {
      var m :| i - k < m < |tail| && !Marked(tail, m, p, now) && DeltaRun(tail, i - k, m);
      assert DeltaRun(cs, i, m + k) && !Marked(cs, m + k, p, now);
    }
  }

  /** Classifying only the newest rows finds exactly the deletions among them. */
  lemma {:induction false} NewestDoomedIds(cs: seq<Candidate>, k: nat, p: RetentionPolicy, now: Time)
    requires k <= |cs|
    ensures DoomedIds(cs, p, now) == Dropped(cs, DoomedRows(cs, p, now), k) + DoomedIds(cs[k..], p, now)
  {
    forall j: nat | j < |cs| - k ensures SameFate(cs, k, j, DoomedRows(cs, p, now), DoomedRows(cs[k..], p, now)) {
      SuffixFate(cs, k, j, p, now);
    }
    DroppedSplits(cs, DoomedRows(cs, p, now), DoomedRows(cs[k..], p, now), k, |cs| - k);
  }

  lemma {:induction false} SuffixFate(cs: seq<Candidate>, k: nat, j: nat, p: RetentionPolicy, now: Time)
    requires j < |cs| - k
    ensures SameFate(cs, k, j, DoomedRows(cs, p, now), DoomedRows(cs[k..], p, now))
  {
    DoomedInSuffix(cs, k, k + j, p, now);
    assert k + j - k == j;
  }

  ghost predicate SameFate(cs: seq<Candidate>, k: nat, j: nat, doomed: set<nat>, tail: set<nat>) {
    k + j in doomed <==> j in tail
  }

  lemma {:induction false} DroppedSplits(cs: seq<Candidate>, doomed: set<nat>, tail: set<nat>, k: nat, n: nat)
    requires k + n <= |cs| && forall j: nat :: j < |cs| - k ==> SameFate(cs, k, j, doomed, tail)
    ensures Dropped(cs, doomed, k + n) == Dropped(cs, doomed, k) + Dropped(cs[k..], tail, n)
  {
    if n > 0 {
      DroppedSplits(cs, doomed, tail, k, n - 1);
      assert SameFate(cs, k, n - 1, doomed, tail);
    }
  }

  // ---------- Idempotence ----------

  lemma {:induction false} FewerMembers(cs: seq<Candidate>, d: set<nat>, g: Group, p: RetentionPolicy, now: Time, lo: nat, hi: nat)
    requires lo <= hi <= |cs|
    ensures |Members(Kept(cs, d, lo, hi), g, p, now)| <= |Members(cs[lo..hi], g, p, now)|
    decreases hi
  {
    if lo < hi {
      FewerMembers(cs, d, g, p, now, lo, hi - 1);
      var before, last := Kept(cs, d, lo, hi - 1), [cs[hi - 1]];
      assert cs[lo..hi] == cs[lo..hi - 1] + last;
      MembersOfConcat(cs[lo..hi - 1], last, g, p, now);
      MembersOfConcat(before, last, g, p, now);
      assert before + [] == before;
    }
  }

  /** An unmarked row stays unmarked: its group can only have shrunk. */
  lemma {:induction false} StaysUnmarked(cs: seq<Candidate>, i: nat, p: RetentionPolicy, now: Time)
    requires i < |cs| && !Marked(cs, i, p, now)
    ensures var ks := Survivors(cs, p, now);
            var q := |Kept(cs, DoomedRows(cs, p, now), 0, i)|;
            q < |ks| && ks[q] == cs[i] && !Marked(ks, q, p, now)
  {
    var ks := Survivors(cs, p, now);
    var d := DoomedRows(cs, p, now);
    var q := |Kept(cs, d, 0, i)|;
    assert i !in d;
    KeptSplits(cs, d, 0, i + 1, |cs|);
    assert ks[q + 1..] == Kept(cs, d, i + 1, |cs|);
    FewerMembers(cs, d, GroupOf(cs[i]), p, now, i + 1, |cs|);
    assert cs[i + 1..|cs|] == cs[i + 1..];
  }

  /** The rows between a needed row and the row that needs it all survive. */
  lemma {:induction false} RunSurvives(cs: seq<Candidate>, p: RetentionPolicy, now: Time, i: nat, j: nat, m: nat)
    requires i <= m <= j < |cs| && !Marked(cs, j, p, now) && DeltaRun(cs, i, j)
    ensures Kept(cs, DoomedRows(cs, p, now), i, m) == cs[i..m]
    decreases m
  {
    if i < m {
      RunSurvives(cs, p, now, i, j, m - 1);
      assert DeltaRun(cs, m - 1, j);
      assert !Doomed(cs, m - 1, p, now);
    }
  }

  /** A row rebuilt into an unmarked row is still so among the survivors. */
  lemma {:induction false} StaysNeeded(cs: seq<Candidate>, i: nat, p: RetentionPolicy, now: Time)
    requires i < |cs| && Needed(cs, i, p, now)
    ensures var q := |Kept(cs, DoomedRows(cs, p, now), 0, i)|;
            q < |Survivors(cs, p, now)| ==> Needed(Survivors(cs, p, now), q, p, now)
  {
    var ks, d := Survivors(cs, p, now), DoomedRows(cs, p, now);
    var q := |Kept(cs, d, 0, i)|;
    var j :| i < j < |cs| && !Marked(cs, j, p, now) && DeltaRun(cs, i, j);
    var r := |Kept(cs, d, 0, j)|;
    StaysUnmarked(cs, j, p, now);
    RunSurvives(cs, p, now, i, j, j);
    KeptSplits(cs, d, 0, i, j);
    KeptSplits(cs, d, 0, j, |cs|);
    assert r == q + (j - i) && ks[q..r] == cs[i..j];
    forall k | q < k <= r ensures !ks[k].isSnapshot {
      if k < r { assert ks[k] == ks[q..r][k - q] == cs[i..j][k - q]; }
    }
    assert DeltaRun(ks, q, r);
  }

  /** A second prune with the same policy and clock deletes nothing.  No
      assumption on CreatedAt is needed. */
  lemma {:induction false} PruneIdempotent(cs: seq<Candidate>, p: RetentionPolicy, now: Time)
    ensures var ks := Survivors(cs, p, now);
            && (forall q :: 0 <= q < |ks| ==> !Doomed(ks, q, p, now))
            && Survivors(ks, p, now) == ks && DoomedIds(ks, p, now) == []
  {
    var ks := Survivors(cs, p, now);
    forall q | 0 <= q < |ks| ensures !Doomed(ks, q, p, now) {
      var i := Origin(cs, DoomedRows(cs, p, now), |cs|, q);
      if !Marked(cs, i, p, now) {
        StaysUnmarked(cs, i, p, now);
      } else {
        StaysNeeded(cs, i, p, now);
      }
    }
    NothingDoomed(ks, p, now);
  }

  lemma {:induction false} NothingDoomed(cs: seq<Candidate>, p: RetentionPolicy, now: Time)
    requires forall q :: 0 <= q < |cs| ==> !Doomed(cs, q, p, now)
    ensures Survivors(cs, p, now) == cs && DoomedIds(cs, p, now) == []
  {
    assert DoomedRows(cs, p, now) == {};
    NothingDropped(cs, |cs|);
    assert cs[..|cs|] == cs;
  }

  lemma {:induction false} NothingDropped(cs: seq<Candidate>, n: nat)
    requires n <= |cs|
    ensures Kept(cs, {}, 0, n) == cs[..n] && Dropped(cs, {}, n) == []
  {
    if n > 0 {
      NothingDropped(cs, n - 1);
    }
  }

  // ---------- The cross-entity policy (pruner.go) ----------

  datatype Policy = Policy(keepLast: int, keepWithin: int)
  {
    function Normalized(): Policy { Policy(NonNegative(keepLast), NonNegative(keepWithin)) }

    /** The per-post policy prunePost hands to the store. */
    function PerPost(): RetentionPolicy {
      var n := if keepLast > 0 then keepLast else 0;
      RetentionPolicy(n, n, n, 0, keepWithin)
    }
  }

  lemma {:induction false} MembersShorter(cs: seq<Candidate>, g: Group, p: RetentionPolicy, now: Time)
    ensures |Members(cs, g, p, now)| <= |cs|
  {
    if cs != [] {
      MembersShorter(cs[..|cs| - 1], g, p, now);
    }
  }

  /** Whatever a Policy deletes is not permanent, is at least KeepWithin old, and
      has at least KeepLast newer revisions. */
  lemma {:induction false} PolicyIsSafe(cs: seq<Candidate>, i: nat, policy: Policy, now: Time)
    requires i < |cs| && Doomed(cs, i, policy.Normalized().PerPost().Normalized(), now)
    ensures !cs[i].isPermanent
    ensures policy.keepWithin > 0 ==> Sub(now, cs[i].createdAt) >= policy.keepWithin
    ensures 0 < policy.keepLast <= |cs| - 1 - i
  {
    MembersShorter(cs[i + 1..], GroupOf(cs[i]), policy.Normalized().PerPost().Normalized(), now);
  }
}
