/** Which rows each field of a retention policy takes, by kind (revision.go, memory.go, postgres.go). */
module KindRules {
  import opened Revisions
  import opened Chains
  import opened Pruning
  import opened Retention
  import C = Classify

  /** Not pinned, and not within MinKeepAll. */
  predicate InPlay(c: Candidate, p: RetentionPolicy, now: Time) {
    !c.isPermanent && (p.minKeepAll <= 0 || Sub(now, c.createdAt) >= p.minKeepAll)
  }

  function NewerManuals(cs: seq<Candidate>, i: nat, p: RetentionPolicy, now: Time): set<nat> {
    set j: nat | i < j < |cs| && cs[j].kind == Manual && InPlay(cs[j], p, now)
  }

  function NewerPublishes(cs: seq<Candidate>, i: nat, p: RetentionPolicy, now: Time): set<nat> {
    set j: nat | i < j < |cs| && cs[j].kind == Publish && InPlay(cs[j], p, now)
  }

  function NewerAutosaves(cs: seq<Candidate>, i: nat, p: RetentionPolicy, now: Time): set<nat>
    requires i < |cs|
  {
    set j: nat | i < j < |cs| && cs[j].kind == Autosave && cs[j].authorID == cs[i].authorID && InPlay(cs[j], p, now)
  }

  /** What the policy lets go of: a manual row with MaxManual newer ones, a publish row with MaxPublish, an autosave with
      MaxAutosavesPerAuthor newer ones of its author, each cap off at zero; and an autosave of age MaxAgeAutosave. */
  predicate Surplus(cs: seq<Candidate>, i: nat, p: RetentionPolicy, now: Time)
    requires i < |cs|
  {
    match cs[i].kind
    case Manual => InPlay(cs[i], p, now) && p.maxManual > 0 && |NewerManuals(cs, i, p, now)| >= p.maxManual
    case Publish => InPlay(cs[i], p, now) && p.maxPublish > 0 && |NewerPublishes(cs, i, p, now)| >= p.maxPublish
    case Autosave =>
      || (InPlay(cs[i], p, now) && p.maxAutosavesPerAuthor > 0
          && |NewerAutosaves(cs, i, p, now)| >= p.maxAutosavesPerAuthor)
      || (!cs[i].isPermanent && p.maxAgeAutosave > 0 && Sub(now, cs[i].createdAt) >= p.maxAgeAutosave)
    case Unknown(_) => false
  }

  function CountedFrom(cs: seq<Candidate>, lo: nat, g: Group, p: RetentionPolicy, now: Time): set<nat> {
    set j: nat | lo <= j < |cs| && Counted(cs[j], g, p, now)
  }

  lemma {:induction false} OneMoreCounted(front: seq<Candidate>, c: Candidate, lo: nat, g: Group, p: RetentionPolicy, now: Time)
    requires lo <= |front|
    ensures CountedFrom(front + [c], lo, g, p, now)
            == CountedFrom(front, lo, g, p, now) + if Counted(c, g, p, now) then {|front|} else {}
  {
  }

  lemma {:induction false} MembersCounted(cs: seq<Candidate>, lo: nat, g: Group, p: RetentionPolicy, now: Time)
    requires lo <= |cs|
    ensures |Members(cs[lo..], g, p, now)| == |CountedFrom(cs, lo, g, p, now)|
    decreases |cs|
  {
    if lo == |cs| {
      assert CountedFrom(cs, lo, g, p, now) == {};
    } else {
      var front, c := cs[..|cs| - 1], cs[|cs| - 1];
      MembersCounted(front, lo, g, p, now);
      OneMoreCounted(front, c, lo, g, p, now);
      assert cs == front + [c] && cs[lo..][..|cs[lo..]| - 1] == front[lo..];
    }
  }

  /** The caps and the age rule mark exactly the surplus rows. Clamping negative fields changes nothing. */
  lemma {:induction false} MarkedIsSurplus(cs: seq<Candidate>, i: nat, p: RetentionPolicy, now: Time)
    requires i < |cs|
    ensures Marked(cs, i, p, now) <==> Surplus(cs, i, p, now)
    ensures Marked(cs, i, p.Normalized(), now) <==> Surplus(cs, i, p, now)
  {
    MarkedByKind(cs, i, p, now);
    MarkedByKind(cs, i, p.Normalized(), now);
    assert NewerManuals(cs, i, p.Normalized(), now) == NewerManuals(cs, i, p, now);
    assert NewerPublishes(cs, i, p.Normalized(), now) == NewerPublishes(cs, i, p, now);
    assert NewerAutosaves(cs, i, p.Normalized(), now) == NewerAutosaves(cs, i, p, now);
  }

  lemma {:induction false} MarkedByKind(cs: seq<Candidate>, i: nat, p: RetentionPolicy, now: Time)
    requires i < |cs|
    ensures Marked(cs, i, p, now) <==> Surplus(cs, i, p, now)
  {
    var g := GroupOf(cs[i]);
    MembersCounted(cs, i + 1, g, p, now);
    var counted := CountedFrom(cs, i + 1, g, p, now);
    match cs[i].kind
    case Manual => assert counted == NewerManuals(cs, i, p, now);
    case Publish => assert counted == NewerPublishes(cs, i, p, now);
    case Autosave => assert counted == NewerAutosaves(cs, i, p, now);
    case Unknown(_) =>
  }

  /** A prune deletes row i of a post exactly when it is surplus and so is every later row rebuilt through it. `cs` is the post
      as the fields of its rows show it. */
  lemma {:induction false} PruneDeletesExactlyWhen(s: Store, post: Uuid, cs: seq<Candidate>, p: RetentionPolicy, now: Time, i: nat)
    requires Linked(s) && i < |List(s, post)| == |cs|
    requires forall k :: 0 <= k < |cs| ==>
               && List(s, post)[k] in s.revisions
               && var r := s.revisions[List(s, post)[k]];
                  cs[k] == Candidate(r.id, r.authorID, r.createdAt, r.kind, r.snapshot.Some?, r.deltaFrom, r.isPermanent)
    ensures List(s, post)[i] !in PruneStep(s, post, p.Normalized(), now).revisions <==>
            forall j :: i <= j < |cs| && (forall k :: i < k <= j ==> !cs[k].isSnapshot) ==> Surplus(cs, j, p, now)
  {
    PruneSplitsRows(s, post, p.Normalized(), now, i);
    assert cs == Candidates(s, post);
    DoomedIsSurplus(cs, p, now, i);
  }

  lemma {:induction false} DoomedIsSurplus(cs: seq<Candidate>, p: RetentionPolicy, now: Time, i: nat)
    requires i < |cs|
    ensures Doomed(cs, i, p.Normalized(), now) <==>
            forall j :: i <= j < |cs| && (forall k :: i < k <= j ==> !cs[k].isSnapshot) ==> Surplus(cs, j, p, now)
  {
    forall j | 0 <= j < |cs| ensures Marked(cs, j, p.Normalized(), now) <==> Surplus(cs, j, p, now) {
      MarkedIsSurplus(cs, j, p, now);
    }
    if j :| i < j < |cs| && !Marked(cs, j, p.Normalized(), now) && DeltaRun(cs, i, j) {
      assert forall k :: i < k <= j ==> !cs[k].isSnapshot;
    }
    forall j | i < j < |cs| && (forall k :: i < k <= j ==> !cs[k].isSnapshot) ensures DeltaRun(cs, i, j) {}
  }

  /** So a cap of zero spares its kind: no policy with MaxManual 0 deletes a manual row, none with MaxPublish 0 a publish row, and
      none with MaxAutosavesPerAuthor and MaxAgeAutosave 0 an autosave. */
  lemma {:induction false} ZeroCapSparesKind(s: Store, post: Uuid, p: RetentionPolicy, now: Time, id: Uuid)
    requires Linked(s) && id in List(s, post)
    requires id in s.revisions ==>
               match s.revisions[id].kind
               case Manual => p.maxManual <= 0
               case Publish => p.maxPublish <= 0
               case Autosave => p.maxAutosavesPerAuthor <= 0 && p.maxAgeAutosave <= 0
               case Unknown(_) => true
    ensures id in PruneStep(s, post, p.Normalized(), now).revisions
  {
    var i :| 0 <= i < |List(s, post)| && List(s, post)[i] == id;
    assert RowOk(s, post, i);
    PruneSplitsRows(s, post, p.Normalized(), now, i);
    MarkedIsSurplus(Candidates(s, post), i, p, now);
  }

  /** Following DeltaFrom leads from row j to row i. */
  ghost predicate RebuiltThrough(cs: seq<Candidate>, j: nat, i: nat)
    requires i < |cs| && j < |cs|
  {
    exists hops: nat :: hops > 0 && Reaches(cs, cs[j].id, cs[i].id, hops)
  }

  /** The classifier of the Postgres store selects, of any rows in any order, the surplus ones that no row to be kept
      for itself is rebuilt through. */
  lemma {:induction false} ChosenIsSurplus(cs: seq<Candidate>, p: RetentionPolicy, now: Time, i: nat)
    requires C.DistinctIDs(cs) && i < |cs|
    ensures cs[i].id in C.ChosenIds(cs, p.Normalized(), now) <==>
            Surplus(cs, i, p, now) && forall j: nat :: j < |cs| && RebuiltThrough(cs, j, i) ==> Surplus(cs, j, p, now)
  {
    var q := p.Normalized();
    forall j | 0 <= j < |cs| ensures Marked(cs, j, q, now) <==> Surplus(cs, j, p, now) { MarkedIsSurplus(cs, j, p, now); }
    DroppedMeaning(cs, C.ChosenRows(cs, q, now), |cs|, cs[i].id);
    assert cs[i].id in C.ChosenIds(cs, q, now) <==> i in C.ChosenRows(cs, q, now);
    if C.Spared(cs, i, q, now) {
      var j: nat, hops: nat :| j < |cs| && !Marked(cs, j, q, now) && hops > 0 && Reaches(cs, cs[j].id, cs[i].id, hops);
      assert RebuiltThrough(cs, j, i);
    }
  }

  /** The default policy lets go of the manual rows a week old with 20 newer ones, of an author's autosaves a week old with 5
      newer ones or a day old, and of no publish row; newer ones count once they are a week old themselves. */
  lemma {:induction false} DefaultPolicyTakes(cs: seq<Candidate>, i: nat, now: Time)
    requires i < |cs|
    ensures var p, c := DEFAULT_RETENTION, cs[i];
            var week := Sub(now, c.createdAt) >= 604_800_000_000_000;
            Surplus(cs, i, p, now) <==>
            !c.isPermanent &&
            match c.kind
            case Manual => week && |NewerManuals(cs, i, p, now)| >= 20
            case Publish => false
            case Autosave => (week && |NewerAutosaves(cs, i, p, now)| >= 5) || Sub(now, c.createdAt) >= 86_400_000_000_000
            case Unknown(_) => false
  {
  }
}
