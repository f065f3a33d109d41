/** Which rewritings of an honest log VerifyChain notices (audit/verify.go, audit/chain.go). */
module AuditTamper {
  import opened Permutations
  import opened Listings
  import opened AuditChain
  import opened AuditEncoding
  import opened AuditLog
  import opened AuditVerdicts

  /** `edited` is `log` with hashed fields of some rows rewritten to anything at all; the ids and
      the stored hashes stay. */
  ghost predicate Edited(log: seq<Event>, edited: seq<Event>) {
    |edited| == |log| && forall i :: 0 <= i < |log| ==> SameMarks(log[i], edited[i])
  }

  ghost predicate SameMarks(a: Event, b: Event) { b.id == a.id && b.prevHash == a.prevHash }

  /** What the theorems ask of the log before it was touched: written by a chained emitter, no
      separator in its text, on a clock that was set and ran forward. */
  ghost predicate Genuine(lib: Lib, key: string, log: seq<Event>) {
    && Trusted(lib, key) && Honest(lib, key, log) && AllBare(log) && |log| <= VERIFY_LIMIT
    && (forall i :: 0 <= i < |log| ==> log[i].time > 0)
    && (forall i, j :: 0 <= i < j < |log| ==> log[i].time < log[j].time)
  }

  /** Every row but the last has the hashed content it had. */
  ghost predicate Kept(log: seq<Event>, edited: seq<Event>) {
    |edited| == |log| && forall i :: 0 <= i < |log| - 1 ==> SameHashed(edited[i], log[i])
  }

  /** Row m was blanked, so that its hash is empty like that of the first row's predecessor; the row
      before it has taken over its content. */
  ghost predicate Slipped(log: seq<Event>, edited: seq<Event>, m: nat) {
    && |edited| == |log| && 1 <= m < |log| && IsZero(edited[m])
    && (forall i :: 0 <= i < m - 1 ==> SameHashed(edited[i], log[i]))
    && (m < |log| - 1 ==> SameHashed(edited[m - 1], log[m]))
    && (forall i :: m < i < |log| - 1 ==> SameHashed(edited[i], log[i]))
  }

  /** The walk of n rows that starts with row m. */
  function FirstThenRest(n: nat, m: nat): (at: seq<nat>)
    requires m < n
    ensures |at| == n && forall j :: 0 <= j < n ==> at[j] == (if j == 0 then m else if j <= m then j - 1 else j) < n
  {
    seq(n, j requires 0 <= j < n => if j == 0 then m else if j <= m then j - 1 else j)
  }

  function RowOrder(n: nat): (at: seq<nat>)
    ensures |at| == n && forall j :: 0 <= j < n ==> at[j] == j
  {
    seq(n, j requires 0 <= j < n => j)
  }

  lemma {:induction false} PickedHashes(log: seq<Event>, edited: seq<Event>, at: seq<nat>)
    requires Edited(log, edited) && forall j :: 0 <= j < |at| ==> at[j] < |log|
    ensures HashesFrom(Picked(edited, at), log, at)
  {
    var w := Picked(edited, at);
    forall j | 0 <= j < |w| ensures w[j].prevHash == log[at[j]].prevHash {
      assert SameMarks(log[at[j]], edited[at[j]]);
    }
  }

  ghost predicate AllFit(log: seq<Event>, edited: seq<Event>, at: seq<nat>)
    requires |edited| == |log| && forall j :: 0 <= j < |at| ==> at[j] < |log|
  {
    forall j :: 1 <= j < |at| ==> FitsAt(Picked(edited, at), log, at, j)
  }

  lemma {:induction false} RowOrderFits(log: seq<Event>, edited: seq<Event>)
    requires |edited| == |log|
    ensures AllFit(log, edited, RowOrder(|log|)) <==> Kept(log, edited)
  {
    var at := RowOrder(|log|);
    var w := Picked(edited, at);
    if AllFit(log, edited, at) {
      forall i | 0 <= i < |log| - 1 ensures SameHashed(edited[i], log[i]) { assert FitsAt(w, log, at, i + 1); }
    }
  }

  lemma {:induction false} SlippedFits(log: seq<Event>, edited: seq<Event>, m: nat)
    requires Slipped(log, edited, m)
    ensures AllFit(log, edited, FirstThenRest(|log|, m))
  {
    var at := FirstThenRest(|log|, m);
    var w := Picked(edited, at);
    forall j | 1 <= j < |at| ensures FitsAt(w, log, at, j) {
      if j == 1 {
        assert w[0] == edited[m];
      } else if j <= m {
        assert SameHashed(edited[j - 2], log[j - 2]) && w[j - 1] == edited[j - 2];
      } else if j == m + 1 {
        assert w[j - 1] == edited[m - 1];
      } else {
        assert SameHashed(edited[j - 1], log[j - 1]) && w[j - 1] == edited[j - 1];
      }
    }
  }

  lemma {:induction false} FitsSlipped(log: seq<Event>, edited: seq<Event>, m: nat)
    requires |edited| == |log| && 1 <= m < |log| && AllFit(log, edited, FirstThenRest(|log|, m))
    ensures Slipped(log, edited, m)
  {
    var at := FirstThenRest(|log|, m);
    FitAsRows(log, edited, at, 1);
    forall i | 0 <= i < m - 1 ensures SameHashed(edited[i], log[i]) { FitAsRows(log, edited, at, i + 2); }
    if m < |log| - 1 { FitAsRows(log, edited, at, m + 1); }
    forall i | m < i < |log| - 1 ensures SameHashed(edited[i], log[i]) { FitAsRows(log, edited, at, i + 1); }
  }

  lemma {:induction false} FitAsRows(log: seq<Event>, edited: seq<Event>, at: seq<nat>, j: nat)
    requires |edited| == |log| && (forall j :: 0 <= j < |at| ==> at[j] < |log|)
    requires AllFit(log, edited, at) && 1 <= j < |at|
    ensures Follows(edited[at[j - 1]], log, at[j])
  {
    assert FitsAt(Picked(edited, at), log, at, j);
  }

  // ---------- A passing walk ----------

  /** A walk of the edited rows in time order. */
  ghost predicate Walk(edited: seq<Event>, at: seq<nat>) {
    && |at| == |edited| && Indices(at, |edited|)
    && forall a, b :: 0 <= a < b < |at| ==> edited[at[a]].time <= edited[at[b]].time
  }

  lemma {:induction false} WalkOfWindow(edited: seq<Event>) returns (at: seq<nat>)
    requires |edited| <= VERIFY_LIMIT
    ensures Walk(edited, at) && Window(edited) == Picked(edited, at)
  {
    at := WalkOrder(edited);
    forall a, b | 0 <= a < b < |at| ensures edited[at[a]].time <= edited[at[b]].time {
      assert Listings.Before(Newer, edited, at[b], at[a]);
    }
  }

  /** Two rows of a passing walk that are chained to something come in row order. */
  lemma {:induction false} PairInRowOrder(lib: Lib, key: string, log: seq<Event>, edited: seq<Event>, at: seq<nat>, j: nat, k: nat)
    requires Genuine(lib, key, log) && |edited| == |log| && Walk(edited, at) && AllFit(log, edited, at)
    requires 1 <= j < k < |at| && at[j] >= 1 && at[k] >= 1
    ensures at[j] < at[k]
  {
    var w := Picked(edited, at);
    assert FitsAt(w, log, at, j) && FitsAt(w, log, at, k);
    assert w[j - 1].time == log[at[j] - 1].time && w[k - 1].time == log[at[k] - 1].time;
    assert at[j] != at[k];
  }

  /** A passing walk is in row order, or row order but for one blank row in front. */
  lemma {:induction false} PassingWalks(lib: Lib, key: string, log: seq<Event>, edited: seq<Event>, at: seq<nat>)
    requires Genuine(lib, key, log) && |edited| == |log| > 0 && Walk(edited, at) && AllFit(log, edited, at)
    ensures at == RowOrder(|log|) || (1 <= at[0] && at == FirstThenRest(|log|, at[0]))
  {
    if at[0] == 0 {
      RootFirst(lib, key, log, edited, at);
    } else {
      RootSecond(lib, key, log, edited, at);
    }
  }

  lemma {:induction false} RootFirst(lib: Lib, key: string, log: seq<Event>, edited: seq<Event>, at: seq<nat>)
    requires Genuine(lib, key, log) && |edited| == |log| > 0 && Walk(edited, at) && AllFit(log, edited, at)
    requires at[0] == 0
    ensures at == RowOrder(|log|)
  {
    forall j | 0 <= j < |at| - 1 ensures at[j] < at[j + 1] {
      assert at[j + 1] != at[0];
      if j > 0 {
        assert at[j] != at[0];
        PairInRowOrder(lib, key, log, edited, at, j, j + 1);
      }
    }
    IncreasingIsIdentity(at);
  }

  lemma {:induction false} RootSecond(lib: Lib, key: string, log: seq<Event>, edited: seq<Event>, at: seq<nat>)
    requires Genuine(lib, key, log) && |edited| == |log| > 0 && Walk(edited, at) && AllFit(log, edited, at)
    requires at[0] != 0
    ensures at == FirstThenRest(|log|, at[0])
  {
    var n, m := |log|, at[0];
    CoversAll(at, n);
    var z := PositionOf(at, 0);
    BlankBeforeRoot(lib, key, log, edited, at, z);
    assert at[1] == 0;
    var rest := seq(n - 1, j requires 0 <= j < n - 1 => if at[j + 1] > m then at[j + 1] - 1 else at[j + 1]);
    forall j | 0 <= j < n - 1 ensures at[j + 1] != m && rest[j] < n - 1 {}
    forall j | 0 <= j < n - 2 ensures rest[j] < rest[j + 1] {
      if j > 0 {
        PairInRowOrder(lib, key, log, edited, at, j + 1, j + 2);
      } else {
        assert at[2] != 0 && at[2] != m;
      }
    }
    IncreasingIsIdentity(rest);
    forall j | 0 <= j < n ensures at[j] == FirstThenRest(n, m)[j] {
      if j > 0 { assert rest[j - 1] == j - 1; }
    }
  }

  /** The first row of the log is walked second, after a row that is blank. */
  lemma {:induction false} BlankBeforeRoot(lib: Lib, key: string, log: seq<Event>, edited: seq<Event>, at: seq<nat>, z: nat)
    requires Genuine(lib, key, log) && |edited| == |log| && Walk(edited, at) && AllFit(log, edited, at)
    requires 1 <= z < |at| && at[z] == 0
    ensures z == 1
  {
    FitAsRows(log, edited, at, z);
    if z >= 2 {
      ChainedRowIsDated(lib, key, log, edited, at, z - 1);
    }
  }

  /** A row that another row is chained to has a time. */
  lemma {:induction false} ChainedRowIsDated(lib: Lib, key: string, log: seq<Event>, edited: seq<Event>, at: seq<nat>, j: nat)
    requires Genuine(lib, key, log) && |edited| == |log| && Walk(edited, at) && AllFit(log, edited, at)
    requires 1 <= j < |at| && at[j] >= 1
    ensures edited[at[j - 1]].time > 0
  {
    FitAsRows(log, edited, at, j);
  }

  // ---------- Rewriting ----------

  /** A rewritten log passes exactly when every row but the last keeps its hashed content and the
      listing its order, or when a row was blanked and slipped to the front. */
  lemma {:induction false} TamperingPassesExactlyWhen(lib: Lib, key: string, log: seq<Event>, edited: seq<Event>)
    requires Genuine(lib, key, log) && Edited(log, edited)
    ensures Passes(lib, key, edited, "", "") <==>
            || (Window(edited) == edited && Kept(log, edited))
            || (exists m: nat :: Slipped(log, edited, m) && Window(edited) == Picked(edited, FirstThenRest(|edited|, m)))
  {
    PassesWhole(lib, key, edited);
    if |log| == 0 {
      assert Window(edited) == [] == edited;
    } else {
      if Links(lib, key, Window(edited)) { PassingLog(lib, key, log, edited); }
      if Kept(log, edited) { RowOrderPasses(lib, key, log, edited); }
      if m: nat :| Slipped(log, edited, m) && Window(edited) == Picked(edited, FirstThenRest(|edited|, m)) {
        SlippedPasses(lib, key, log, edited, m);
      }
    }
  }

  lemma {:induction false} PassingLog(lib: Lib, key: string, log: seq<Event>, edited: seq<Event>)
    requires Genuine(lib, key, log) && Edited(log, edited) && log != [] && Links(lib, key, Window(edited))
    ensures || (Window(edited) == edited && Kept(log, edited))
            || (exists m: nat :: Slipped(log, edited, m) && Window(edited) == Picked(edited, FirstThenRest(|edited|, m)))
  {
    var at := WalkOfWindow(edited);
    PickedHashes(log, edited, at);
    ListPassesExactlyWhen(lib, key, log, Picked(edited, at), at);
    PassingWalks(lib, key, log, edited, at);
    if at == RowOrder(|log|) {
      RowOrderFits(log, edited);
      assert Picked(edited, at) == edited;
    } else {
      FitsSlipped(log, edited, at[0]);
    }
  }

  lemma {:induction false} SlippedPasses(lib: Lib, key: string, log: seq<Event>, edited: seq<Event>, m: nat)
    requires Genuine(lib, key, log) && Edited(log, edited) && Slipped(log, edited, m)
    ensures Links(lib, key, Picked(edited, FirstThenRest(|edited|, m)))
  {
    var at := FirstThenRest(|log|, m);
    SlippedFits(log, edited, m);
    PickedHashes(log, edited, at);
    ListPassesExactlyWhen(lib, key, log, Picked(edited, at), at);
  }

  lemma {:induction false} RowOrderPasses(lib: Lib, key: string, log: seq<Event>, edited: seq<Event>)
    requires Genuine(lib, key, log) && Edited(log, edited) && Kept(log, edited)
    ensures Links(lib, key, edited)
  {
    var at := RowOrder(|log|);
    RowOrderFits(log, edited);
    PickedHashes(log, edited, at);
    ListPassesExactlyWhen(lib, key, log, Picked(edited, at), at);
    assert Picked(edited, at) == edited;
  }

  /** As long as no row is blanked, rewriting is noticed exactly when it changes the hashed content of
      a row other than the last, or the order of the listing. */
  lemma {:induction false} TamperingIsNoticed(lib: Lib, key: string, log: seq<Event>, edited: seq<Event>)
    requires Genuine(lib, key, log) && Edited(log, edited)
    requires forall i :: 0 <= i < |edited| ==> !IsZero(edited[i])
    ensures Passes(lib, key, edited, "", "") <==> Window(edited) == edited && Kept(log, edited)
  {
    TamperingPassesExactlyWhen(lib, key, log, edited);
  }

  // ---------- What goes unnoticed ----------

  /** The log with its last row blanked and the row before it rewritten. */
  function Blanked(log: seq<Event>): (r: seq<Event>)
    requires |log| >= 2
    ensures |r| == |log| && forall j :: 0 <= j < |log| - 2 ==> r[j] == log[j]
    ensures r[|log| - 2] == log[|log| - 2].(actor := log[|log| - 2].actor + "!")
    ensures r[|log| - 1] == log[|log| - 1].(eventType := "", time := 0, metadata := map[])
  {
    var n := |log|;
    log[n - 2 := log[n - 2].(actor := log[n - 2].actor + "!")]
       [n - 1 := log[n - 1].(eventType := "", time := 0, metadata := map[])]
  }

  /** That passes, although a row other than the last has changed: the condition on blank rows in
      TamperingIsNoticed is needed. */
  lemma {:induction false} BlankedLogPasses(lib: Lib, key: string, log: seq<Event>)
    requires Genuine(lib, key, log) && |log| >= 2
    ensures Edited(log, Blanked(log)) && Passes(lib, key, Blanked(log), "", "") && !Kept(log, Blanked(log))
  {
    var n, edited := |log|, Blanked(log);
    var at := WalkOfWindow(edited);
    BlankWalksFirst(log, edited, at);
    assert Slipped(log, edited, n - 1);
    SlippedPasses(lib, key, log, edited, n - 1);
    PassesWhole(lib, key, edited);
    assert Texts(edited[n - 2])[1] != Texts(log[n - 2])[1];
    assert !SameHashed(edited[n - 2], log[n - 2]);
  }

  lemma {:induction false} BlankWalksFirst(log: seq<Event>, edited: seq<Event>, at: seq<nat>)
    requires |log| >= 2 && edited == Blanked(log) && Walk(edited, at)
    requires forall i :: 0 <= i < |log| ==> log[i].time > 0
    requires forall i, j :: 0 <= i < j < |log| ==> log[i].time < log[j].time
    ensures at == FirstThenRest(|log|, |log| - 1)
  {
    var n := |log|;
    assert forall i :: 0 <= i < n - 1 ==> edited[i].time == log[i].time;
    CoversAll(at, n);
    var a := PositionOf(at, n - 1);
    assert edited[at[0]].time <= edited[at[a]].time || a == 0;
    assert at[0] == n - 1;
    forall j | 1 <= j < n - 1 ensures at[j] < at[j + 1] {
      assert edited[at[j]].time <= edited[at[j + 1]].time;
      assert at[j] != at[0] && at[j + 1] != at[0] && at[j] != at[j + 1];
    }
    var rest := at[1..];
    forall j | 0 <= j < |rest| ensures rest[j] < |rest| { assert at[j + 1] != at[0]; }
    IncreasingIsIdentity(rest);
    forall j | 0 <= j < n ensures at[j] == FirstThenRest(n, n - 1)[j] {
      if j > 0 { assert rest[j - 1] == j - 1; }
    }
  }

  function WithMetadata(log: seq<Event>, i: nat, m: map<string, string>): (r: seq<Event>)
    requires i < |log|
    ensures |r| == |log| && r[i] == log[i].(metadata := m) && forall j :: 0 <= j < |log| && j != i ==> r[j] == log[j]
  {
    log[i := log[i].(metadata := m)]
  }

  lemma {:induction false} MetadataLeavesOrder(lib: Lib, key: string, log: seq<Event>, i: nat, m: map<string, string>)
    requires Genuine(lib, key, log) && i < |log|
    ensures Window(WithMetadata(log, i, m)) == WithMetadata(log, i, m) && Edited(log, WithMetadata(log, i, m))
    ensures forall j :: 0 <= j < |log| ==> !IsZero(WithMetadata(log, i, m)[j])
  {
    var edited := WithMetadata(log, i, m);
    WindowOfOrdered(edited);
    assert edited[0..] == edited;
    forall j | 0 <= j < |log| ensures !IsZero(edited[j]) { assert HonestRow(lib, key, log, j); }
  }

  /** The metadata of a row other than the last can be replaced unnoticed exactly when it is not
      plain, that is, when it has two entries or an '=' in a key or value. */
  lemma {:induction false} MetadataForgedExactlyWhen(lib: Lib, key: string, log: seq<Event>, i: nat)
    requires Genuine(lib, key, log) && i + 1 < |log|
    ensures (exists m :: m != log[i].metadata && Passes(lib, key, WithMetadata(log, i, m), "", "")) <==>
            !Plain(log[i].metadata)
  {
    if !Plain(log[i].metadata) {
      var m := NotPlainCollides(log[i].metadata);
      MetadataLeavesOrder(lib, key, log, i, m);
      TamperingIsNoticed(lib, key, log, WithMetadata(log, i, m));
    } else {
      forall m | m != log[i].metadata ensures !Passes(lib, key, WithMetadata(log, i, m), "", "") {
        MetadataLeavesOrder(lib, key, log, i, m);
        TamperingIsNoticed(lib, key, log, WithMetadata(log, i, m));
        if SameHashed(WithMetadata(log, i, m)[i], log[i]) { PlainReadsBack(log[i].metadata, m); }
      }
    }
  }

  /** The log without row m, whose content stands in the row before it. */
  function Merged(log: seq<Event>, m: nat): (w: seq<Event>)
    requires 1 <= m < |log|
    ensures |w| == |log| - 1
    ensures forall j :: 0 <= j < |w| ==>
              w[j] == if j < m - 1 then log[j]
                      else if j == m - 1 then log[m].(id := log[m - 1].id, prevHash := log[m - 1].prevHash)
                      else log[j + 1]
  {
    log[..m - 1] + [log[m].(id := log[m - 1].id, prevHash := log[m - 1].prevHash)] + log[m + 1..]
  }

  /** The stored hash of a row is not part of what the next row's hash covers, so the content of any
      row but the last can be lost: passing rows need not be a contiguous stretch of the log. */
  lemma {:induction false} MergedRowsPass(lib: Lib, key: string, log: seq<Event>, m: nat)
    requires Genuine(lib, key, log) && 1 <= m < |log|
    ensures Passes(lib, key, Merged(log, m), "", "")
  {
    PassesWhole(lib, key, Merged(log, m));
    MergedInOrder(lib, key, log, m);
    WindowOfOrdered(Merged(log, m));
    assert Merged(log, m)[0..] == Merged(log, m);
    MergedHashes(log, m);
    forall j | 1 <= j < |log| - 1 ensures FitsAt(Merged(log, m), log, Around(|log|, m), j) { MergedFits(log, m, j); }
    ListPassesExactlyWhen(lib, key, log, Merged(log, m), Around(|log|, m));
  }

  /** All positions but m. */
  function Around(n: nat, m: nat): (at: seq<nat>)
    requires m < n
    ensures |at| == n - 1 && forall j :: 0 <= j < n - 1 ==> at[j] == (if j < m then j else j + 1) < n
  {
    seq(n - 1, j requires 0 <= j < n - 1 => if j < m then j else j + 1)
  }

  lemma {:induction false} MergedInOrder(lib: Lib, key: string, log: seq<Event>, m: nat)
    requires Genuine(lib, key, log) && 1 <= m < |log|
    ensures InListingOrder(Merged(log, m))
  {
    var w := Merged(log, m);
    forall j | 0 <= j < |w| ensures w[j].time == (if j < m - 1 then log[j] else log[j + 1]).time {}
  }

  lemma {:induction false} MergedHashes(log: seq<Event>, m: nat)
    requires 1 <= m < |log|
    ensures HashesFrom(Merged(log, m), log, Around(|log|, m))
  {
    var w, at := Merged(log, m), Around(|log|, m);
    forall j | 0 <= j < |w| ensures w[j].prevHash == log[at[j]].prevHash {}
  }

  lemma {:induction false} MergedFits(log: seq<Event>, m: nat, j: nat)
    requires 1 <= m < |log| && 1 <= j < |log| - 1
    ensures FitsAt(Merged(log, m), log, Around(|log|, m), j)
  {
    var row := Merged(log, m)[j - 1];
    if j < m {
      assert row == log[j - 1];
    } else if j > m {
      assert row == log[j];
    } else {
      assert row == log[m].(id := log[m - 1].id, prevHash := log[m - 1].prevHash);
    }
  }
}
