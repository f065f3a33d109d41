/** Whole runs of the keyed dispatcher: when a worker is reaped, how far its channel fills, in what order jobs of a key run,
    and that waiting can end (hooks/ordered.go). */
module DispatcherRuns {
  import opened Common
  import opened Dispatcher

  /** The state after the events, as far as they can happen. */
  function Reached(es: seq<Event>): State {
    if es == [] then INITIAL
    else
      var s := Reached(es[..|es| - 1]);
      if Enabled(s, es[|es| - 1]) then Apply(s, es[|es| - 1]) else s
  }

  ghost predicate Happens(es: seq<Event>) {
    forall k :: 0 <= k < |es| ==> Enabled(Reached(es[..k]), es[k])
  }

  lemma {:induction false} HappensFront(es: seq<Event>)
    requires Happens(es) && es != []
    ensures var n := |es| - 1;
            Happens(es[..n]) && Enabled(Reached(es[..n]), es[n]) && Reached(es) == Apply(Reached(es[..n]), es[n])
  {
    var n := |es| - 1;
    forall k | 0 <= k < n ensures Enabled(Reached(es[..n][..k]), es[..n][k]) { assert es[..n][..k] == es[..k]; }
  }

  lemma {:induction false} HappensNext(pre: seq<Event>, e: Event)
    requires Happens(pre) && Enabled(Reached(pre), e)
    ensures Happens(pre + [e]) && Reached(pre + [e]) == Apply(Reached(pre), e)
  {
    var next := pre + [e];
    assert next[..|pre|] == pre;
    forall k | 0 <= k < |next| ensures Enabled(Reached(next[..k]), next[k]) {
      if k < |pre| { assert next[..k] == pre[..k] && next[k] == pre[k]; }
    }
  }

  lemma {:induction false} LeadsFront(s: State, es: seq<Event>, t: State) returns (u: State)
    requires Leads(s, es, t) && es != []
    ensures var n := |es| - 1; Leads(s, es[..n], u) && Enabled(u, es[n]) && t == Apply(u, es[n])
    decreases |es|
  {
    var n := |es| - 1;
    if n == 0 {
      u := s;
    } else {
      u := LeadsFront(Apply(s, es[0]), es[1..], t);
      assert es[1..][..n - 1] == es[..n][1..];
    }
  }

  /** A run from the start happens, and reaches what it leads to. */
  lemma {:induction false} RunHappens(es: seq<Event>, s: State)
    requires Leads(INITIAL, es, s)
    ensures Happens(es) && Reached(es) == s
  {
    if es != [] {
      var n := |es| - 1;
      var u := LeadsFront(INITIAL, es, s);
      RunHappens(es[..n], u);
      HappensNext(es[..n], es[n]);
      assert es[..n] + [es[n]] == es;
    }
  }

  // ---------- What a worker remembers ----------

  /** The event makes worker w. */
  predicate Makes(s: State, e: Event, w: nat) {
    && e.Attach? && e.id in s.producers && w == |s.workers|
    && var key := s.producers[e.id].job.key;
       !(key in s.current && s.current[key] < |s.workers| && !s.workers[s.current[key]].closed)
  }

  /** The event sends to worker w, or ends a job of it. */
  predicate Uses(s: State, e: Event, w: nat) {
    (e.Send? && e.id in s.producers && s.producers[e.id].Holding? && s.producers[e.id].worker == w) || (e.Finish? && e.w == w)
  }

  /** Event k made worker w. */
  ghost predicate MadeAt(es: seq<Event>, k: nat, w: nat) {
    k < |es| && Makes(Reached(es[..k]), es[k], w)
  }

  ghost predicate UsedAt(es: seq<Event>, k: nat, w: nat) {
    k < |es| && Uses(Reached(es[..k]), es[k], w)
  }

  /** Event k was the last to make or use worker w. */
  ghost predicate LastAt(es: seq<Event>, k: nat, w: nat) {
    (MadeAt(es, k, w) || UsedAt(es, k, w)) && forall l: nat :: k < l < |es| ==> !MadeAt(es, l, w) && !UsedAt(es, l, w)
  }

  function ClockOf(e: Event): int {
    match e
    case Attach(_, _, _, now) => now
    case Send(_, now) => now
    case Finish(_, now) => now
    case Reap(_, now) => now
    case _ => 0
  }

  lemma {:induction false} EarlierEvent(front: seq<Event>, e: Event, k: nat, w: nat)
    requires k < |front|
    ensures MadeAt(front + [e], k, w) <==> MadeAt(front, k, w)
    ensures UsedAt(front + [e], k, w) <==> UsedAt(front, k, w)
  {
    assert (front + [e])[..k] == front[..k];
  }

  lemma {:induction false} LastStays(front: seq<Event>, e: Event, k: nat, w: nat)
    requires LastAt(front, k, w)
    requires !Makes(Reached(front), e, w) && !Uses(Reached(front), e, w)
    ensures LastAt(front + [e], k, w)
  {
    EarlierEvent(front, e, k, w);
    assert (front + [e])[..|front|] == front;
    forall l: nat | k < l < |front + [e]| ensures !MadeAt(front + [e], l, w) && !UsedAt(front + [e], l, w) {
      if l < |front| { EarlierEvent(front, e, l, w); }
    }
  }

  lemma {:induction false} LastIsNow(front: seq<Event>, e: Event, w: nat)
    requires Makes(Reached(front), e, w) || Uses(Reached(front), e, w)
    ensures LastAt(front + [e], |front|, w)
    ensures Makes(Reached(front), e, w) ==> MadeAt(front + [e], |front|, w)
  {
    assert (front + [e])[..|front|] == front;
  }

  /** What worker w was made with and when it was last used. */
  ghost predicate Remembers(es: seq<Event>, w: nat, k: Worker, made: nat, last: nat) {
    && MadeAt(es, made, w) && LastAt(es, last, w)
    && k.cap == (if es[made].bufferSize <= 0 then 64 else es[made].bufferSize)
    && k.idleTimeout == (if es[made].idleTimeout <= 0 then 30_000_000_000 else es[made].idleTimeout)
    && k.lastActive == ClockOf(es[last]) && |k.queue| <= k.cap
  }

  /** Each worker has the buffer and the idle timeout it was made with, 64 and 30 seconds when none were given, never holds more than
      its buffer, and remembers when it was last made or used. */
  lemma {:induction false} WorkerRemembers(es: seq<Event>, w: nat) returns (made: nat, last: nat)
    requires Happens(es) && w < |Reached(es).workers|
    ensures Remembers(es, w, Reached(es).workers[w], made, last)
  {
    HappensFront(es);
    var n := |es| - 1;
    if w < |Reached(es[..n]).workers| {
      made, last := WorkerRemembers(es[..n], w);
      last := OldRemembers(es, w, made, last);
    } else {
      made, last := n, n;
      NewRemembers(es, w);
    }
  }

  lemma {:induction false} OldRemembers(es: seq<Event>, w: nat, made: nat, last: nat) returns (next: nat)
    requires es != []
    requires var n := |es| - 1;
             && Enabled(Reached(es[..n]), es[n]) && Reached(es) == Apply(Reached(es[..n]), es[n])
             && w < |Reached(es[..n]).workers| && Remembers(es[..n], w, Reached(es[..n]).workers[w], made, last)
    ensures w < |Reached(es).workers| && Remembers(es, w, Reached(es).workers[w], made, next)
  {
    var n := |es| - 1;
    next := StillRemembers(es[..n], es[n], w, made, last);
    assert es[..n] + [es[n]] == es;
  }

  lemma {:induction false} NewRemembers(es: seq<Event>, w: nat)
    requires es != [] && w < |Reached(es).workers|
    requires var n := |es| - 1;
             && Enabled(Reached(es[..n]), es[n]) && Reached(es) == Apply(Reached(es[..n]), es[n])
             && |Reached(es[..n]).workers| <= w
    ensures Remembers(es, w, Reached(es).workers[w], |es| - 1, |es| - 1)
  {
    var n := |es| - 1;
    NowRemembers(es[..n], es[n], w);
    assert es[..n] + [es[n]] == es;
  }

  lemma {:induction false} NowRemembers(front: seq<Event>, e: Event, w: nat)
    requires Enabled(Reached(front), e) && |Reached(front).workers| <= w < |Apply(Reached(front), e).workers|
    ensures Remembers(front + [e], w, Apply(Reached(front), e).workers[w], |front|, |front|)
  {
    LastIsNow(front, e, w);
  }

  lemma {:induction false} StillRemembers(front: seq<Event>, e: Event, w: nat, made: nat, last: nat) returns (next: nat)
    requires Enabled(Reached(front), e) && w < |Reached(front).workers| && Remembers(front, w, Reached(front).workers[w], made, last)
    ensures w < |Apply(Reached(front), e).workers|
    ensures Remembers(front + [e], w, Apply(Reached(front), e).workers[w], made, next)
  {
    WorkerStep(Reached(front), e, w);
    EarlierEvent(front, e, made, w);
    if Uses(Reached(front), e, w) {
      next := |front|;
      LastIsNow(front, e, w);
    } else {
      next := last;
      LastStays(front, e, last, w);
    }
  }

  lemma {:induction false} WorkerStep(s: State, e: Event, w: nat)
    requires Enabled(s, e) && w < |s.workers| && |s.workers[w].queue| <= s.workers[w].cap
    ensures var s' := Apply(s, e);
            && w < |s'.workers| && s'.workers[w].cap == s.workers[w].cap && s'.workers[w].idleTimeout == s.workers[w].idleTimeout
            && |s'.workers[w].queue| <= s'.workers[w].cap && !Makes(s, e, w)
            && s'.workers[w].lastActive == if Uses(s, e, w) then ClockOf(e) else s.workers[w].lastActive
  {
  }

  /** A worker can be reaped exactly when it is the one of its key, its channel is empty, and as long as the idle timeout it was made
      with has passed since it was made, last sent to, or last done with a job. */
  lemma {:induction false} ReapedExactlyWhen(es: seq<Event>, s: State, w: nat, now: int) returns (made: nat, last: nat)
    requires Leads(INITIAL, es, s) && w < |s.workers|
    ensures MadeAt(es, made, w) && LastAt(es, last, w)
    ensures var k := s.workers[w];
            Enabled(s, Reap(w, now)) <==>
              && k.key in s.current && s.current[k.key] == w && !k.closed && k.queue == []
              && now - ClockOf(es[last]) >= (if es[made].idleTimeout <= 0 then 30_000_000_000 else es[made].idleTimeout)
  {
    made, last := RunRemembers(es, s, w);
  }

  lemma {:induction false} RunRemembers(es: seq<Event>, s: State, w: nat) returns (made: nat, last: nat)
    requires Leads(INITIAL, es, s) && w < |s.workers|
    ensures Remembers(es, w, s.workers[w], made, last)
  {
    RunHappens(es, s);
    made, last := WorkerRemembers(es, w);
  }

  /** No channel ever holds more than its buffer, which is that of the dispatch that made the worker, or 64. */
  lemma {:induction false} BufferIsKept(es: seq<Event>, s: State, w: nat) returns (made: nat)
    requires Leads(INITIAL, es, s) && w < |s.workers|
    ensures MadeAt(es, made, w) && |s.workers[w].queue| <= if es[made].bufferSize <= 0 then 64 else es[made].bufferSize
  {
    var last;
    made, last := RunRemembers(es, s, w);
  }

  // ---------- Giving up ----------

  /** Event k found the channel of the producer's worker full. */
  ghost predicate FullAt(es: seq<Event>, k: nat, id: nat) {
    && k < |es| && es[k] == Block(id)
    && var s := Reached(es[..k]);
       id in s.producers && s.producers[id].Holding? && s.producers[id].worker < |s.workers|
       && |s.workers[s.producers[id].worker].queue| == s.workers[s.producers[id].worker].cap
  }

  lemma {:induction false} FullStays(front: seq<Event>, e: Event, id: nat)
    requires exists k: nat :: FullAt(front, k, id)
    ensures exists k: nat :: FullAt(front + [e], k, id)
  {
    var k: nat :| FullAt(front, k, id);
    assert (front + [e])[..k] == front[..k];
    assert FullAt(front + [e], k, id);
  }

  predicate Waits(s: State, id: nat) { id in s.producers && s.producers[id].Holding? && s.producers[id].blocked }

  lemma {:induction false} BlocksWhenFull(front: seq<Event>, id: nat)
    requires Happens(front) && Enabled(Reached(front), Block(id))
    ensures FullAt(front + [Block(id)], |front|, id)
  {
    var made, last := WorkerRemembers(front, Reached(front).producers[id].worker);
    assert (front + [Block(id)])[..|front|] == front;
  }

  lemma {:induction false} WaitsSince(s: State, e: Event, id: nat)
    requires Enabled(s, e) && e != Block(id) && (id in Apply(s, e).abandoned || Waits(Apply(s, e), id))
    ensures id in s.abandoned || Waits(s, id)
  {
  }

  lemma {:induction false} GivesUpWhenFull(es: seq<Event>, id: nat)
    requires Happens(es) && (id in Reached(es).abandoned || Waits(Reached(es), id))
    ensures exists k: nat :: FullAt(es, k, id)
  {
    HappensFront(es);
    var front, e := es[..|es| - 1], es[|es| - 1];
    assert es == front + [e];
    if e == Block(id) {
      BlocksWhenFull(front, id);
    } else {
      WaitsSince(Reached(front), e, id);
      GivesUpWhenFull(front, id);
      FullStays(front, e, id);
    }
  }

  /** A job is given up only after its producer has found the channel full. */
  lemma {:induction false} GivenUpWhenFull(es: seq<Event>, s: State, id: nat)
    requires Leads(INITIAL, es, s) && id in s.abandoned
    ensures exists k: nat :: FullAt(es, k, id)
  {
    RunHappens(es, s);
    GivesUpWhenFull(es, id);
  }

  // ---------- After the end ----------

  predicate Gone(s: State, w: nat) { w < |s.workers| && s.workers[w].exited }

  lemma {:induction false} StaysGone(s: State, e: Event, t: State, w: nat)
    requires Enabled(s, e) && t == Apply(s, e) && (Gone(s, w) || e == Exit(w))
    ensures Gone(t, w) && (Gone(s, w) ==> e != Take(w) && e != Exit(w))
  {
  }

  lemma {:induction false} StepAt(es: seq<Event>, m: nat) returns (s: State, t: State)
    requires Happens(es) && m < |es|
    ensures s == Reached(es[..m]) && t == Reached(es[..m + 1]) && Enabled(s, es[m]) && t == Apply(s, es[m])
  {
    s, t := Reached(es[..m]), Reached(es[..m + 1]);
    assert es[..m + 1][..m] == es[..m];
  }

  /** The states before and after event m. */
  ghost predicate StepsAt(es: seq<Event>, m: nat, s: State, t: State) {
    m < |es| && s == Reached(es[..m]) && t == Reached(es[..m + 1]) && Enabled(s, es[m]) && t == Apply(s, es[m])
  }

  lemma {:induction false} StillGone(es: seq<Event>, m: nat, s: State, t: State, w: nat)
    requires StepsAt(es, m, s, t) && (Gone(s, w) || es[m] == Exit(w))
    ensures Gone(t, w)
  {
    StaysGone(s, es[m], t, w);
  }

  lemma {:induction false} GoneSince(es: seq<Event>, k: nat, m: nat, w: nat, states: seq<State>)
    requires k < m <= |es| && es[k] == Exit(w) && |states| == |es| + 1
    requires forall j: nat :: j < |es| ==> StepsAt(es, j, states[j], states[j + 1])
    ensures Gone(states[m], w)
  {
    assert StepsAt(es, m - 1, states[m - 1], states[m]);
    if k < m - 1 { GoneSince(es, k, m - 1, w, states); }
    StillGone(es, m - 1, states[m - 1], states[m], w);
  }

  ghost function StatesOf(es: seq<Event>): (states: seq<State>)
    ensures |states| == |es| + 1 && forall j :: 0 <= j <= |es| ==> states[j] == Reached(es[..j])
  {
    seq(|es| + 1, j requires 0 <= j <= |es| => Reached(es[..j]))
  }

  /** A worker that has left takes no job and does not leave again. */
  lemma {:induction false} NothingAfterExit(es: seq<Event>, s: State, k: nat, l: nat, w: nat)
    requires Leads(INITIAL, es, s) && k < l < |es| && es[k] == Exit(w)
    ensures es[l] != Take(w) && es[l] != Exit(w)
  {
    RunHappens(es, s);
    var states := StatesOf(es);
    forall j: nat | j < |es| ensures StepsAt(es, j, states[j], states[j + 1]) { var u, t := StepAt(es, j); }
    GoneSince(es, k, l, w, states);
    StaysGone(states[l], es[l], states[l + 1], w) by { assert StepsAt(es, l, states[l], states[l + 1]); }
  }

  /** Event k sends to a worker that is gone. */
  ghost predicate SentTooLate(es: seq<Event>, k: nat, w: nat) {
    k < |es| && es[k].Send? && Uses(Reached(es[..k]), es[k], w) && Gone(Reached(es[..k]), w)
  }

  lemma {:induction false} LeftBehind(es: seq<Event>, m: nat, w: nat)
    requires Happens(es) && m <= |es| && Gone(Reached(es[..m]), w) && Reached(es[..m]).workers[w].queue != []
    ensures exists k: nat :: SentTooLate(es, k, w)
  {
    assert m > 0 by { assert es[..0] == []; }
    var s, t := StepAt(es, m - 1);
    if Gone(s, w) && s.workers[w].queue != [] {
      LeftBehind(es, m - 1, w);
    } else {
      GoneEmpty(s, es[m - 1], w);
      assert SentTooLate(es, m - 1, w);
    }
  }

  /** A worker leaves with its channel empty: only a later send can put a job there. */
  lemma {:induction false} GoneEmpty(s: State, e: Event, w: nat)
    requires Enabled(s, e) && Gone(Apply(s, e), w) && Apply(s, e).workers[w].queue != []
    requires !(Gone(s, w) && s.workers[w].queue != [])
    ensures Gone(s, w) && e.Send? && Uses(s, e, w)
  {
  }

  /** In every run, considerate or not, a job is left with a worker that is gone only when it was sent there after the worker
      had left: leaving drains the channel first. */
  lemma {:induction false} LeavingDrainsFirst(es: seq<Event>, s: State, w: nat)
    requires Leads(INITIAL, es, s) && Gone(s, w) && s.workers[w].queue != []
    ensures exists k: nat :: SentTooLate(es, k, w)
  {
    RunHappens(es, s);
    assert es[..|es|] == es;
    LeftBehind(es, |es|, w);
  }

  // ---------- Order ----------

  lemma {:induction false} ForKeyHas(jobs: seq<Job>, key: Key, job: Job)
    ensures job in ForKey(jobs, key) <==> job in jobs && job.key == key
  {
    if jobs != [] { ForKeyHas(jobs[..|jobs| - 1], key, job); }
  }

  /** Cutting a list at i cuts its jobs of a key. */
  lemma {:induction false} ForKeyCut(jobs: seq<Job>, i: nat, key: Key)
    requires i <= |jobs|
    ensures |ForKey(jobs[..i], key)| <= |ForKey(jobs, key)| && ForKey(jobs, key)[..|ForKey(jobs[..i], key)|] == ForKey(jobs[..i], key)
    decreases |jobs|
  {
    if i < |jobs| {
      ForKeyCut(jobs[..|jobs| - 1], i, key);
      assert jobs[..|jobs| - 1][..i] == jobs[..i];
    } else {
      assert jobs[..i] == jobs;
    }
  }

  /** Jobs of one key run one after the other in the order sent: when one has started, those sent before it have finished. */
  lemma {:induction false} OneAfterTheOther(es: seq<Event>, s: State, i: nat, j: nat)
    requires Leads(INITIAL, es, s) && Considerate(INITIAL, es)
    requires i < j < |s.sent| && s.sent[i].key == s.sent[j].key && s.sent[j] in s.started
    ensures s.sent[i] in s.finished
  {
    var key := s.sent[j].key;
    RunKeeps(INITIAL, es, s);
    assert InOrder(s, key);
    ForKeyHas(s.started, key, s.sent[j]);
    OnceInKey(s.sent, key);
    PlacesInKey(s.sent, i, j, key);
    BeforeIsFinished(ForKey(s.sent, key), ForKey(s.finished, key), RunningOf(s, key), QueueOf(s, key),
                     |ForKey(s.sent[..i], key)|, |ForKey(s.sent[..j], key)|);
    ForKeyHas(s.finished, key, s.sent[i]);
  }

  /** At most one of the jobs started is not finished. */
  lemma {:induction false} BeforeIsFinished(sent: seq<Job>, finished: seq<Job>, running: seq<Job>, queue: seq<Job>, a: nat, b: nat)
    requires sent == finished + running + queue && |running| <= 1 && a < b < |sent|
    requires forall x, y :: 0 <= x < y < |sent| ==> sent[x] != sent[y]
    requires sent[b] in finished + running
    ensures sent[a] in finished
  {
    var c :| 0 <= c < |finished + running| && (finished + running)[c] == sent[b];
    assert sent[c] == sent[b];
    assert c == b;
    assert finished[a] == sent[a];
  }

  lemma {:induction false} PlacesInKey(jobs: seq<Job>, i: nat, j: nat, key: Key)
    requires i < j < |jobs| && jobs[i].key == key && jobs[j].key == key
    ensures var a, b := |ForKey(jobs[..i], key)|, |ForKey(jobs[..j], key)|;
            a < b < |ForKey(jobs, key)| && ForKey(jobs, key)[a] == jobs[i] && ForKey(jobs, key)[b] == jobs[j]
  {
    PlaceInKey(jobs, i, key);
    PlaceInKey(jobs, j, key);
    ForKeyCut(jobs[..j], i + 1, key);
    assert jobs[..j][..i + 1] == jobs[..i + 1];
  }

  lemma {:induction false} PlaceInKey(jobs: seq<Job>, i: nat, key: Key)
    requires i < |jobs| && jobs[i].key == key
    ensures |ForKey(jobs[..i], key)| < |ForKey(jobs, key)| && ForKey(jobs, key)[|ForKey(jobs[..i], key)|] == jobs[i]
    ensures ForKey(jobs[..i + 1], key) == ForKey(jobs[..i], key) + [jobs[i]]
  {
    assert jobs[..i + 1] == jobs[..i] + [jobs[i]];
    ForKeyAppend(jobs[..i], jobs[i], key);
    ForKeyCut(jobs, i + 1, key);
  }

  lemma {:induction false} OnceInKey(jobs: seq<Job>, key: Key)
    requires forall i, j :: 0 <= i < j < |jobs| ==> jobs[i].id != jobs[j].id
    ensures forall b, c :: 0 <= b < c < |ForKey(jobs, key)| ==> ForKey(jobs, key)[b] != ForKey(jobs, key)[c]
  {
    if jobs != [] {
      var n := |jobs| - 1;
      OnceInKey(jobs[..n], key);
      ForKeyHas(jobs[..n], key, jobs[n]);
    }
  }

  // ---------- Waiting can end ----------

  ghost function Pending(s: State): set<nat> { set id | id in s.producers && s.producers[id].Announced? }

  ghost predicate Draining(es: seq<Event>) {
    forall e :: e in es ==> e.Attach? || e.Send? || e.Take? || e.Finish?
  }

  lemma {:induction false} ThenDrains(s: State, e: Event, es: seq<Event>, t: State)
    requires Enabled(s, e) && Draining([e]) && Leads(Apply(s, e), es, t) && Draining(es)
    ensures Leads(s, [e] + es, t) && Draining([e] + es)
  {
    LeadsBack(s, e, es, t);
    assert e in [e];
  }

  /** From every sound state the workers can work everything off, without reaps and without giving up, and then the wait group is at
      zero. */
  lemma {:induction false} CanDrain(s: State) returns (es: seq<Event>, t: State)
    requires Inv(s)
    ensures Leads(s, es, t) && Draining(es) && t.wg == 0 && t.abandoned == s.abandoned
    decreases |Pending(s)|, |s.producers|, Load(s.workers)
  {
    if id :| id in Pending(s) {
      es, t := DrainAfterAttach(s, id);
    } else if w: nat :| w < |s.workers| && s.workers[w].running.Some? {
      es, t := DrainAfterFinish(s, w);
    } else if w: nat :| w < |s.workers| && s.workers[w].queue != [] {
      es, t := DrainAfterTake(s, w);
    } else if id :| id in s.producers {
      es, t := DrainAfterSend(s, id);
    } else {
      NoLoad(s.workers);
      assert s.producers == map[];
      es, t := [], s;
    }
  }

  lemma {:induction false} NoLoad(ws: seq<Worker>)
    requires forall w :: 0 <= w < |ws| ==> ws[w].queue == [] && ws[w].running.None?
    ensures Load(ws) == 0
  {
    if ws != [] { NoLoad(ws[..|ws| - 1]); }
  }

  lemma {:induction false} DrainAfterAttach(s: State, id: nat) returns (es: seq<Event>, t: State)
    requires Inv(s) && id in Pending(s)
    ensures Leads(s, es, t) && Draining(es) && t.wg == 0 && t.abandoned == s.abandoned
    decreases |Pending(s)|, |s.producers|, Load(s.workers), 0
  {
    var e := Attach(id, 1, 1, 0);
    StepKeeps(s, e);
    AttachedIsNotPending(s, e);
    var s' := Apply(s, e);
    var rest;
    rest, t := CanDrain(s');
    ThenDrains(s, e, rest, t);
    es := [e] + rest;
  }

  lemma {:induction false} AttachedIsNotPending(s: State, e: Event)
    requires e.Attach? && e.id in Pending(s)
    ensures Enabled(s, e) && Pending(Apply(s, e)) == Pending(s) - {e.id} && |Pending(Apply(s, e))| < |Pending(s)|
    ensures Apply(s, e).abandoned == s.abandoned
  {
    forall id ensures id in Pending(Apply(s, e)) <==> id in Pending(s) - {e.id} {}
    assert Pending(Apply(s, e)) == Pending(s) - {e.id};
  }

  lemma {:induction false} DrainAfterFinish(s: State, w: nat) returns (es: seq<Event>, t: State)
    requires Inv(s) && w < |s.workers| && s.workers[w].running.Some?
    ensures Leads(s, es, t) && Draining(es) && t.wg == 0 && t.abandoned == s.abandoned
    decreases |Pending(s)|, |s.producers|, Load(s.workers), 0
  {
    var e := Finish(w, 0);
    StepKeeps(s, e);
    var s' := Apply(s, e);
    assert Pending(s') == Pending(s);
    LoadUpdate(s.workers, w, s'.workers[w]);
    var rest;
    rest, t := CanDrain(s');
    ThenDrains(s, e, rest, t);
    es := [e] + rest;
  }

  lemma {:induction false} DrainAfterTake(s: State, w: nat) returns (es: seq<Event>, t: State)
    requires Inv(s) && w < |s.workers| && s.workers[w].running.None? && s.workers[w].queue != []
    ensures Leads(s, es, t) && Draining(es) && t.wg == 0 && t.abandoned == s.abandoned
    decreases |Pending(s)|, |s.producers|, Load(s.workers), 0
  {
    assert WorkerOk(s, w);
    var take, finish := Take(w), Finish(w, 0);
    StepKeeps(s, take);
    var s1 := Apply(s, take);
    StepKeeps(s1, finish);
    var s2 := Apply(s1, finish);
    assert Pending(s2) == Pending(s);
    LoadUpdate(s.workers, w, s1.workers[w]);
    LoadUpdate(s1.workers, w, s2.workers[w]);
    var rest;
    rest, t := CanDrain(s2);
    ThenDrains(s1, finish, rest, t);
    ThenDrains(s, take, [finish] + rest, t);
    es := [take] + ([finish] + rest);
  }

  lemma {:induction false} DrainAfterSend(s: State, id: nat) returns (es: seq<Event>, t: State)
    requires Inv(s) && id in s.producers && Pending(s) == {}
    requires forall w :: 0 <= w < |s.workers| ==> s.workers[w].queue == []
    ensures Leads(s, es, t) && Draining(es) && t.wg == 0 && t.abandoned == s.abandoned
    decreases |Pending(s)|, |s.producers|, Load(s.workers), 0
  {
    assert id !in Pending(s);
    assert ProducerOk(s, id);
    var e := Send(id, 0);
    assert WorkerOk(s, s.producers[id].worker);
    StepKeeps(s, e);
    var s' := Apply(s, e);
    assert Pending(s') == {};
    OneProducerLess(s, id);
    var rest;
    rest, t := CanDrain(s');
    ThenDrains(s, e, rest, t);
    es := [e] + rest;
  }

  /** So in every considerate run waiting can end, with every job finished that was sent or still to be sent. */
  lemma {:induction false} WaitCanEnd(es: seq<Event>, s: State) returns (more: seq<Event>, t: State)
    requires Leads(INITIAL, es, s) && Considerate(INITIAL, es)
    ensures Leads(s, more, t) && Draining(more) && t.wg == 0
    ensures forall id :: id in t.begun ==> id in s.abandoned || exists k :: 0 <= k < |t.finished| && t.finished[k].id == id
  {
    RunKeeps(INITIAL, es, s);
    more, t := CanDrain(s);
    DrainingIsConsiderate(s, more, t);
    RunKeeps(s, more, t);
    forall id | id in t.begun && id !in s.abandoned ensures exists k :: 0 <= k < |t.finished| && t.finished[k].id == id {
      DoneAtZero(t, id);
    }
  }

  lemma {:induction false} DrainingIsConsiderate(s: State, es: seq<Event>, t: State)
    requires Leads(s, es, t) && Draining(es)
    ensures Considerate(s, es)
  {
    NoReaps(s, es, t);
  }

  lemma {:induction false} DoneAtZero(t: State, id: nat)
    requires Inv(t) && t.wg == 0 && id in t.begun && id !in t.abandoned
    ensures exists k :: 0 <= k < |t.finished| && t.finished[k].id == id
  {
    assert id !in t.producers;
    assert !Unsent(t, id);
    var i :| 0 <= i < |t.sent| && t.sent[i].id == id;
    var key := t.sent[i].key;
    assert InOrder(t, key);
    if key in t.current { LoadCovers(t.workers, t.current[key]); }
    ForKeyHas(t.sent, key, t.sent[i]);
    ForKeyHas(t.finished, key, t.sent[i]);
    var k :| 0 <= k < |t.finished| && t.finished[k] == t.sent[i];
  }
}
