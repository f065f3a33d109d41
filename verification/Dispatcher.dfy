/** The keyed FIFO dispatcher for ordered async actions, as the atomic steps its
    goroutines interleave (ordered.go). */
module Dispatcher {
  import opened Common

  /** What the action's KeyFn returned. */
  datatype Key = Key(name: string)

  const DEFAULT_BUFFER: nat := 64
  const DEFAULT_IDLE_TIMEOUT: int := 30_000_000_000

  datatype Job = Job(id: nat, key: Key)

  /** A worker goroutine with its channel.  `closed` is the reaper's tombstone and
      stop signal; an exited worker receives nothing any more. */
  datatype Worker = Worker(
    key: Key, cap: nat, queue: seq<Job>, running: Option<Job>, closed: bool, exited: bool,
    lastActive: int, idleTimeout: int)

  /** A dispatch call in progress: counted in the wait group, then holding the
      worker it will send to, perhaps blocked on a full channel. */
  datatype Producer =
    | Announced(job: Job)
    | Holding(job: Job, worker: nat, blocked: bool)

  /** The last four fields are history: ids ever dispatched, ids given up, and the
      jobs in the order sent, begun and finished. */
  datatype State = State(
    workers: seq<Worker>, current: map<Key, nat>, producers: map<nat, Producer>, wg: int,
    begun: set<nat>, abandoned: set<nat>, sent: seq<Job>, started: seq<Job>, finished: seq<Job>)

  const INITIAL := State([], map[], map[], 0, {}, {}, [], [], [])

  datatype Event =
    | Announce(job: Job)
    | Attach(id: nat, bufferSize: int, idleTimeout: int, now: int)
    | Send(id: nat, now: int)
    | Block(id: nat)
    | GiveUp(id: nat)
    | Take(w: nat)
    | Finish(w: nat, now: int)
    | Reap(w: nat, now: int)
    | Exit(w: nat)

  predicate Holds(s: State, id: nat) {
    id in s.producers && s.producers[id].Holding? && s.producers[id].worker < |s.workers|
  }

  predicate Enabled(s: State, e: Event) {
    match e
    case Announce(job) => job.id !in s.begun
    case Attach(id, _, _, _) => id in s.producers && s.producers[id].Announced?
    case Send(id, _) => Holds(s, id) && var w := s.workers[s.producers[id].worker]; |w.queue| < w.cap
    case Block(id) => Holds(s, id) && var w := s.workers[s.producers[id].worker]; |w.queue| >= w.cap
    case GiveUp(id) => Holds(s, id) && s.producers[id].blocked
    case Take(w) => w < |s.workers| && var k := s.workers[w]; !k.exited && k.running.None? && k.queue != []
    case Finish(w, _) => w < |s.workers| && s.workers[w].running.Some?
    case Reap(w, now) =>
      && w < |s.workers|
      && var k := s.workers[w];
         && k.key in s.current && s.current[k.key] == w
         && k.queue == [] && now - k.lastActive >= k.idleTimeout && !k.closed
    case Exit(w) => w < |s.workers| && var k := s.workers[w]; k.closed && !k.exited && k.running.None? && k.queue == []
  }

  function NewWorker(key: Key, bufferSize: int, idleTimeout: int, now: int): Worker {
    Worker(key, if bufferSize <= 0 then DEFAULT_BUFFER else bufferSize, [], None, false, false,
           now, if idleTimeout <= 0 then DEFAULT_IDLE_TIMEOUT else idleTimeout)
  }

  function Apply(s: State, e: Event): State
    requires Enabled(s, e)
  {
    match e
    case Announce(job) =>
      s.(producers := s.producers[job.id := Announced(job)], wg := s.wg + 1, begun := s.begun + {job.id})
    case Attach(id, bufferSize, idleTimeout, now) =>
      var job := s.producers[id].job;
      if job.key in s.current && s.current[job.key] < |s.workers| && !s.workers[s.current[job.key]].closed then
        s.(producers := s.producers[id := Holding(job, s.current[job.key], false)])
      else
        s.(workers := s.workers + [NewWorker(job.key, bufferSize, idleTimeout, now)],
           current := s.current[job.key := |s.workers|],
           producers := s.producers[id := Holding(job, |s.workers|, false)])
    case Send(id, now) =>
      var p := s.producers[id];
      var w := s.workers[p.worker];
      s.(workers := s.workers[p.worker := w.(queue := w.queue + [p.job], lastActive := now)],
         producers := s.producers - {id}, sent := s.sent + [p.job])
    case Block(id) =>
      s.(producers := s.producers[id := s.producers[id].(blocked := true)])
    case GiveUp(id) =>
      s.(producers := s.producers - {id}, wg := s.wg - 1, abandoned := s.abandoned + {id})
    case Take(w) =>
      var k := s.workers[w];
      s.(workers := s.workers[w := k.(queue := k.queue[1..], running := Some(k.queue[0]))],
         started := s.started + [k.queue[0]])
    case Finish(w, now) =>
      var k := s.workers[w];
      s.(workers := s.workers[w := k.(running := None, lastActive := now)], wg := s.wg - 1,
         finished := s.finished + [k.running.value])
    case Reap(w, _) =>
      s.(workers := s.workers[w := s.workers[w].(closed := true)], current := s.current - {s.workers[w].key})
    case Exit(w) =>
      s.(workers := s.workers[w := s.workers[w].(exited := true)])
  }

  // ---------- What must hold ----------

  function ForKey(jobs: seq<Job>, key: Key): seq<Job> {
    if jobs == [] then []
    else ForKey(jobs[..|jobs| - 1], key) + if jobs[|jobs| - 1].key == key then [jobs[|jobs| - 1]] else []
  }

  function QueueOf(s: State, key: Key): seq<Job> {
    if key in s.current && s.current[key] < |s.workers| then s.workers[s.current[key]].queue else []
  }

  function RunningOf(s: State, key: Key): seq<Job> {
    if key in s.current && s.current[key] < |s.workers| && s.workers[s.current[key]].running.Some?
    then [s.workers[s.current[key]].running.value] else []
  }

  /** Queued and running jobs, over all workers. */
  function Load(ws: seq<Worker>): nat {
    if ws == [] then 0
    else Load(ws[..|ws| - 1]) + |ws[|ws| - 1].queue| + if ws[|ws| - 1].running.Some? then 1 else 0
  }

  ghost predicate IsCurrent(s: State, w: nat)
    requires w < |s.workers|
  {
    s.workers[w].key in s.current && s.current[s.workers[w].key] == w
  }

  /** A key's one working worker is the current one; a retired worker is empty. */
  ghost predicate WorkerOk(s: State, w: nat)
    requires w < |s.workers|
  {
    var k := s.workers[w];
    && k.cap > 0
    && (k.exited ==> k.closed)
    && (IsCurrent(s, w) <==> !k.closed)
    && (k.closed ==> k.queue == [] && k.running.None?)
    && (forall i :: 0 <= i < |k.queue| ==> k.queue[i].key == k.key)
    && (k.running.Some? ==> k.running.value.key == k.key)
  }

  ghost predicate ProducerOk(s: State, id: nat)
    requires id in s.producers
  {
    var p := s.producers[id];
    && p.job.id == id && id in s.begun && id !in s.abandoned && Unsent(s, id)
    && (p.Holding? ==> p.worker < |s.workers| && s.workers[p.worker].key == p.job.key && IsCurrent(s, p.worker))
  }

  ghost predicate Unsent(s: State, id: nat) {
    forall i :: 0 <= i < |s.sent| ==> s.sent[i].id != id
  }

  /** Every job ever dispatched is pending, abandoned, or sent, just once. */
  ghost predicate Accounted(s: State) {
    && (forall id :: id in s.begun ==> id in s.producers || id in s.abandoned || !Unsent(s, id))
    && (forall id :: id in s.abandoned ==> id in s.begun && Unsent(s, id))
    && (forall i :: 0 <= i < |s.sent| ==> s.sent[i].id in s.begun)
    && (forall i, j :: 0 <= i < j < |s.sent| ==> s.sent[i].id != s.sent[j].id)
  }

  /** Same-key jobs start in send order, and finish in start order one at a time. */
  ghost predicate InOrder(s: State, key: Key) {
    && ForKey(s.sent, key) == ForKey(s.started, key) + QueueOf(s, key)
    && ForKey(s.started, key) == ForKey(s.finished, key) + RunningOf(s, key)
  }

  /** Workers, the key table and the producers fit together. */
  ghost predicate Fits(s: State) {
    && (forall key :: key in s.current ==> s.current[key] < |s.workers| && s.workers[s.current[key]].key == key)
    && (forall w :: 0 <= w < |s.workers| ==> WorkerOk(s, w))
    && (forall id :: id in s.producers ==> ProducerOk(s, id))
  }

  ghost predicate AllInOrder(s: State) {
    forall key :: InOrder(s, key)
  }

  ghost predicate Inv(s: State) {
    Fits(s) && Accounted(s) && AllInOrder(s) && s.wg == |s.producers| + Load(s.workers)
  }

  // ---------- Each step keeps it ----------

  lemma {:induction false} LoadUpdate(ws: seq<Worker>, w: nat, k: Worker)
    requires w < |ws|
    ensures Load(ws[w := k]) == Load(ws) - |ws[w].queue| - (if ws[w].running.Some? then 1 else 0)
                                + |k.queue| + (if k.running.Some? then 1 else 0)
  {
    var front := ws[..|ws| - 1];
    if w == |ws| - 1 {
      assert ws[w := k][..|ws| - 1] == front;
    } else {
      assert ws[w := k][..|ws| - 1] == front[w := k];
      LoadUpdate(front, w, k);
    }
  }

  /** The only reaps the safety argument needs excluded are those of a worker that
      a producer holds or that is running a job. */
  ghost predicate Quiet(s: State, w: nat)
    requires w < |s.workers|
  {
    && s.workers[w].running.None?
    && forall id :: id in s.producers && s.producers[id].Holding? ==> s.producers[id].worker != w
  }

  lemma {:induction false} ForKeyAppend(jobs: seq<Job>, j: Job, key: Key)
    ensures ForKey(jobs + [j], key) == ForKey(jobs, key) + if j.key == key then [j] else []
  {
    assert (jobs + [j])[..|jobs|] == jobs;
  }

  lemma {:induction false} AnnounceKeeps(s: State, job: Job)
    requires Inv(s) && Enabled(s, Announce(job))
    ensures Inv(Apply(s, Announce(job)))
  {
    var s' := Apply(s, Announce(job));
    assert job.id !in s.producers;
    forall w | 0 <= w < |s.workers| ensures WorkerOk(s', w) { assert WorkerOk(s, w); }
    forall id | id in s'.producers ensures ProducerOk(s', id) { if id in s.producers { assert ProducerOk(s, id); } }
    forall key ensures InOrder(s', key) { assert InOrder(s, key); }
  }

  lemma {:induction false} AttachKeeps(s: State, e: Event)
    requires Inv(s) && e.Attach? && Enabled(s, e)
    ensures Inv(Apply(s, e))
  {
    var s' := Apply(s, e);
    var job := s.producers[e.id].job;
    assert ProducerOk(s, e.id);
    assert s'.producers.Keys == s.producers.Keys;
    assert |s'.producers| == |s.producers.Keys|;
    if job.key in s.current {
      assert WorkerOk(s, s.current[job.key]);
      assert s'.workers == s.workers && s'.current == s.current;
      forall w | 0 <= w < |s'.workers| ensures WorkerOk(s', w) { assert WorkerOk(s, w); }
      forall id | id in s'.producers ensures ProducerOk(s', id) { assert ProducerOk(s, id); }
      forall key ensures InOrder(s', key) { assert InOrder(s, key); }
    } else {
      AttachNewKeeps(s, e);
    }
  }

  lemma {:induction false} AttachNewKeeps(s: State, e: Event)
    requires Inv(s) && e.Attach? && Enabled(s, e) && s.producers[e.id].job.key !in s.current
    ensures var s' := Apply(s, e); Fits(s') && Accounted(s') && AllInOrder(s') && Load(s'.workers) == Load(s.workers)
  {
    var s' := Apply(s, e);
    assert s'.workers[..|s.workers|] == s.workers;
    AttachNewFits(s, e);
    forall key ensures InOrder(s', key) {
      assert InOrder(s, key);
      AttachMovesNothing(s, e, key);
    }
  }

  lemma {:induction false} AttachNewFits(s: State, e: Event)
    requires Fits(s) && e.Attach? && Enabled(s, e) && s.producers[e.id].job.key !in s.current
    ensures Fits(Apply(s, e))
  {
    var s' := Apply(s, e);
    assert ProducerOk(s, e.id);
    forall w | 0 <= w < |s'.workers| ensures WorkerOk(s', w) {
      if w < |s.workers| { assert WorkerOk(s, w); }
    }
    forall id | id in s'.producers ensures ProducerOk(s', id) { assert ProducerOk(s, id); }
  }

  lemma {:induction false} AttachMovesNothing(s: State, e: Event, key: Key)
    requires Fits(s) && e.Attach? && Enabled(s, e) && s.producers[e.id].job.key !in s.current
    ensures QueueOf(Apply(s, e), key) == QueueOf(s, key) && RunningOf(Apply(s, e), key) == RunningOf(s, key)
  {
  }

  lemma {:induction false} SendKeeps(s: State, e: Event)
    requires Inv(s) && e.Send? && Enabled(s, e)
    ensures Inv(Apply(s, e))
  {
    var s' := Apply(s, e);
    var w := s.producers[e.id].worker;
    LoadUpdate(s.workers, w, s'.workers[w]);
    OneProducerLess(s, e.id);
    SendFits(s, e);
    SendOrder(s, e);
    SendAccounted(s, e);
  }

  lemma {:induction false} OneProducerLess(s: State, id: nat)
    requires id in s.producers
    ensures |s.producers - {id}| == |s.producers| - 1
  {
    assert (s.producers - {id}).Keys == s.producers.Keys - {id};
    assert |s.producers.Keys - {id}| == |s.producers.Keys| - 1;
  }

  lemma {:induction false} SendFits(s: State, e: Event)
    requires Fits(s) && e.Send? && Enabled(s, e)
    ensures Fits(Apply(s, e))
  {
    var s' := Apply(s, e);
    assert ProducerOk(s, e.id);
    forall w | 0 <= w < |s'.workers| ensures WorkerOk(s', w) { assert WorkerOk(s, w); }
    forall id | id in s'.producers ensures ProducerOk(s', id) { assert ProducerOk(s, id); }
  }

  lemma {:induction false} SendOrder(s: State, e: Event)
    requires Fits(s) && AllInOrder(s) && e.Send? && Enabled(s, e)
    ensures AllInOrder(Apply(s, e))
  {
    forall key ensures InOrder(Apply(s, e), key) {
      assert InOrder(s, key);
      SendOrderAt(s, e, key);
    }
  }

  lemma {:induction false} SendOrderAt(s: State, e: Event, key: Key)
    requires Fits(s) && InOrder(s, key) && e.Send? && Enabled(s, e)
    ensures InOrder(Apply(s, e), key)
  {
    var job := s.producers[e.id].job;
    var moved := if key == job.key then [job] else [];
    ForKeyAppend(s.sent, job, key);
    SendMovesOne(s, e, key);
    Regroup(ForKey(s.started, key), QueueOf(s, key), moved);
  }

  lemma {:induction false} SendMovesOne(s: State, e: Event, key: Key)
    requires Fits(s) && e.Send? && Enabled(s, e)
    ensures var job := s.producers[e.id].job;
            QueueOf(Apply(s, e), key) == QueueOf(s, key) + if key == job.key then [job] else []
    ensures RunningOf(Apply(s, e), key) == RunningOf(s, key)
  {
    assert ProducerOk(s, e.id);
  }

  lemma {:induction false} SendAccounted(s: State, e: Event)
    requires Fits(s) && Accounted(s) && e.Send? && Enabled(s, e)
    ensures Accounted(Apply(s, e))
  {
    var job := s.producers[e.id].job;
    assert ProducerOk(s, e.id);
    var sent' := s.sent + [job];
    forall id ensures (exists i :: 0 <= i < |sent'| && sent'[i].id == id) <==> id == job.id || !Unsent(s, id) {
      if id == job.id { assert sent'[|s.sent|].id == id; }
      if i :| 0 <= i < |s.sent| && s.sent[i].id == id { assert sent'[i].id == id; }
    }
  }

  lemma {:induction false} BlockKeeps(s: State, e: Event)
    requires Inv(s) && e.Block? && Enabled(s, e)
    ensures Inv(Apply(s, e))
  {
    var s' := Apply(s, e);
    assert s'.producers.Keys == s.producers.Keys;
    assert |s'.producers| == |s.producers.Keys|;
    forall w | 0 <= w < |s'.workers| ensures WorkerOk(s', w) { assert WorkerOk(s, w); }
    forall id | id in s'.producers ensures ProducerOk(s', id) { assert ProducerOk(s, id); }
    forall key ensures InOrder(s', key) { assert InOrder(s, key); }
  }

  lemma {:induction false} GiveUpKeeps(s: State, e: Event)
    requires Inv(s) && e.GiveUp? && Enabled(s, e)
    ensures Inv(Apply(s, e))
  {
    var s' := Apply(s, e);
    assert ProducerOk(s, e.id);
    assert |s.producers - {e.id}| == |s.producers| - 1 by {
      assert (s.producers - {e.id}).Keys == s.producers.Keys - {e.id};
      assert |s.producers.Keys - {e.id}| == |s.producers.Keys| - 1;
    }
    forall w | 0 <= w < |s'.workers| ensures WorkerOk(s', w) { assert WorkerOk(s, w); }
    forall id | id in s'.producers ensures ProducerOk(s', id) { assert ProducerOk(s, id); }
    forall key ensures InOrder(s', key) { assert InOrder(s, key); }
  }

  lemma {:induction false} TakeKeeps(s: State, e: Event)
    requires Inv(s) && e.Take? && Enabled(s, e)
    ensures Inv(Apply(s, e))
  {
    var s' := Apply(s, e);
    LoadUpdate(s.workers, e.w, s'.workers[e.w]);
    WorkerStepFits(s, s', e.w);
    TakeOrder(s, e);
  }

  /** A worker moves its own jobs along; nothing else changes. */
  lemma {:induction false} WorkerStepFits(s: State, s': State, w: nat)
    requires Fits(s) && w < |s.workers| == |s'.workers| && s'.workers == s.workers[w := s'.workers[w]]
    requires s'.current == s.current && s'.producers == s.producers
    requires s'.begun == s.begun && s'.abandoned == s.abandoned && s'.sent == s.sent
    requires var k, k' := s.workers[w], s'.workers[w];
             && !(k.closed && k.queue == [] && k.running.None?)
             && k'.key == k.key && k'.cap == k.cap && k'.closed == k.closed && k'.exited == k.exited
             && (forall j :: j in k'.queue ==> j in k.queue)
             && (k'.running.Some? ==> k'.running.value in k.queue)
    ensures Fits(s')
  {
    assert WorkerOk(s, w);
    forall v | 0 <= v < |s'.workers| ensures WorkerOk(s', v) {
      assert WorkerOk(s, v);
      if v == w {
        var k' := s'.workers[w];
        forall i | 0 <= i < |k'.queue| ensures k'.queue[i].key == k'.key { assert k'.queue[i] in k'.queue; }
      }
    }
    forall id | id in s'.producers ensures ProducerOk(s', id) { assert ProducerOk(s, id); }
  }

  lemma {:induction false} TakeOrder(s: State, e: Event)
    requires Fits(s) && AllInOrder(s) && e.Take? && Enabled(s, e)
    ensures AllInOrder(Apply(s, e))
  {
    forall key ensures InOrder(Apply(s, e), key) {
      assert InOrder(s, key);
      TakeOrderAt(s, e, key);
    }
  }

  lemma {:induction false} TakeOrderAt(s: State, e: Event, key: Key)
    requires Fits(s) && InOrder(s, key) && e.Take? && Enabled(s, e)
    ensures InOrder(Apply(s, e), key)
  {
    var head := s.workers[e.w].queue[0];
    var moved := if key == s.workers[e.w].key then [head] else [];
    assert head.key == s.workers[e.w].key by { assert WorkerOk(s, e.w); }
    ForKeyAppend(s.started, head, key);
    TakeMovesOne(s, e, key);
    Regroup(ForKey(s.started, key), moved, QueueOf(Apply(s, e), key));
    Regroup(ForKey(s.finished, key), RunningOf(s, key), moved);
  }

  lemma {:induction false} Regroup(a: seq<Job>, b: seq<Job>, c: seq<Job>)
    ensures (a + b) + c == a + (b + c)
  {
  }

  lemma {:induction false} TakeMovesOne(s: State, e: Event, key: Key)
    requires Fits(s) && e.Take? && Enabled(s, e)
    ensures var s' := Apply(s, e);
            var moved := if key == s.workers[e.w].key then [s.workers[e.w].queue[0]] else [];
            && QueueOf(s, key) == moved + QueueOf(s', key)
            && RunningOf(s', key) == RunningOf(s, key) + moved
  {
    assert WorkerOk(s, e.w);
  }

  lemma {:induction false} FinishKeeps(s: State, e: Event)
    requires Inv(s) && e.Finish? && Enabled(s, e)
    ensures Inv(Apply(s, e))
  {
    var s' := Apply(s, e);
    LoadUpdate(s.workers, e.w, s'.workers[e.w]);
    WorkerStepFits(s, s', e.w);
    FinishOrder(s, e);
  }

  lemma {:induction false} FinishOrder(s: State, e: Event)
    requires Fits(s) && AllInOrder(s) && e.Finish? && Enabled(s, e)
    ensures AllInOrder(Apply(s, e))
  {
    forall key ensures InOrder(Apply(s, e), key) {
      assert InOrder(s, key);
      FinishOrderAt(s, e, key);
    }
  }

  lemma {:induction false} FinishOrderAt(s: State, e: Event, key: Key)
    requires Fits(s) && InOrder(s, key) && e.Finish? && Enabled(s, e)
    ensures InOrder(Apply(s, e), key)
  {
    var job := s.workers[e.w].running.value;
    assert job.key == s.workers[e.w].key by { assert WorkerOk(s, e.w); }
    ForKeyAppend(s.finished, job, key);
    FinishMovesOne(s, e, key);
    var s' := Apply(s, e);
    assert s'.sent == s.sent && s'.started == s.started && s'.finished == s.finished + [job];
    assert ForKey(s'.finished, key) + RunningOf(s', key) == ForKey(s.finished, key) + RunningOf(s, key);
  }

  lemma {:induction false} FinishMovesOne(s: State, e: Event, key: Key)
    requires Fits(s) && e.Finish? && Enabled(s, e)
    ensures QueueOf(Apply(s, e), key) == QueueOf(s, key)
    ensures RunningOf(s, key) == if key == s.workers[e.w].key then [s.workers[e.w].running.value] else RunningOf(Apply(s, e), key)
    ensures key == s.workers[e.w].key ==> RunningOf(Apply(s, e), key) == []
  {
    assert WorkerOk(s, e.w);
  }

  lemma {:induction false} ReapKeeps(s: State, e: Event)
    requires Inv(s) && e.Reap? && Enabled(s, e) && Quiet(s, e.w)
    ensures Inv(Apply(s, e))
  {
    var s' := Apply(s, e);
    var gone := s.workers[e.w].key;
    LoadUpdate(s.workers, e.w, s'.workers[e.w]);
    forall w | 0 <= w < |s'.workers| ensures WorkerOk(s', w) {
      assert WorkerOk(s, w);
      assert s'.workers[w].key == s.workers[w].key;
    }
    forall id | id in s'.producers ensures ProducerOk(s', id) {
      assert ProducerOk(s, id);
      assert Unsent(s', id);
    }
    ReapKeepsOrder(s, e);
  }

  lemma {:induction false} ReapKeepsOrder(s: State, e: Event)
    requires Inv(s) && e.Reap? && Enabled(s, e) && Quiet(s, e.w)
    ensures forall key :: InOrder(Apply(s, e), key)
  {
    var s' := Apply(s, e);
    forall key ensures InOrder(s', key) {
      assert InOrder(s, key);
      assert QueueOf(s', key) == QueueOf(s, key);
      assert RunningOf(s', key) == RunningOf(s, key);
    }
  }

  lemma {:induction false} ExitKeeps(s: State, e: Event)
    requires Inv(s) && e.Exit? && Enabled(s, e)
    ensures Inv(Apply(s, e))
  {
    var s' := Apply(s, e);
    LoadUpdate(s.workers, e.w, s'.workers[e.w]);
    forall w | 0 <= w < |s'.workers| ensures WorkerOk(s', w) { assert WorkerOk(s, w); }
    forall id | id in s'.producers ensures ProducerOk(s', id) { assert ProducerOk(s, id); }
    forall key ensures InOrder(s', key) {
      assert InOrder(s, key);
      ExitMovesNothing(s, e, key);
    }
  }

  lemma {:induction false} ExitMovesNothing(s: State, e: Event, key: Key)
    requires e.Exit? && Enabled(s, e)
    ensures QueueOf(Apply(s, e), key) == QueueOf(s, key) && RunningOf(Apply(s, e), key) == RunningOf(s, key)
  {
  }

  /** One step, reaps of quiet workers only, keeps everything. */
  lemma {:induction false} StepKeeps(s: State, e: Event)
    requires Inv(s) && Enabled(s, e) && (e.Reap? ==> Quiet(s, e.w))
    ensures Inv(Apply(s, e))
  {
    match e
    case Announce(job) => AnnounceKeeps(s, job);
    case Attach(_, _, _, _) => AttachKeeps(s, e);
    case Send(_, _) => SendKeeps(s, e);
    case Block(_) => BlockKeeps(s, e);
    case GiveUp(_) => GiveUpKeeps(s, e);
    case Take(_) => TakeKeeps(s, e);
    case Finish(_, _) => FinishKeeps(s, e);
    case Reap(_, _) => ReapKeeps(s, e);
    case Exit(_) => ExitKeeps(s, e);
  }

  // ---------- Runs ----------

  /** `es` can happen from `s`, one after the other, and lead to `t`. */
  ghost predicate Leads(s: State, es: seq<Event>, t: State)
    decreases |es|
  {
    if es == [] then s == t
    else Enabled(s, es[0]) && Leads(Apply(s, es[0]), es[1..], t)
  }

  /** Every reap on the way finds its worker quiet. */
  ghost predicate Considerate(s: State, es: seq<Event>)
    decreases |es|
  {
    es == [] ||
    (Enabled(s, es[0]) && (es[0].Reap? ==> Quiet(s, es[0].w)) && Considerate(Apply(s, es[0]), es[1..]))
  }

  lemma {:induction false} RunKeeps(s: State, es: seq<Event>, t: State)
    requires Inv(s) && Leads(s, es, t) && Considerate(s, es)
    ensures Inv(t)
    decreases |es|
  {
    if es != [] {
      StepKeeps(s, es[0]);
      RunKeeps(Apply(s, es[0]), es[1..], t);
    }
  }

  /** Two goroutines running jobs of one key at once. */
  ghost predicate Clash(s: State) {
    exists v, w :: 0 <= v < w < |s.workers| && s.workers[v].key == s.workers[w].key
                   && s.workers[v].running.Some? && s.workers[w].running.Some?
  }

  /** A job in the channel of a goroutine that is gone. */
  ghost predicate Lost(s: State) {
    exists w :: 0 <= w < |s.workers| && s.workers[w].exited && s.workers[w].queue != []
  }

  /** Safety of every run from the start whose reaps are of quiet workers: same-key
      jobs run one at a time in send order, every dispatched job is pending,
      abandoned or sent exactly once, no sent job is lost, and the wait group counts
      pending, queued and running jobs. */
  lemma {:induction false} DispatcherIsSafe(es: seq<Event>, s: State)
    requires Leads(INITIAL, es, s) && Considerate(INITIAL, es)
    ensures !Clash(s) && !Lost(s) && Accounted(s)
    ensures forall key :: ForKey(s.sent, key) == ForKey(s.finished, key) + RunningOf(s, key) + QueueOf(s, key)
    ensures s.wg == |s.producers| + Load(s.workers)
  {
    RunKeeps(INITIAL, es, s);
    InvIsSafe(s);
    forall key ensures ForKey(s.sent, key) == ForKey(s.finished, key) + RunningOf(s, key) + QueueOf(s, key) {
      assert InOrder(s, key);
    }
  }

  lemma {:induction false} InvIsSafe(s: State)
    requires Inv(s)
    ensures !Clash(s) && !Lost(s)
  {
    forall v, w | 0 <= v < w < |s.workers| && s.workers[v].key == s.workers[w].key
      ensures s.workers[v].running.None? || s.workers[w].running.None?
    {
      assert WorkerOk(s, v) && WorkerOk(s, w);
    }
    forall w | 0 <= w < |s.workers| && s.workers[w].exited ensures s.workers[w].queue == [] { assert WorkerOk(s, w); }
  }

  /** When the wait group is at zero, nothing is pending and every job ever sent
      has finished, in send order per key. */
  lemma {:induction false} WaitMeansDone(es: seq<Event>, s: State, key: Key)
    requires Leads(INITIAL, es, s) && Considerate(INITIAL, es) && s.wg == 0
    ensures s.producers == map[] && ForKey(s.finished, key) == ForKey(s.sent, key)
  {
    RunKeeps(INITIAL, es, s);
    assert InOrder(s, key);
    if key in s.current { LoadCovers(s.workers, s.current[key]); }
  }

  lemma {:induction false} LoadCovers(ws: seq<Worker>, w: nat)
    requires w < |ws|
    ensures Load(ws) >= |ws[w].queue| + if ws[w].running.Some? then 1 else 0
  {
    if w < |ws| - 1 { LoadCovers(ws[..|ws| - 1], w); }
  }

  // ---------- The condition is exact ----------

  lemma {:induction false} FreshId(ids: set<nat>) returns (id: nat)
    ensures id !in ids
  {
    if ids == {} {
      id := 0;
    } else {
      var top := Largest(ids);
      id := top + 1;
    }
  }

  lemma {:induction false} Largest(ids: set<nat>) returns (top: nat)
    requires ids != {}
    ensures top in ids && forall x :: x in ids ==> x <= top
  {
    var x :| x in ids;
    if ids == {x} {
      top := x;
    } else {
      var rest := Largest(ids - {x});
      top := if rest < x then x else rest;
      forall y | y in ids ensures y <= top { assert y == x || y in ids - {x}; }
    }
  }

  /** From any sound state, a reap of a worker that is running a job or held by a
      producer can be followed by steps that run two jobs of one key at once, or
      send a job nobody will ever receive. */
  lemma {:induction false} UnquietReapBreaks(s: State, e: Event) returns (es: seq<Event>, t: State)
    requires Inv(s) && e.Reap? && Enabled(s, e) && !Quiet(s, e.w)
    ensures Leads(Apply(s, e), es, t) && (Clash(t) || Lost(t))
  {
    assert WorkerOk(s, e.w);
    if s.workers[e.w].running.Some? {
      es, t := ReapedWhileRunning(s, e);
    } else {
      es, t := ReapedWhileHeld(s, e);
    }
  }

  lemma {:induction false} ReapedWhileRunning(s: State, e: Event) returns (es: seq<Event>, t: State)
    requires Inv(s) && e.Reap? && Enabled(s, e) && s.workers[e.w].running.Some?
    ensures Leads(Apply(s, e), es, t) && Clash(t)
  {
    var s1 := Apply(s, e);
    var id := FreshId(s.begun);
    es, t := FreshWorkerStarts(s1, Job(id, s.workers[e.w].key), e.now);
    assert t.workers[e.w] == s1.workers[e.w];
  }

  /** A key without a worker gets one that starts the next job at once. */
  lemma {:induction false} FreshWorkerStarts(s: State, job: Job, now: int) returns (es: seq<Event>, t: State)
    requires job.id !in s.begun && job.key !in s.current
    ensures Leads(s, es, t) && |t.workers| == |s.workers| + 1 && t.workers[..|s.workers|] == s.workers
    ensures var w := t.workers[|s.workers|];
            && w.key == job.key && w.running.Some? && w.queue == [] && !w.closed
            && t.current == s.current[job.key := |s.workers|]
    ensures forall e :: e in es ==> !e.Reap?
  {
    var v := |s.workers|;
    var s2 := Apply(s, Announce(job));
    var s3 := Apply(s2, Attach(job.id, 1, 1, now));
    var s4 := Apply(s3, Send(job.id, now));
    t := Apply(s4, Take(v));
    LeadsBack(s4, Take(v), [], t);
    LeadsBack(s3, Send(job.id, now), [Take(v)] + [], t);
    LeadsBack(s2, Attach(job.id, 1, 1, now), [Send(job.id, now)] + ([Take(v)] + []), t);
    es := [Announce(job)] + ([Attach(job.id, 1, 1, now)] + ([Send(job.id, now)] + ([Take(v)] + [])));
    LeadsBack(s, Announce(job), [Attach(job.id, 1, 1, now)] + ([Send(job.id, now)] + ([Take(v)] + [])), t);
  }

  lemma {:induction false} ReapedWhileHeld(s: State, e: Event) returns (es: seq<Event>, t: State)
    requires Inv(s) && e.Reap? && Enabled(s, e) && !Quiet(s, e.w) && s.workers[e.w].running.None?
    ensures Leads(Apply(s, e), es, t) && Lost(t)
  {
    assert WorkerOk(s, e.w);
    var id :| id in s.producers && s.producers[id].Holding? && s.producers[id].worker == e.w;
    var s1 := Apply(s, e);
    var s2 := Apply(s1, Exit(e.w));
    t := Apply(s2, Send(id, e.now));
    LeadsBack(s2, Send(id, e.now), [], t);
    assert [Send(id, e.now)] + [] == [Send(id, e.now)];
    es := [Exit(e.w)] + [Send(id, e.now)];
    LeadsBack(s1, Exit(e.w), [Send(id, e.now)], t);
    assert t.workers[e.w].exited && t.workers[e.w].queue != [];
  }

  lemma {:induction false} LeadsBack(s: State, e: Event, es: seq<Event>, t: State)
    requires Enabled(s, e) && Leads(Apply(s, e), es, t)
    ensures Leads(s, [e] + es, t)
  {
    assert ([e] + es)[1..] == es;
  }

  /** Such reaps do happen: a job that outlives the idle timeout with nothing queued
      behind it looks idle to the reaper. */
  lemma {:induction false} LongJobIsReaped()
    ensures exists es, s, e: Event :: Leads(INITIAL, es, s) && Considerate(INITIAL, es)
              && e.Reap? && Enabled(s, e) && !Quiet(s, e.w)
  {
    var job := Job(0, Key(""));
    var es, s := FreshWorkerStarts(INITIAL, job, 0);
    NoReaps(INITIAL, es, s);
    var e := Reap(0, s.workers[0].lastActive + s.workers[0].idleTimeout);
    assert Enabled(s, e) && !Quiet(s, e.w);
  }

  /** A producer that has its worker and has yet to send. */
  lemma {:induction false} WorkerHeld() returns (es: seq<Event>, s: State)
    ensures Leads(INITIAL, es, s) && forall e :: e in es ==> !e.Reap?
    ensures |s.workers| == 1 && s.workers[0] == NewWorker(Key(""), 1, 1, 0)
    ensures s.current == map[Key("") := 0] && s.producers == map[0 := Holding(Job(0, Key("")), 0, false)]
  {
    var job := Job(0, Key(""));
    var s1 := Apply(INITIAL, Announce(job));
    s := Apply(s1, Attach(0, 1, 1, 0));
    LeadsBack(s1, Attach(0, 1, 1, 0), [], s);
    es := [Announce(job)] + ([Attach(0, 1, 1, 0)] + []);
    LeadsBack(INITIAL, Announce(job), [Attach(0, 1, 1, 0)] + [], s);
  }

  ghost predicate ReapsHeld(es: seq<Event>, s: State, e: Event) {
    && Leads(INITIAL, es, s) && Considerate(INITIAL, es)
    && e.Reap? && Enabled(s, e) && !Quiet(s, e.w) && s.workers[e.w].running.None?
  }

  /** That worker can look idle too; once it is reaped the job can be sent to nobody. */
  lemma {:induction false} HeldWorkerIsReaped()
    ensures exists es, s, e: Event, fs, t :: ReapsHeld(es, s, e) && Leads(Apply(s, e), fs, t) && Lost(t)
  {
    var es, s := WorkerHeld();
    NoReaps(INITIAL, es, s);
    RunKeeps(INITIAL, es, s);
    var e := Reap(0, 1);
    assert s.producers[0].Holding? && s.producers[0].worker == 0;
    assert ReapsHeld(es, s, e);
    var fs, t := ReapedWhileHeld(s, e);
  }

  lemma {:induction false} NoReaps(s: State, es: seq<Event>, t: State)
    requires Leads(s, es, t) && forall e :: e in es ==> !e.Reap?
    ensures Considerate(s, es)
    decreases |es|
  {
    if es != [] {
      NoReaps(Apply(s, es[0]), es[1..], t);
    }
  }
}
