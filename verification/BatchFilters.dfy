/** Filter chains over one value and over many at once (hooks/bus.go: ApplyFilters, ApplyBatch).
    Handlers are deterministic; the extra arguments of a call are part of the handler. */
module BatchFilters {
  import opened Common

  datatype Fault = ShortCircuit | Failure(text: string) | Panic(handler: nat)

  /** What a handler does: it returns a value with perhaps an error, or it panics. */
  datatype Outcome<T> = Returned(value: T, err: Option<Fault>) | Panicked

  /** A batch handler is given a slice that it may also write: `leaves` is what it leaves at
      each place of the slice it was given. */
  datatype Handler<!T> =
    | PerItem(run: T -> Outcome<T>)
    | Batch(runAll: seq<T> -> Outcome<seq<T>>, leaves: (seq<T>, nat) -> T)

  datatype Filter<!T> = Filter(active: bool, handler: Handler<T>)

  datatype Schema<!T> = Unchecked | Checked(reject: T -> Option<string>)
  {
    predicate Accepts(v: T) { this.Unchecked? || reject(v).None? }
  }

  // ---------- One value ----------

  /** A batch handler serves single values through singleton batches. */
  function Invoked<T>(h: Handler<T>, index: nat, v: T): (T, Option<Fault>) {
    match h
    case PerItem(run) =>
      (match run(v) case Panicked => (v, Some(Panic(index))) case Returned(next, err) => (next, err))
    case Batch(runAll, _) =>
      match runAll([v])
      case Panicked => (v, Some(Panic(index)))
      case Returned(out, err) =>
        if err.Some? then (v, err)
        else if |out| != 1 then (v, Some(Failure("wrong number of items for singleton input")))
        else (out[0], None)
  }

  function ChainFrom<T>(chain: seq<Filter<T>>, k: nat, v: T): (T, Option<Fault>)
    requires k <= |chain|
    decreases |chain| - k
  {
    if k == |chain| then (v, None)
    else if !chain[k].active then ChainFrom(chain, k + 1, v)
    else
      var (next, err) := Invoked(chain[k].handler, k, v);
      if err.None? then ChainFrom(chain, k + 1, next)
      else if err == Some(ShortCircuit) then (next, None)
      else (v, err)
  }

  // ---------- Many values ----------

  /** The first item from i on that the handler does not simply accept. */
  function FirstTrouble<T>(run: T -> Outcome<T>, items: seq<T>, i: nat): (n: nat)
    requires i <= |items|
    ensures i <= n <= |items|
    ensures forall j :: i <= j < n ==> run(items[j]).Returned? && run(items[j]).err.None?
    ensures n < |items| ==> run(items[n]).Panicked? || run(items[n]).err.Some?
    decreases |items| - i
  {
    if i < |items| && run(items[i]).Returned? && run(items[i]).err.None? then FirstTrouble(run, items, i + 1) else i
  }

  function Kept<T>(run: T -> Outcome<T>, items: seq<T>, n: nat): (r: seq<T>)
    requires n <= |items| && forall j :: 0 <= j < n ==> run(items[j]).Returned?
    ensures |r| == n && forall j :: 0 <= j < n ==> r[j] == run(items[j]).value
  {
    seq(n, j requires 0 <= j < n => run(items[j]).value)
  }

  /** The slice a handler was given, once it returns. */
  function LeftIn<T>(h: Handler<T>, items: seq<T>): (r: seq<T>)
    ensures |r| == |items|
  {
    match h
    case PerItem(_) => items
    case Batch(_, leaves) => seq(|items|, i requires 0 <= i < |items| => leaves(items, i))
  }

  function InvokedAll<T>(h: Handler<T>, index: nat, items: seq<T>): (seq<T>, Option<Fault>) {
    match h
    case Batch(runAll, _) =>
      (match runAll(items)
       case Panicked => (LeftIn(h, items), Some(Panic(index)))
       case Returned(out, err) => (out, err))
    case PerItem(run) =>
      var n := FirstTrouble(run, items, 0);
      if n == |items| then (Kept(run, items, n), None)
      else
        match run(items[n])
        case Panicked => (items, Some(Panic(index)))
        case Returned(next, err) =>
          if err == Some(ShortCircuit) then (Kept(run, items, n) + [next] + items[n + 1..], err)
          else (items, err)
  }

  function BatchFrom<T>(chain: seq<Filter<T>>, k: nat, items: seq<T>): (seq<T>, Option<Fault>)
    requires k <= |chain|
    decreases |chain| - k
  {
    if k == |chain| then (items, None)
    else if !chain[k].active then BatchFrom(chain, k + 1, items)
    else
      var (next, err) := InvokedAll(chain[k].handler, k, items);
      if err == Some(ShortCircuit) then (next, None)
      else if err.Some? then (LeftIn(chain[k].handler, items), err)
      else if |next| != |items| then BatchFrom(chain, k + 1, LeftIn(chain[k].handler, items))
      else BatchFrom(chain, k + 1, next)
  }

  function RejectedItem<T>(schema: Schema<T>, items: seq<T>, i: nat): (n: nat)
    requires i <= |items|
    ensures i <= n <= |items| && forall j :: i <= j < n ==> schema.Accepts(items[j])
    ensures n < |items| ==> !schema.Accepts(items[n])
    decreases |items| - i
  {
    if i < |items| && schema.Accepts(items[i]) then RejectedItem(schema, items, i + 1) else i
  }

  function Single<T>(schema: Schema<T>, chain: seq<Filter<T>>, v: T): (T, Option<Fault>) {
    if schema.Accepts(v) then ChainFrom(chain, 0, v) else (v, Some(Failure(schema.reject(v).value)))
  }

  function Whole<T>(schema: Schema<T>, chain: seq<Filter<T>>, items: seq<T>): (seq<T>, Option<Fault>) {
    var n := RejectedItem(schema, items, 0);
    if n < |items| then (items, Some(Failure(schema.reject(items[n]).value))) else BatchFrom(chain, 0, items)
  }

  // ---------- The two paths agree ----------

  /** On this slice the batch handler does what taking the items one by one would: it returns them
      all, or panics or fails as the first item that cannot be taken. */
  ghost predicate AgreesOn<T>(runAll: seq<T> -> Outcome<seq<T>>, run: T -> Outcome<T>, s: seq<T>) {
    var n := FirstTrouble(run, s, 0);
    if n == |s| then runAll(s) == Returned(Kept(run, s, n), None)
    else
      match run(s[n])
      case Panicked => runAll(s).Panicked?
      case Returned(_, err) => err != Some(ShortCircuit) && runAll(s).Returned? && runAll(s).err == err
  }

  ghost predicate ActsLike<T(!new)>(runAll: seq<T> -> Outcome<seq<T>>, run: T -> Outcome<T>) {
    forall s :: AgreesOn(runAll, run, s)
  }

  /** A batch handler that treats every item alike, whatever the batch, and may fail on some. */
  ghost predicate ItemWise<T(!new)>(h: Handler<T>) {
    h.Batch? ==> exists run :: ActsLike(h.runAll, run)
  }

  ghost predicate ItemWiseChain<T(!new)>(chain: seq<Filter<T>>) {
    forall k :: 0 <= k < |chain| ==> ItemWise(chain[k].handler)
  }

  /** One handler's effect on one value, inactive handlers passing it on. */
  function Stage<T>(filter: Filter<T>, k: nat, v: T): (T, Option<Fault>) {
    if filter.active then Invoked(filter.handler, k, v) else (v, None)
  }

  /** The value after the first k handlers, while none of them stops the chain. */
  function Through<T>(chain: seq<Filter<T>>, k: nat, v: T): Option<T>
    requires k <= |chain|
  {
    if k == 0 then Some(v)
    else
      match Through(chain, k - 1, v)
      case None => None
      case Some(w) =>
        var (next, err) := Stage(chain[k - 1], k - 1, w);
        if err.None? then Some(next) else None
  }

  ghost predicate AllThrough<T>(chain: seq<Filter<T>>, k: nat, items: seq<T>)
    requires k <= |chain|
  {
    forall i :: 0 <= i < |items| ==> Through(chain, k, items[i]).Some?
  }

  function ThroughAll<T>(chain: seq<Filter<T>>, k: nat, items: seq<T>): (r: seq<T>)
    requires k <= |chain| && forall i :: 0 <= i < |items| ==> Through(chain, k, items[i]).Some?
    ensures |r| == |items| && forall i :: 0 <= i < |items| ==> Through(chain, k, items[i]) == Some(r[i])
  {
    seq(|items|, i requires 0 <= i < |items| => Through(chain, k, items[i]).value)
  }

  /** What such a handler does to one value. */
  lemma {:induction false} StageOfOne<T(!new)>(filter: Filter<T>, k: nat, v: T, run: T -> Outcome<T>)
    requires filter.active && filter.handler.Batch? && ActsLike(filter.handler.runAll, run)
    ensures Stage(filter, k, v).1 == if run(v).Panicked? then Some(Panic(k)) else run(v).err
    ensures Stage(filter, k, v).1 != Some(ShortCircuit)
    ensures Stage(filter, k, v).1.None? ==> Stage(filter, k, v).0 == run(v).value
  {
    assert AgreesOn(filter.handler.runAll, run, [v]);
    var n := FirstTrouble(run, [v], 0);
    if n == 1 { assert Kept(run, [v], 1) == [run(v).value]; }
  }

  /** A handler that stops none of the items treats the batch as it treats each item. */
  lemma {:induction false} StageOfAll<T(!new)>(filter: Filter<T>, k: nat, items: seq<T>)
    requires filter.active && ItemWise(filter.handler)
    requires forall i :: 0 <= i < |items| ==> Stage(filter, k, items[i]).1.None?
    ensures InvokedAll(filter.handler, k, items).1.None?
    ensures |InvokedAll(filter.handler, k, items).0| == |items|
    ensures forall i :: 0 <= i < |items| ==> InvokedAll(filter.handler, k, items).0[i] == Stage(filter, k, items[i]).0
  {
    match filter.handler
    case PerItem(run) =>
      forall i | 0 <= i < |items| ensures run(items[i]).Returned? && run(items[i]).err.None? {
        assert Stage(filter, k, items[i]).1.None?;
      }
    case Batch(runAll, _) =>
      var run :| ActsLike(runAll, run);
      forall i | 0 <= i < |items|
        ensures run(items[i]).Returned? && run(items[i]).err.None? && run(items[i]).value == Stage(filter, k, items[i]).0
      {
        StageOfOne(filter, k, items[i], run);
      }
      assert AgreesOn(runAll, run, items);
  }

  lemma {:induction false} SingleReaches<T>(chain: seq<Filter<T>>, k: nat, v: T)
    requires k <= |chain| && Through(chain, k, v).Some?
    ensures ChainFrom(chain, 0, v) == ChainFrom(chain, k, Through(chain, k, v).value)
  {
    if k > 0 { SingleReaches(chain, k - 1, v); }
  }

  lemma {:induction false} BatchReaches<T(!new)>(chain: seq<Filter<T>>, k: nat, items: seq<T>)
    requires k <= |chain| && ItemWiseChain(chain) && AllThrough(chain, k, items)
    ensures BatchFrom(chain, 0, items) == BatchFrom(chain, k, ThroughAll(chain, k, items))
  {
    if k == 0 {
      assert ThroughAll(chain, 0, items) == items;
    } else {
      forall i | 0 <= i < |items| ensures Through(chain, k - 1, items[i]).Some? {
        assert Through(chain, k, items[i]).Some?;
      }
      BatchReaches(chain, k - 1, items);
      var before, after := ThroughAll(chain, k - 1, items), ThroughAll(chain, k, items);
      forall i | 0 <= i < |items| ensures Stage(chain[k - 1], k - 1, before[i]) == (after[i], None) {
        assert Through(chain, k, items[i]) == Some(after[i]);
      }
      if chain[k - 1].active {
        StageOfAll(chain[k - 1], k - 1, before);
        assert InvokedAll(chain[k - 1].handler, k - 1, before).0 == after;
      } else {
        assert before == after;
      }
    }
  }

  /** When each item's own run goes through the whole chain, the batch is those runs side by side. */
  lemma {:induction false} BatchIsItemwise<T(!new)>(schema: Schema<T>, chain: seq<Filter<T>>, items: seq<T>)
    requires ItemWiseChain(chain) && AllThrough(chain, |chain|, items)
    requires forall i :: 0 <= i < |items| ==> schema.Accepts(items[i])
    ensures Whole(schema, chain, items).1 == None && |Whole(schema, chain, items).0| == |items|
    ensures forall i :: 0 <= i < |items| ==>
              Single(schema, chain, items[i]) == (Whole(schema, chain, items).0[i], None)
  {
    BatchReaches(chain, |chain|, items);
    forall i | 0 <= i < |items| ensures Single(schema, chain, items[i]) == (Whole(schema, chain, items).0[i], None) {
      SingleReaches(chain, |chain|, items[i]);
    }
  }

  // ---------- What a stop does to the batch ----------

  /** Item i is the first that handler k stops, every item having got that far. */
  ghost predicate StopsAt<T>(chain: seq<Filter<T>>, items: seq<T>, k: nat, i: nat) {
    && k < |chain| && i < |items| && AllThrough(chain, k, items)
    && Through(chain, k + 1, items[i]).None?
    && forall j :: 0 <= j < i ==> Through(chain, k + 1, items[j]).Some?
  }

  lemma {:induction false} StopsSomewhere<T>(chain: seq<Filter<T>>, k: nat, items: seq<T>) returns (at: nat, i: nat)
    requires k <= |chain| && !AllThrough(chain, k, items)
    ensures at < k && StopsAt(chain, items, at, i)
  {
    if AllThrough(chain, k - 1, items) {
      at := k - 1;
      i := FirstStopped(chain, k, items, 0);
    } else {
      at, i := StopsSomewhere(chain, k - 1, items);
    }
  }

  lemma {:induction false} FirstStopped<T>(chain: seq<Filter<T>>, k: nat, items: seq<T>, from: nat) returns (i: nat)
    requires k <= |chain| && !AllThrough(chain, k, items) && from <= |items|
    requires forall j :: 0 <= j < from ==> Through(chain, k, items[j]).Some?
    ensures i < |items| && Through(chain, k, items[i]).None?
    ensures forall j :: 0 <= j < i ==> Through(chain, k, items[j]).Some?
    decreases |items| - from
  {
    if Through(chain, k, items[from]).None? { i := from; } else { i := FirstStopped(chain, k, items, from + 1); }
  }

  /** The first stop ends the run of every item. An error leaves the whole batch as the handlers
      before it made it, but for what the failing handler wrote; a short-circuit also keeps what this
      handler made of the items up to there. */
  lemma {:induction false} FirstStopEndsAll<T(!new)>(chain: seq<Filter<T>>, items: seq<T>, k: nat, i: nat)
    requires ItemWiseChain(chain) && StopsAt(chain, items, k, i)
    ensures var (out, err) := BatchFrom(chain, 0, items);
            var (mine, fault) := Stage(chain[k], k, Through(chain, k, items[i]).value);
            && fault.Some? && |out| == |items|
            && err == (if fault == Some(ShortCircuit) then None else fault)
            && (fault != Some(ShortCircuit) ==> out == LeftIn(chain[k].handler, ThroughAll(chain, k, items)))
            && (fault == Some(ShortCircuit) ==>
                  forall j :: 0 <= j < |items| ==>
                    Some(out[j]) == if j > i then Through(chain, k, items[j])
                                    else if j == i then Some(mine) else Through(chain, k + 1, items[j]))
  {
    BatchReaches(chain, k, items);
    StopsHere(chain, items, k, i);
    if chain[k].handler.Batch? {
      BatchStops(chain[k], k, ThroughAll(chain, k, items), i);
    } else {
      ItemStops(chain[k], k, ThroughAll(chain, k, items), i);
    }
  }

  /** Up to item i the handler accepts; item i it does not. */
  lemma {:induction false} StopsHere<T>(chain: seq<Filter<T>>, items: seq<T>, k: nat, i: nat)
    requires StopsAt(chain, items, k, i)
    ensures var before := ThroughAll(chain, k, items);
            && chain[k].active && Stage(chain[k], k, before[i]).1.Some?
            && forall j :: 0 <= j < i ==> Through(chain, k + 1, items[j]) == Some(Stage(chain[k], k, before[j]).0)
                                          && Stage(chain[k], k, before[j]).1.None?
  {
    var before := ThroughAll(chain, k, items);
    assert Through(chain, k, items[i]) == Some(before[i]);
    forall j | 0 <= j < i
      ensures Through(chain, k + 1, items[j]) == Some(Stage(chain[k], k, before[j]).0) && Stage(chain[k], k, before[j]).1.None?
    {
      assert Through(chain, k + 1, items[j]).Some? && Through(chain, k, items[j]) == Some(before[j]);
    }
  }

  lemma {:induction false} BatchStops<T(!new)>(filter: Filter<T>, k: nat, before: seq<T>, i: nat)
    requires filter.active && filter.handler.Batch? && ItemWise(filter.handler) && i < |before|
    requires Stage(filter, k, before[i]).1.Some? && forall j :: 0 <= j < i ==> Stage(filter, k, before[j]).1.None?
    ensures Stage(filter, k, before[i]).1 != Some(ShortCircuit)
    ensures InvokedAll(filter.handler, k, before).1 == Stage(filter, k, before[i]).1
  {
    var run :| ActsLike(filter.handler.runAll, run);
    forall j | 0 <= j <= i ensures (run(before[j]).Returned? && run(before[j]).err.None?) <==> j < i {
      StageOfOne(filter, k, before[j], run);
    }
    StageOfOne(filter, k, before[i], run);
    assert FirstTrouble(run, before, 0) == i;
    assert AgreesOn(filter.handler.runAll, run, before);
  }

  lemma {:induction false} ItemStops<T>(filter: Filter<T>, k: nat, before: seq<T>, i: nat)
    requires filter.active && filter.handler.PerItem? && i < |before|
    requires Stage(filter, k, before[i]).1.Some? && forall j :: 0 <= j < i ==> Stage(filter, k, before[j]).1.None?
    ensures InvokedAll(filter.handler, k, before).1 == Stage(filter, k, before[i]).1
    ensures Stage(filter, k, before[i]).1 == Some(ShortCircuit) ==>
              var out := InvokedAll(filter.handler, k, before).0;
              && |out| == |before|
              && forall j :: 0 <= j < |before| ==> out[j] == if j > i then before[j] else Stage(filter, k, before[j]).0
  {
    var run := filter.handler.run;
    forall j | 0 <= j <= i ensures (run(before[j]).Returned? && run(before[j]).err.None?) <==> j < i {
      assert j < i <==> Stage(filter, k, before[j]).1.None?;
    }
    assert FirstTrouble(run, before, 0) == i;
  }

  ghost predicate NoShortCircuit<T>(chain: seq<Filter<T>>, items: seq<T>) {
    forall i, k :: 0 <= i < |items| && 0 <= k < |chain| && Through(chain, k, items[i]).Some? ==>
      Stage(chain[k], k, Through(chain, k, items[i]).value).1 != Some(ShortCircuit)
  }

  /** Short of short-circuits, the batch fails exactly when some item alone would. */
  lemma {:induction false} BatchFailsExactlyWhen<T(!new)>(chain: seq<Filter<T>>, items: seq<T>)
    requires ItemWiseChain(chain) && NoShortCircuit(chain, items)
    ensures BatchFrom(chain, 0, items).1.Some? <==>
            exists i :: 0 <= i < |items| && ChainFrom(chain, 0, items[i]).1.Some?
  {
    if AllThrough(chain, |chain|, items) {
      BatchIsItemwise(Unchecked, chain, items);
      forall i | 0 <= i < |items| ensures ChainFrom(chain, 0, items[i]).1.None? {
        assert Single(Unchecked, chain, items[i]).1 == None;
      }
    } else {
      var k, i := StopsSomewhere(chain, |chain|, items);
      FirstStopEndsAll(chain, items, k, i);
      SingleReaches(chain, k, items[i]);
      assert Through(chain, k, items[i]).Some?;
      assert ChainFrom(chain, 0, items[i]).1.Some?;
    }
  }

  /** The rest of the chain would hand the value back as it is. */
  ghost predicate Settled<T>(chain: seq<Filter<T>>, k: nat, v: T)
    requires k <= |chain|
  {
    ChainFrom(chain, k, v) == (v, None)
  }

  /** A batch stopped by a short-circuit still agrees with the per-item runs exactly when the rest
      of the chain would have changed none of the other items. */
  lemma {:induction false} ShortCircuitAgreesExactlyWhen<T(!new)>(chain: seq<Filter<T>>, items: seq<T>, k: nat, i: nat)
    requires ItemWiseChain(chain) && StopsAt(chain, items, k, i)
    requires Stage(chain[k], k, Through(chain, k, items[i]).value).1 == Some(ShortCircuit)
    ensures |BatchFrom(chain, 0, items).0| == |items|
    ensures (forall j :: 0 <= j < |items| ==> ChainFrom(chain, 0, items[j]) == (BatchFrom(chain, 0, items).0[j], None)) <==>
            && (forall j :: 0 <= j < i ==> Settled(chain, k + 1, Through(chain, k + 1, items[j]).value))
            && (forall j :: i < j < |items| ==> Settled(chain, k, Through(chain, k, items[j]).value))
  {
    FirstStopEndsAll(chain, items, k, i);
    var out := BatchFrom(chain, 0, items).0;
    forall j | 0 <= j < |items|
      ensures ChainFrom(chain, 0, items[j]) == (out[j], None) <==>
              if j < i then Settled(chain, k + 1, Through(chain, k + 1, items[j]).value)
              else j == i || Settled(chain, k, Through(chain, k, items[j]).value)
    {
      if j < i {
        SingleReaches(chain, k + 1, items[j]);
      } else {
        assert Through(chain, k, items[j]).Some?;
        SingleReaches(chain, k, items[j]);
      }
    }
  }

  /** A filter that adds one, but stops at zero. */
  function Counting(): Filter<int> {
    Filter(true, PerItem((v: int) => if v == 0 then Returned(0, Some(ShortCircuit)) else Returned(v + 1, None)))
  }

  /** On zero and one it leaves the one alone in a batch, and makes it two by itself. */
  lemma {:induction false} ZeroHoldsBackOne()
    ensures BatchFrom([Counting()], 0, [0, 1]) == ([0, 1], None)
    ensures ChainFrom([Counting()], 0, 1) == (2, None)
  {
    var run := Counting().handler.run;
    assert FirstTrouble(run, [0, 1], 0) == 0;
    assert Kept(run, [0, 1], 0) + [0] + [0, 1][1..] == [0, 1];
    assert ChainFrom([Counting()], 1, 2) == (2, None);
  }

  // ---------- What an error gives back ----------

  /** A run so far: the last slice that was accepted, the handler it stands before, and what the run
      now holds, which handlers whose results were not accepted may have written since. */
  datatype Progress<T> = Progress(accepted: seq<T>, since: nat, current: seq<T>)

  /** The run before handler k, while none of the handlers stops it. */
  function Before<T>(chain: seq<Filter<T>>, k: nat, items: seq<T>): (r: Option<Progress<T>>)
    requires k <= |chain|
    ensures r.Some? ==> r.value.since <= k && |r.value.current| == |r.value.accepted|
  {
    if k == 0 then Some(Progress(items, 0, items))
    else
      match Before(chain, k - 1, items)
      case None => None
      case Some(run) =>
        if !chain[k - 1].active then Some(run)
        else
          var (next, err) := InvokedAll(chain[k - 1].handler, k - 1, run.current);
          if err.Some? then None
          else if |next| != |run.current| then Some(run.(current := LeftIn(chain[k - 1].handler, run.current)))
          else Some(Progress(next, k, next))
  }

  /** Handler e is the one that fails or panics. */
  ghost predicate FailsAt<T>(chain: seq<Filter<T>>, items: seq<T>, e: nat) {
    && e < |chain| && Before(chain, e, items).Some? && chain[e].active
    && var err := InvokedAll(chain[e].handler, e, Before(chain, e, items).value.current).1;
       err.Some? && err != Some(ShortCircuit)
  }

  /** What the active handlers from m to n-1 write over a slice, one after another. */
  function Written<T>(chain: seq<Filter<T>>, m: nat, n: nat, s: seq<T>): (r: seq<T>)
    requires m <= n <= |chain|
    ensures |r| == |s|
    decreases n
  {
    if m == n then s
    else
      var r := Written(chain, m, n - 1, s);
      if chain[n - 1].active then LeftIn(chain[n - 1].handler, r) else r
  }

  lemma {:induction false} HeldIsWritten<T>(chain: seq<Filter<T>>, k: nat, items: seq<T>)
    requires k <= |chain| && Before(chain, k, items).Some?
    ensures var run := Before(chain, k, items).value;
            && run.since <= k && run.current == Written(chain, run.since, k, run.accepted)
            && |run.accepted| == |items|
            && BatchFrom(chain, 0, items) == BatchFrom(chain, k, run.current)
  {
    if k > 0 { HeldIsWritten(chain, k - 1, items); }
  }

  /** A batch errs exactly when some handler fails in it. */
  lemma {:induction false} ErrsExactlyWhen<T>(chain: seq<Filter<T>>, items: seq<T>)
    ensures BatchFrom(chain, 0, items).1.Some? <==> exists e :: FailsAt(chain, items, e)
  {
    if e :| FailsAt(chain, items, e) { HeldIsWritten(chain, e, items); }
    if BatchFrom(chain, 0, items).1.Some? { var e := SomeFails(chain, 0, items); }
  }

  lemma {:induction false} SomeFails<T>(chain: seq<Filter<T>>, k: nat, items: seq<T>) returns (e: nat)
    requires k <= |chain| && Before(chain, k, items).Some?
    requires BatchFrom(chain, k, Before(chain, k, items).value.current).1.Some?
    ensures FailsAt(chain, items, e)
    decreases |chain| - k
  {
    if Before(chain, k + 1, items).Some? {
      e := SomeFails(chain, k + 1, items);
    } else {
      e := k;
    }
  }

  /** A batch that errs gives back the last accepted slice with the writes since put over it: those of
      handlers whose results were ignored, and of the failing one. It is the last accepted slice exactly
      when those writes, taken together, change nothing in it. */
  lemma {:induction false} ErrorShowsWritesExactlyWhen<T>(chain: seq<Filter<T>>, items: seq<T>, e: nat)
    requires FailsAt(chain, items, e)
    ensures var run := Before(chain, e, items).value;
            var written := Written(chain, run.since, e + 1, run.accepted);
            && BatchFrom(chain, 0, items) == (written, InvokedAll(chain[e].handler, e, run.current).1)
            && (BatchFrom(chain, 0, items).0 == run.accepted <==>
                  forall j :: 0 <= j < |run.accepted| ==> written[j] == run.accepted[j])
  {
    HeldIsWritten(chain, e, items);
  }

  /** In particular handlers that write nothing anew show nothing. */
  lemma {:induction false} NoWritesNothingShown<T>(chain: seq<Filter<T>>, m: nat, n: nat, s: seq<T>)
    requires m <= n <= |chain|
    requires forall k :: m <= k < n && chain[k].active ==> LeftIn(chain[k].handler, s) == s
    ensures Written(chain, m, n, s) == s
    decreases n
  {
    if m < n { NoWritesNothingShown(chain, m, n - 1, s); }
  }

  /** Writes a seven, and returns no items. */
  function Sevens(): Filter<int> {
    Filter(true, Batch((s: seq<int>) => Returned([], None), (s: seq<int>, i: nat) => 7))
  }

  /** Fails, and writes nothing anew. */
  function Failing(): Filter<int> {
    Filter(true, Batch((s: seq<int>) => Returned(s, Some(Failure("no"))),
                       (s: seq<int>, i: nat) => if i < |s| then s[i] else 0))
  }

  /** After an ignored handler wrote a seven, a failing one that writes nothing gives back the seven,
      although only the input was ever accepted. */
  lemma {:induction false} IgnoredWriteShows()
    ensures BatchFrom([Sevens(), Failing()], 0, [1]) == ([7], Some(Failure("no")))
    ensures FailsAt([Sevens(), Failing()], [1], 1) && Before([Sevens(), Failing()], 1, [1]) == Some(Progress([1], 0, [7]))
  {
    var chain := [Sevens(), Failing()];
    assert LeftIn(chain[0].handler, [1]) == [7] && LeftIn(chain[1].handler, [7]) == [7];
    assert InvokedAll(chain[0].handler, 0, [1]) == ([], None);
    assert InvokedAll(chain[1].handler, 1, [7]).1 == Some(Failure("no"));
    assert Before(chain, 0, [1]) == Some(Progress([1], 0, [1]));
    assert Before(chain, 1, [1]) == Some(Progress([1], 0, [7]));
    HeldIsWritten(chain, 1, [1]);
  }

  // ---------- The code ----------

  method ApplyFilters<T>(schema: Schema<T>, chain: seq<Filter<T>>, value: T) returns (out: T, err: Option<Fault>)
    ensures (out, err) == Single(schema, chain, value)
  {
    if schema.Checked? {
      var rejection := schema.reject(value);
      if rejection.Some? {
        return value, Some(Failure(rejection.value));
      }
    }
    out := value;
    for i := 0 to |chain|
      invariant ChainFrom(chain, 0, value) == ChainFrom(chain, i, out)
    {
      if chain[i].active {
        var (next, fault) := Invoked(chain[i].handler, i, out);
        if fault.Some? {
          if fault.value.ShortCircuit? {
            return next, None;
          }
          return out, fault;
        }
        out := next;
      }
    }
    return out, None;
  }

  /** Runs one handler on the whole slice, which it may write; on a panic that slice comes back. */
  method InvokeBatch<T>(h: Handler<T>, index: nat, items: array<T>) returns (out: array<T>, err: Option<Fault>)
    modifies items
    ensures (out[..], err) == InvokedAll(h, index, old(items[..]))
    ensures items[..] == LeftIn(h, old(items[..]))
    ensures out == items || fresh(out)
  {
    match h {
      case Batch(runAll, leaves) =>
        ghost var given := items[..];
        var outcome := runAll(items[..]);
        Scribble(leaves, items);
        assert items[..] == LeftIn(h, given);
        match outcome {
          case Panicked => return items, Some(Panic(index));
          case Returned(made, fault) =>
            out := new T[|made|](i requires 0 <= i < |made| => made[i]);
            assert out[..] == made;
            return out, fault;
        }
      case PerItem(run) =>
        out, err := InvokeEach(run, index, items);
    }
  }

  /** A handler's own writes to the slice it was given. */
  method Scribble<T>(leaves: (seq<T>, nat) -> T, items: array<T>)
    modifies items
    ensures forall i :: 0 <= i < items.Length ==> items[i] == leaves(old(items[..]), i)
  {
    var given := items[..];
    for i := 0 to items.Length
      invariant forall j :: 0 <= j < i ==> items[j] == leaves(given, j)
    {
      items[i] := leaves(given, i);
    }
  }

  method InvokeEach<T>(run: T -> Outcome<T>, index: nat, items: array<T>) returns (out: array<T>, err: Option<Fault>)
    ensures (out[..], err) == InvokedAll(PerItem(run), index, items[..])
    ensures out == items || fresh(out)
  {
    ghost var given := items[..];
    out := new T[items.Length](i requires 0 <= i < items.Length reads items => items[i]);
    var i := 0;
    ghost var done: seq<T> := [];
    while i < items.Length
      invariant 0 <= i == |done| <= items.Length == out.Length && items[..] == given
      invariant Accepted(run, given, i, done)
      invariant out[..] == done + given[i..]
    {
      var outcome := run(items[i]);
      assert outcome == run(given[i]);
      AcceptedSoFar(run, index, given, i, done);
      if outcome.Panicked? {
        return items, Some(Panic(index));
      }
      if outcome.err.Some? && !outcome.err.value.ShortCircuit? {
        return items, outcome.err;
      }
      out[i] := outcome.value;
      assert out[..] == (done + given[i..])[i := outcome.value] == done + [outcome.value] + given[i + 1..];
      if outcome.err.Some? {
        return out, outcome.err;
      }
      done := done + [outcome.value];
      i := i + 1;
    }
    AcceptedSoFar(run, index, given, i, done);
    assert out[..] == done;
    return out, None;
  }

  /** The first i items went through the handler and became `done`. */
  ghost predicate Accepted<T>(run: T -> Outcome<T>, items: seq<T>, i: nat, done: seq<T>) {
    i == |done| <= |items| && forall j :: 0 <= j < i ==> run(items[j]) == Returned(done[j], None)
  }

  lemma {:induction false} TroubleAfter<T>(run: T -> Outcome<T>, items: seq<T>, i: nat, done: seq<T>, from: nat)
    requires Accepted(run, items, i, done) && from <= i
    ensures FirstTrouble(run, items, from) == FirstTrouble(run, items, i)
    decreases i - from
  {
    if from < i { TroubleAfter(run, items, i, done, from + 1); }
  }

  /** What the whole call answers once the first i items have been accepted. */
  lemma {:induction false} AcceptedSoFar<T>(run: T -> Outcome<T>, index: nat, items: seq<T>, i: nat, done: seq<T>)
    requires Accepted(run, items, i, done)
    ensures i == |items| ==> InvokedAll(PerItem(run), index, items) == (done, None)
    ensures i < |items| && run(items[i]).Panicked? ==> InvokedAll(PerItem(run), index, items) == (items, Some(Panic(index)))
    ensures i < |items| && run(items[i]).Returned? && run(items[i]).err.Some? ==>
              InvokedAll(PerItem(run), index, items)
              == (if run(items[i]).err == Some(ShortCircuit) then done + [run(items[i]).value] + items[i + 1..] else items,
                  run(items[i]).err)
  {
    TroubleAfter(run, items, i, done, 0);
    if i == |items| || run(items[i]).Panicked? || run(items[i]).err.Some? {
      assert Kept(run, items, i) == done;
    }
  }

  /** The caller's slice is never written, whatever the handlers do to theirs: the chain works on a copy. */
  method ApplyBatch<T>(schema: Schema<T>, chain: seq<Filter<T>>, items: array<T>) returns (out: array<T>, err: Option<Fault>)
    ensures (out[..], err) == Whole(schema, chain, items[..])
    ensures out == items || fresh(out)
  {
    if schema.Checked? {
      for i := 0 to items.Length
        invariant RejectedItem(schema, items[..], 0) == RejectedItem(schema, items[..], i)
      {
        var rejection := schema.reject(items[i]);
        if rejection.Some? {
          return items, Some(Failure(rejection.value));
        }
      }
    }
    assert RejectedItem(schema, items[..], 0) == items.Length;
    if |chain| == 0 {
      return items, None;
    }
    out := new T[items.Length](i requires 0 <= i < items.Length reads items => items[i]);
    assert out[..] == items[..];
    for i := 0 to |chain|
      invariant fresh(out) && BatchFrom(chain, 0, items[..]) == BatchFrom(chain, i, out[..])
    {
      if chain[i].active {
        var next, fault := InvokeBatch(chain[i].handler, i, out);
        if fault.Some? {
          if fault.value.ShortCircuit? {
            return next, None;
          }
          return out, fault;
        }
        if next.Length == out.Length {
          out := next;
        }
      }
    }
    return out, None;
  }
}
