/** A hook's chain of subscribers under registration and unsubscription (bus.go). */
module HookBus {
  import opened Common
  import opened HookOrder
  import opened Permutations
  import opened Listings

  // ---------- The priority pre-sort ----------

  predicate Precedes(a: Registration, b: Registration) {
    a.priority < b.priority || (a.priority == b.priority && a.token < b.token)
  }

  lemma {:induction false} PrecedesOrders()
    ensures Orders(Precedes)
  {
  }

  function PrioritySort(regs: seq<Registration>): seq<Registration> { Sorted(Precedes, regs) }

  ghost predicate DistinctTokens(regs: seq<Registration>) {
    forall i, j :: 0 <= i < j < |regs| ==> regs[i].token != regs[j].token
  }

  ghost predicate InPriorityOrder(regs: seq<Registration>) {
    forall i, j :: 0 <= i < j < |regs| ==> Precedes(regs[i], regs[j])
  }

  ghost function Members(regs: seq<Registration>): (m: set<Registration>)
    ensures forall r :: r in m <==> r in regs
  {
    set r | r in regs
  }

  lemma {:induction false} PrioritySortSorts(regs: seq<Registration>)
    requires DistinctTokens(regs)
    ensures InPriorityOrder(PrioritySort(regs)) && DistinctTokens(PrioritySort(regs)) && Members(PrioritySort(regs)) == Members(regs)
    ensures |PrioritySort(regs)| == |regs|
    ensures var s := PrioritySort(regs);
            forall i, j :: 0 <= i < j < |s| ==> s[i].priority < s[j].priority || (s[i].priority == s[j].priority && s[i].token < s[j].token)
  {
    PrecedesOrders();
    var from := SortArranges(Precedes, regs);
    var sorted := PrioritySort(regs);
    forall a, b | 0 <= a < b < |sorted| ensures Precedes(sorted[a], sorted[b]) && sorted[a].token != sorted[b].token {
      assert Listings.Before(Precedes, regs, from[a], from[b]);
      assert regs[from[a]].token != regs[from[b]].token;
    }
    SortPermutes(Precedes, regs);
    forall r ensures r in Members(sorted) <==> r in Members(regs) {
      assert r in sorted <==> r in multiset(sorted);
      assert r in regs <==> r in multiset(regs);
    }
  }

  lemma {:induction false} EmptyMembers(a: seq<Registration>)
    ensures Members(a) == {} <==> a == []
  {
    if a != [] { assert a[0] in Members(a); }
  }

  /** The sorted list is determined by the set of its members. */
  lemma {:induction false} PriorityOrderUnique(a: seq<Registration>, b: seq<Registration>)
    requires InPriorityOrder(a) && InPriorityOrder(b) && Members(a) == Members(b)
    ensures a == b
  {
    EmptyMembers(a);
    EmptyMembers(b);
    if a != [] {
      var x := a[|a| - 1];
      SameLast(a, b);
      var fa, fb := a[..|a| - 1], b[..|b| - 1];
      assert a == fa + [x] && b == fb + [x];
      assert x !in fa && x !in fb;
      assert Members(fa) == Members(a) - {x} && Members(fb) == Members(b) - {x};
      PriorityOrderUnique(fa, fb);
    }
  }

  lemma {:induction false} SameLast(a: seq<Registration>, b: seq<Registration>)
    requires InPriorityOrder(a) && InPriorityOrder(b) && Members(a) == Members(b) && a != [] && b != []
    ensures a[|a| - 1] == b[|b| - 1]
  {
    assert a[|a| - 1] in Members(b) && b[|b| - 1] in Members(a);
    var i :| 0 <= i < |a| && a[i] == b[|b| - 1];
    var j :| 0 <= j < |b| && b[j] == a[|a| - 1];
  }

  // ---------- orderChain ----------

  ghost predicate Orderable(c: seq<Registration>) {
    exists p :: Greedy(c, p) && |p| == |c|
  }

  /** The least order of a chain that has one. */
  ghost function Ordered(c: seq<Registration>): (r: seq<Registration>)
    requires Orderable(c)
    ensures |r| == |c|
  {
    Arranged(c, Order(c))
  }

  ghost function Order(c: seq<Registration>): (p: seq<nat>)
    requires Orderable(c)
    ensures Greedy(c, p) && |p| == |c| && Indices(p, |c|)
  {
    var p :| Greedy(c, p) && |p| == |c|;
    GreedyIndices(c, p);
    p
  }

  lemma {:induction false} GreedyUnique(c: seq<Registration>, p: seq<nat>, q: seq<nat>)
    requires Greedy(c, p) && Greedy(c, q) && |p| == |q| == |c|
    ensures p == q
  {
    GreedyIsLeast(c, p);
    GreedyIsLeast(c, q);
  }

  ghost predicate Forward(c: seq<Registration>) {
    forall i, j :: 0 <= i < |c| && 0 <= j < |c| && Edge(c, i, j) ==> i < j
  }

  method OrderChain(c: seq<Registration>) returns (r: Result<seq<Registration>, seq<nat>>)
    ensures r.Ok? <==> Orderable(c)
    ensures r.Ok? ==> r.value == Ordered(c)
    ensures r.Err? <==> exists k :: Cycle(c, k)
    ensures if r.Ok? then Obeyed(r.value) && exists p :: FirstObeyed(c, p) && r.value == Arranged(c, p) else NoneObeyed(c)
  {
    var hasConstraints := false;
    for i := 0 to |c|
      invariant !hasConstraints && forall k :: 0 <= k < i ==> c[k].before == [] && c[k].after == []
    {
      if |c[i].before| > 0 || |c[i].after| > 0 {
        hasConstraints := true;
        break;
      }
    }
    if !hasConstraints {
      ForwardOrder(c);
      OrderedObeys(c);
      return Ok(c);
    }
    ghost var p: seq<nat>;
    r, p := TopoSort(c);
    SortVerdict(c, p, r);
  }

  lemma {:induction false} OrderedObeys(c: seq<Registration>)
    requires Orderable(c)
    ensures FirstObeyed(c, Order(c)) && Obeyed(Ordered(c)) && Ordered(c) == Arranged(c, Order(c))
  {
    GreedyIsObeyed(c, Order(c));
  }

  lemma {:induction false} ForwardIsObeyed(c: seq<Registration>)
    ensures Forward(c) <==> Obeyed(c)
  {
    var p := seq(|c|, i => i);
    assert Arranged(c, p) == c;
    TopologicalIsObeyed(c, p);
    if Forward(c) { assert Topological(c, p); }
    if Topological(c, p) {
      forall i, j | 0 <= i < |c| && 0 <= j < |c| && Edge(c, i, j) ensures i < j { assert Edge(c, p[i], p[j]); }
    }
  }

  /** No arrangement of a chain obeys its constraints exactly when it has no order. */
  lemma {:induction false} OrderableExactlyWhen(c: seq<Registration>)
    ensures Orderable(c) <==> !NoneObeyed(c)
  {
    OrderableOrCyclic(c);
    if Orderable(c) { OrderedObeys(c); }
    if k :| Cycle(c, k) { CycleObeysNothing(c, k); }
  }

  lemma {:induction false} SortVerdict(c: seq<Registration>, p: seq<nat>, r: Result<seq<Registration>, seq<nat>>)
    requires Greedy(c, p) && (|p| == |c| || exists k :: Cycle(c, k))
    requires r.Ok? <==> |p| == |c|
    requires r.Ok? ==> r.value == Arranged(c, p)
    ensures r.Ok? <==> Orderable(c)
    ensures r.Ok? ==> r.value == Ordered(c)
  {
    forall q | Greedy(c, q) && |q| == |c| ensures q == p {
      GreedyDecides(c, q);
      GreedyUnique(c, p, q);
    }
  }

  /** A chain already in a valid order is its own least order; so re-sorting it
      cannot fail and moves nothing.  This covers the path taken when nobody has a
      constraint. */
  lemma {:induction false} ForwardOrder(c: seq<Registration>)
    requires Forward(c)
    ensures Orderable(c) && Ordered(c) == c && !exists k :: Cycle(c, k)
  {
    var p := IdentityOrder(c, |c|);
    GreedyDecides(c, p);
    forall q | Greedy(c, q) && |q| == |c| ensures q == p { GreedyUnique(c, p, q); }
    ForwardIsIdentity(c, p);
    assert Arranged(c, p) == c;
  }

  lemma {:induction false} IdentityOrder(c: seq<Registration>, n: nat) returns (p: seq<nat>)
    requires Forward(c) && n <= |c|
    ensures |p| == n && Greedy(c, p)
  {
    if n == 0 {
      p := [];
    } else {
      var f := IdentityOrder(c, n - 1);
      ForwardIsIdentity(c, f);
      FirstFree(c, f);
      assert GreedyPick(c, f, n - 1);
      p := Extend(c, f, n - 1);
    }
  }

  lemma {:induction false} OrderedIsForward(c: seq<Registration>)
    requires Orderable(c)
    ensures Forward(Ordered(c)) && Members(Ordered(c)) == Members(c)
    ensures DistinctTokens(c) ==> DistinctTokens(Ordered(c))
  {
    var p := Order(c);
    GreedyIsTopological(c, p);
    CoversAll(p, |c|);
    var o := Ordered(c);
    forall i, j | 0 <= i < |o| && 0 <= j < |o| && Edge(o, i, j) ensures i < j {
      assert Edge(c, p[i], p[j]);
    }
    forall x ensures x in o <==> x in c {
      if k :| 0 <= k < |o| && o[k] == x { assert c[p[k]] == x; }
      if k :| 0 <= k < |c| && c[k] == x { var a := PositionOf(p, k); assert o[a] == x; }
    }
    if DistinctTokens(c) {
      forall i, j | 0 <= i < j < |o| ensures o[i].token != o[j].token {
        assert p[i] != p[j];
      }
    }
  }

  // ---------- The slot ----------

  /** The published chain, and the tokens whose active flag is up. */
  datatype Slot = Slot(chain: seq<Registration>, active: set<nat>)

  const EMPTY_SLOT := Slot([], {})

  function Live(c: seq<Registration>, active: set<nat>): (r: seq<Registration>)
    ensures forall x :: x in r <==> x in c && x.token in active
  {
    if c == [] then []
    else Live(c[..|c| - 1], active) + if c[|c| - 1].token in active then [c[|c| - 1]] else []
  }

  /** The order-determining input of a registration: everyone live, and the newcomer. */
  function Candidates(slot: Slot, reg: Registration): seq<Registration> {
    PrioritySort(Live(slot.chain, slot.active) + [reg])
  }

  ghost predicate Acceptable(slot: Slot, reg: Registration) {
    !SelfConstrained(reg) && Orderable(Candidates(slot, reg))
  }

  ghost function RegisterStep(slot: Slot, reg: Registration): Slot {
    if Acceptable(slot, reg) then Slot(Ordered(Candidates(slot, reg)), slot.active + {reg.token}) else slot
  }

  /** First half of an unsubscribe: readers stop calling the handler. */
  function DeactivateStep(slot: Slot, token: nat): Slot {
    slot.(active := slot.active - {token})
  }

  /** Second half: the chain is rebuilt without the tombstones. */
  ghost function RebuildStep(slot: Slot, token: nat): Slot {
    var pruned := Live(slot.chain, slot.active - {token});
    slot.(chain := if Orderable(pruned) then Ordered(pruned) else pruned)
  }

  ghost predicate Healthy(slot: Slot) {
    DistinctTokens(slot.chain) && Forward(slot.chain)
  }

  /** A registration that is in the chain and still active. */
  predicate IsLive(slot: Slot, r: Registration) {
    r in slot.chain && r.token in slot.active
  }

  /** Dropping entries keeps the others in order, and so keeps every constraint. */
  lemma {:induction false} LiveIsSubsequence(c: seq<Registration>, active: set<nat>) returns (at: seq<nat>)
    ensures |at| == |Live(c, active)|
    ensures forall k :: 0 <= k < |at| ==> at[k] < |c| && Live(c, active)[k] == c[at[k]]
    ensures forall k, l :: 0 <= k < l < |at| ==> at[k] < at[l]
  {
    if c == [] {
      at := [];
    } else {
      at := LiveIsSubsequence(c[..|c| - 1], active);
      if c[|c| - 1].token in active { at := at + [|c| - 1]; }
    }
  }

  lemma {:induction false} LiveStaysHealthy(c: seq<Registration>, active: set<nat>)
    requires DistinctTokens(c) && Forward(c)
    ensures DistinctTokens(Live(c, active)) && Forward(Live(c, active))
  {
    var at := LiveIsSubsequence(c, active);
    var l := Live(c, active);
    forall i, j | 0 <= i < |l| && 0 <= j < |l| && Edge(l, i, j) ensures i < j {
      assert Edge(c, at[i], at[j]);
    }
  }

  /** The list a registration is ordered from: everyone live and the newcomer. */
  lemma {:induction false} CandidatesMeaning(slot: Slot, reg: Registration)
    requires Healthy(slot) && forall x :: x in slot.chain ==> x.token != reg.token
    ensures var c := Candidates(slot, reg);
            && InPriorityOrder(c) && DistinctTokens(c)
            && (forall i, j :: 0 <= i < j < |c| ==> c[i].priority < c[j].priority || (c[i].priority == c[j].priority && c[i].token < c[j].token))
            && forall r :: r in Members(c) <==> IsLive(slot, r) || r == reg
  {
    var next := Live(slot.chain, slot.active) + [reg];
    LiveStaysHealthy(slot.chain, slot.active);
    PrioritySortSorts(next);
    assert forall r :: r in Members(next) <==> IsLive(slot, r) || r == reg;
  }

  /** A registration is refused exactly for naming itself or for closing a cycle,
      and a refused registration changes nothing.  An accepted one leaves in the
      chain exactly the live registrations and the newcomer, in the order least
      under the constraints. */
  lemma {:induction false} RegisterOutcome(slot: Slot, reg: Registration)
    requires Healthy(slot) && forall x :: x in slot.chain ==> x.token != reg.token
    ensures Acceptable(slot, reg) <==> !SelfConstrained(reg) && !exists k :: Cycle(Candidates(slot, reg), k)
    ensures Acceptable(slot, reg) <==>
            && (reg.source == "" || (reg.source !in reg.before && reg.source !in reg.after))
            && !NoneObeyed(Candidates(slot, reg))
    ensures var slot' := RegisterStep(slot, reg);
            if !Acceptable(slot, reg) then slot' == slot
            else
              && Healthy(slot') && Obeyed(slot'.chain)
              && (forall r :: r in slot'.chain <==> IsLive(slot, r) || r == reg)
              && (forall r :: IsLive(slot', r) <==> IsLive(slot, r) || r == reg)
  {
    var c := Candidates(slot, reg);
    CandidatesMeaning(slot, reg);
    OrderableOrCyclic(c);
    OrderableExactlyWhen(c);
    if Acceptable(slot, reg) {
      OrderedIsForward(c);
      ForwardIsObeyed(Ordered(c));
      var slot' := RegisterStep(slot, reg);
      forall r ensures r in slot'.chain <==> IsLive(slot, r) || r == reg {
        assert r in slot'.chain <==> r in Members(slot'.chain);
      }
    }
  }

  lemma {:induction false} OrderableOrCyclic(c: seq<Registration>)
    ensures Orderable(c) <==> !exists k :: Cycle(c, k)
  {
    if p :| Greedy(c, p) && |p| == |c| {
      GreedyDecides(c, p);
    } else {
      var p := LongestGreedy(c, []);
      StuckMeansCycle(c, p);
    }
  }

  lemma {:induction false} LongestGreedy(c: seq<Registration>, p: seq<nat>) returns (q: seq<nat>)
    requires Greedy(c, p)
    ensures Greedy(c, q) && (|q| == |c| || Stuck(c, q))
    decreases |c| - |p|
  {
    GreedyIndices(c, p);
    CoversAll(p, |c|);
    if |p| == |c| || Stuck(c, p) {
      q := p;
    } else {
      var i: nat :| i < |c| && Ready(c, p, i);
      var pick := LeastReady(c, p, i);
      q := LongestGreedy(c, Extend(c, p, pick));
    }
  }

  lemma {:induction false} LeastReady(c: seq<Registration>, p: seq<nat>, i: nat) returns (pick: nat)
    requires i < |c| && Ready(c, p, i)
    ensures GreedyPick(c, p, pick)
  {
    if j: nat :| j < i && Ready(c, p, j) {
      pick := LeastReady(c, p, j);
    } else {
      pick := i;
    }
  }

  /** The published order does not depend on how the chain came about: slots with
      the same live registrations publish the same chain. */
  lemma {:induction false} OrderForgetsHistory(a: Slot, b: Slot, reg: Registration)
    requires Healthy(a) && Healthy(b) && forall r :: IsLive(a, r) <==> IsLive(b, r)
    requires forall x :: x in a.chain || x in b.chain ==> x.token != reg.token
    ensures Acceptable(a, reg) <==> Acceptable(b, reg)
    ensures Acceptable(a, reg) ==> RegisterStep(a, reg).chain == RegisterStep(b, reg).chain
  {
    CandidatesMeaning(a, reg);
    CandidatesMeaning(b, reg);
    var ca, cb := Candidates(a, reg), Candidates(b, reg);
    forall r ensures r in Members(ca) <==> r in Members(cb) {}
    assert Members(ca) == Members(cb);
    PriorityOrderUnique(ca, cb);
  }

  /** An unsubscribe's re-sort cannot fail and keeps the survivors' relative order. */
  lemma {:induction false} RebuildKeepsOrder(slot: Slot, token: nat)
    requires Healthy(slot)
    ensures var pruned := Live(slot.chain, slot.active - {token});
            Orderable(pruned) && RebuildStep(slot, token).chain == pruned && Healthy(RebuildStep(slot, token))
  {
    LiveStaysHealthy(slot.chain, slot.active - {token});
    ForwardOrder(Live(slot.chain, slot.active - {token}));
  }

  // ---------- Runs ----------

  /** The steps that other goroutines can interleave. */
  datatype Event = Register(reg: Registration) | Deactivate(token: nat) | Rebuild(token: nat)

  ghost function After(slot: Slot, e: Event): Slot {
    match e
    case Register(reg) => RegisterStep(slot, reg)
    case Deactivate(token) => DeactivateStep(slot, token)
    case Rebuild(token) => RebuildStep(slot, token)
  }

  ghost function Run(es: seq<Event>): Slot {
    if es == [] then EMPTY_SLOT else After(Run(es[..|es| - 1]), es[|es| - 1])
  }

  /** The registrations accepted and not yet unsubscribed. */
  ghost function Subscribed(es: seq<Event>): set<Registration> {
    if es == [] then {}
    else
      var before := Subscribed(es[..|es| - 1]);
      match es[|es| - 1]
      case Register(reg) => if Acceptable(Run(es[..|es| - 1]), reg) then before + {reg} else before
      case Deactivate(token) => set r | r in before && r.token != token
      case Rebuild(_) => before
  }

  /** Tokens are handed out once; a rebuild follows its own deactivation. */
  ghost predicate Disciplined(es: seq<Event>) {
    && (forall i, j :: 0 <= i < j < |es| && es[i].Register? && es[j].Register? ==> es[i].reg.token != es[j].reg.token)
    && (forall j :: 0 <= j < |es| && es[j].Rebuild? ==> exists i :: 0 <= i < j && es[i] == Deactivate(es[j].token))
    && (forall i, j :: 0 <= i < j < |es| && es[j].Register? && es[i].Deactivate? ==> es[i].token != es[j].reg.token)
  }

  /** Where the chain's entries and the active tokens came from. */
  ghost predicate Traced(es: seq<Event>, slot: Slot) {
    && (forall r :: r in slot.chain ==> Register(r) in es)
    && (forall t :: t in slot.active ==> exists e :: e in es && e.Register? && e.reg.token == t)
    && (forall e :: e in es && e.Deactivate? ==> e.token !in slot.active)
  }

  ghost predicate Matches(slot: Slot, subscribed: set<Registration>) {
    forall r :: IsLive(slot, r) <==> r in subscribed
  }

  /** Over every run the live part of the chain is exactly what was accepted and not
      yet unsubscribed, in an order meeting every constraint between its members. */
  lemma {:induction false} ChainIsWhatIsSubscribed(es: seq<Event>)
    requires Disciplined(es)
    ensures Healthy(Run(es)) && Matches(Run(es), Subscribed(es)) && Traced(es, Run(es))
    ensures Obeyed(Run(es).chain) && Obeyed(Live(Run(es).chain, Run(es).active))
  {
    RunIsHealthy(es);
    HealthyIsObeyed(Run(es));
  }

  lemma {:induction false} HealthyIsObeyed(slot: Slot)
    requires Healthy(slot)
    ensures Obeyed(slot.chain) && Obeyed(Live(slot.chain, slot.active))
  {
    ForwardIsObeyed(slot.chain);
    LiveStaysHealthy(slot.chain, slot.active);
    ForwardIsObeyed(Live(slot.chain, slot.active));
  }

  lemma {:induction false} RunIsHealthy(es: seq<Event>)
    requires Disciplined(es)
    ensures Healthy(Run(es)) && Matches(Run(es), Subscribed(es)) && Traced(es, Run(es))
  {
    if es != [] {
      var f, e := es[..|es| - 1], es[|es| - 1];
      assert es == f + [e];
      PrefixDisciplined(f, e);
      RunIsHealthy(f);
      match e
      case Register(reg) => RegisterIsHealthy(f, reg);
      case Deactivate(token) => DeactivateIsHealthy(f, token);
      case Rebuild(token) => RebuildIsHealthy(f, token);
    }
  }

  lemma {:induction false} RegisterIsHealthy(f: seq<Event>, reg: Registration)
    requires Healthy(Run(f)) && Matches(Run(f), Subscribed(f)) && Traced(f, Run(f))
    requires forall x :: x in f ==>
               (x.Register? ==> x.reg.token != reg.token) && (x.Deactivate? ==> x.token != reg.token)
    ensures var es := f + [Register(reg)]; Healthy(Run(es)) && Matches(Run(es), Subscribed(es)) && Traced(es, Run(es))
  {
    assert (f + [Register(reg)])[..|f|] == f;
    AfterRegister(f, Run(f), reg);
  }

  lemma {:induction false} DeactivateIsHealthy(f: seq<Event>, token: nat)
    requires Healthy(Run(f)) && Matches(Run(f), Subscribed(f)) && Traced(f, Run(f))
    ensures var es := f + [Deactivate(token)]; Healthy(Run(es)) && Matches(Run(es), Subscribed(es)) && Traced(es, Run(es))
  {
    assert (f + [Deactivate(token)])[..|f|] == f;
    AfterDeactivate(f, Run(f), token);
  }

  lemma {:induction false} RebuildIsHealthy(f: seq<Event>, token: nat)
    requires Healthy(Run(f)) && Matches(Run(f), Subscribed(f)) && Traced(f, Run(f)) && Deactivate(token) in f
    ensures var es := f + [Rebuild(token)]; Healthy(Run(es)) && Matches(Run(es), Subscribed(es)) && Traced(es, Run(es))
  {
    assert (f + [Rebuild(token)])[..|f|] == f;
    AfterRebuild(f, Run(f), token);
  }

  lemma {:induction false} PrefixDisciplined(f: seq<Event>, e: Event)
    requires Disciplined(f + [e])
    ensures Disciplined(f)
    ensures e.Register? ==> forall x :: x in f ==>
              && (x.Register? ==> x.reg.token != e.reg.token)
              && (x.Deactivate? ==> x.token != e.reg.token)
    ensures e.Rebuild? ==> Deactivate(e.token) in f
  {
    var es := f + [e];
    assert forall i :: 0 <= i < |f| ==> es[i] == f[i];
    assert es[|f|] == e;
    forall j | 0 <= j < |f| && f[j].Rebuild? ensures exists i :: 0 <= i < j && f[i] == Deactivate(f[j].token) {
      assert es[j] == f[j];
      var i :| 0 <= i < j && es[i] == Deactivate(es[j].token);
      assert f[i] == es[i];
    }
    if e.Rebuild? {
      var i :| 0 <= i < |f| && es[i] == Deactivate(es[|f|].token);
      assert f[i] == es[i];
    }
  }

  lemma {:induction false} AfterRegister(f: seq<Event>, slot: Slot, reg: Registration)
    requires Healthy(slot) && Traced(f, slot)
    requires forall x :: x in f ==>
               (x.Register? ==> x.reg.token != reg.token) && (x.Deactivate? ==> x.token != reg.token)
    ensures var slot' := RegisterStep(slot, reg);
            && Healthy(slot') && Traced(f + [Register(reg)], slot')
            && forall r :: IsLive(slot', r) <==> IsLive(slot, r) || (Acceptable(slot, reg) && r == reg)
  {
    var es := f + [Register(reg)];
    assert forall x :: x in es <==> x in f || x == Register(reg);
    RegisterOutcome(slot, reg);
  }

  lemma {:induction false} AfterDeactivate(f: seq<Event>, slot: Slot, token: nat)
    requires Healthy(slot) && Traced(f, slot)
    ensures var slot' := DeactivateStep(slot, token);
            && Healthy(slot') && Traced(f + [Deactivate(token)], slot')
            && forall r :: IsLive(slot', r) <==> IsLive(slot, r) && r.token != token
  {
    assert forall x :: x in f + [Deactivate(token)] <==> x in f || x == Deactivate(token);
  }

  /** The rebuild leaves only live entries, all of them. */
  lemma {:induction false} AfterRebuild(f: seq<Event>, slot: Slot, token: nat)
    requires Healthy(slot) && Traced(f, slot) && Deactivate(token) in f
    ensures var slot' := RebuildStep(slot, token);
            && Healthy(slot') && Traced(f + [Rebuild(token)], slot')
            && (forall r :: IsLive(slot', r) <==> IsLive(slot, r))
            && forall r :: r in slot'.chain ==> IsLive(slot', r)
  {
    assert token !in slot.active;
    assert slot.active - {token} == slot.active;
    RebuildKeepsOrder(slot, token);
    assert forall x :: x in f + [Rebuild(token)] <==> x in f || x == Rebuild(token);
  }

  // ---------- The code ----------

  class HookSlot {
    var chain: seq<Registration>
    var active: set<nat>

    ghost function State(): Slot reads this { Slot(chain, active) }

    constructor ()
      ensures State() == EMPTY_SLOT
    {
      chain, active := [], {};
    }

    method KeepActive(skip: set<nat>) returns (out: seq<Registration>)
      ensures out == Live(chain, active - skip)
    {
      out := [];
      for i := 0 to |chain|
        invariant out == Live(chain[..i], active - skip)
      {
        assert chain[..i + 1][..i] == chain[..i];
        if chain[i].token in skip {
          continue;
        }
        if chain[i].token in active {
          out := out + [chain[i]];
        }
      }
      assert chain[..|chain|] == chain;
    }

    method Register(reg: Registration) returns (accepted: bool)
      modifies this
      ensures accepted <==> Acceptable(old(State()), reg)
      ensures State() == RegisterStep(old(State()), reg)
    {
      if SelfConstrained(reg) {
        return false;
      }
      var next := KeepActive({});
      assert active - {} == active;
      var ordered := OrderChain(PrioritySort(next + [reg]));
      if ordered.Err? {
        return false;
      }
      chain, active := ordered.value, active + {reg.token};
      return true;
    }

    method Unsubscribe(token: nat)
      modifies this
      ensures State() == RebuildStep(DeactivateStep(old(State()), token), token)
    {
      active := active - {token};
      var pruned := KeepActive({token});
      var ordered := OrderChain(pruned);
      if ordered.Ok? {
        pruned := ordered.value;
      }
      chain := pruned;
    }
  }
}
