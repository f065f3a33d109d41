/** Ordering a hook's subscribers by their before/after constraints (order.go). */
module HookOrder {
  import opened Common
  import opened Permutations

  datatype Registration = Registration(
    token: nat, priority: int, async: bool, source: string, before: seq<string>, after: seq<string>)

  /** An empty source is nobody's constraint target. */
  predicate Names(targets: seq<string>, source: string) {
    source != "" && source in targets
  }

  /** Subscriber i must run before subscriber j. */
  predicate Edge(subs: seq<Registration>, i: nat, j: nat)
    requires i < |subs| && j < |subs|
  {
    i != j && (Names(subs[i].before, subs[j].source) || Names(subs[j].after, subs[i].source))
  }

  predicate SelfConstrained(reg: Registration) {
    Names(reg.before, reg.source) || Names(reg.after, reg.source)
  }

  // ---------- What an order is ----------

  /** An order of all subscribers that meets every constraint. */
  ghost predicate Topological(subs: seq<Registration>, p: seq<nat>) {
    && Indices(p, |subs|) && |p| == |subs|
    && forall a, b :: 0 <= a < |p| && 0 <= b < |p| && Edge(subs, p[a], p[b]) ==> a < b
  }

  /** p comes before q in the dictionary order of input positions. */
  ghost predicate LexLess(p: seq<nat>, q: seq<nat>) {
    exists k :: 0 <= k < |p| && k < |q| && p[..k] == q[..k] && p[k] < q[k]
  }

  /** The best order there is: of all the orders meeting the constraints, the one
      least in dictionary order. */
  ghost predicate LeastOrder(subs: seq<Registration>, p: seq<nat>) {
    Topological(subs, p) && forall q :: Topological(subs, q) && q != p ==> LexLess(p, q)
  }

  /** Subscribers each bound to run before the next, and the last before the first. */
  ghost predicate Cycle(subs: seq<Registration>, c: seq<nat>) {
    && |c| > 0 && (forall k :: 0 <= k < |c| ==> c[k] < |subs|)
    && (forall k :: 0 <= k < |c| - 1 ==> Edge(subs, c[k], c[k + 1]))
    && Edge(subs, c[|c| - 1], c[0])
  }

  ghost predicate Ready(subs: seq<Registration>, done: seq<nat>, i: nat)
    requires i < |subs|
  {
    i !in done && forall j :: 0 <= j < |subs| && Edge(subs, j, i) ==> j in done
  }

  /** Each pick is the first subscriber whose predecessors are all done. */
  ghost predicate Greedy(subs: seq<Registration>, p: seq<nat>) {
    forall k :: 0 <= k < |p| ==> GreedyPick(subs, p[..k], p[k])
  }

  ghost predicate GreedyPick(subs: seq<Registration>, done: seq<nat>, pick: nat) {
    pick < |subs| && Ready(subs, done, pick) && forall i :: 0 <= i < pick ==> !Ready(subs, done, i)
  }

  /** Nothing left can be picked. */
  ghost predicate Stuck(subs: seq<Registration>, p: seq<nat>) {
    && Greedy(subs, p) && |p| < |subs|
    && forall i :: 0 <= i < |subs| ==> !Ready(subs, p, i)
  }

  function Arranged(subs: seq<Registration>, p: seq<nat>): (r: seq<Registration>)
    requires forall k :: 0 <= k < |p| ==> p[k] < |subs|
    ensures |r| == |p| && forall k :: 0 <= k < |p| ==> r[k] == subs[p[k]]
  {
    seq(|p|, k requires 0 <= k < |p| => subs[p[k]])
  }

  // ---------- Facts about greedy orders ----------

  lemma {:induction false} GreedyIndices(subs: seq<Registration>, p: seq<nat>)
    requires Greedy(subs, p)
    ensures Indices(p, |subs|)
  {
    forall k | 0 <= k < |p| ensures p[k] < |subs| && forall l :: 0 <= l < k ==> p[l] != p[k] {
      assert GreedyPick(subs, p[..k], p[k]);
      assert forall l :: 0 <= l < k ==> p[l] in p[..k];
    }
  }

  lemma {:induction false} GreedyIsTopological(subs: seq<Registration>, p: seq<nat>)
    requires Greedy(subs, p) && |p| == |subs|
    ensures Topological(subs, p)
  {
    GreedyIndices(subs, p);
    forall a, b | 0 <= a < |p| && 0 <= b < |p| && Edge(subs, p[a], p[b]) ensures a < b {
      assert GreedyPick(subs, p[..b], p[b]);
      var l :| 0 <= l < b && p[..b][l] == p[a];
    }
  }

  lemma {:induction false} FirstDifference(p: seq<nat>, q: seq<nat>, k: nat) returns (d: nat)
    requires |p| == |q| && p != q && k <= |p| && p[..k] == q[..k]
    ensures d < |p| && p[..d] == q[..d] && p[d] != q[d]
    decreases |p| - k
  {
    assert p[..|p|] == p && q[..|q|] == q;
    if p[k] != q[k] {
      d := k;
    } else {
      assert p[..k + 1] == p[..k] + [p[k]] && q[..k + 1] == q[..k] + [q[k]];
      d := FirstDifference(p, q, k + 1);
    }
  }

  lemma {:induction false} GreedyIsLeast(subs: seq<Registration>, p: seq<nat>)
    requires Greedy(subs, p) && |p| == |subs|
    ensures LeastOrder(subs, p)
  {
    GreedyIsTopological(subs, p);
    forall q | Topological(subs, q) && q != p ensures LexLess(p, q) {
      assert p[..0] == q[..0];
      var d := FirstDifference(p, q, 0);
      assert GreedyPick(subs, p[..d], p[d]);
      CoversAll(q, |subs|);
      assert Ready(subs, q[..d], q[d]) by {
        forall j | 0 <= j < |subs| && Edge(subs, j, q[d]) ensures j in q[..d] {
          var a := PositionOf(q, j);
          assert q[..d][a] == j;
        }
      }
    }
  }

  // ---------- Orders, by the fields alone ----------

  /** The list meets every before and after of its subscribers. A subscriber may share its source with others;
      what names its own source says nothing of itself. */
  ghost predicate Obeyed(r: seq<Registration>) {
    forall k, l :: 0 <= k < |r| && 0 <= l < |r| && k != l && r[l].source != "" ==>
      (r[l].source in r[k].before ==> k < l) && (r[l].source in r[k].after ==> l < k)
  }

  /** A permutation of the input positions. */
  ghost predicate Arrangement(n: nat, p: seq<nat>) { |p| == n && Indices(p, n) }

  lemma {:induction false} TopologicalIsObeyed(subs: seq<Registration>, p: seq<nat>)
    requires Arrangement(|subs|, p)
    ensures Topological(subs, p) <==> Obeyed(Arranged(subs, p))
  {
    var r := Arranged(subs, p);
    if Topological(subs, p) {
      forall k, l | 0 <= k < |r| && 0 <= l < |r| && k != l && r[l].source != ""
        ensures (r[l].source in r[k].before ==> k < l) && (r[l].source in r[k].after ==> l < k)
      {
        assert p[k] != p[l];
        if r[l].source in r[k].before { assert Edge(subs, p[k], p[l]); }
        if r[l].source in r[k].after { assert Edge(subs, p[l], p[k]); }
      }
    }
    if Obeyed(r) {
      forall a, b | 0 <= a < |p| && 0 <= b < |p| && Edge(subs, p[a], p[b]) ensures a < b {
        assert a != b;
        assert r[a] == subs[p[a]] && r[b] == subs[p[b]];
      }
    }
  }

  /** Of all arrangements that obey the subscribers the first by input position. */
  ghost predicate FirstObeyed(subs: seq<Registration>, p: seq<nat>) {
    && Arrangement(|subs|, p) && Obeyed(Arranged(subs, p))
    && forall q :: Arrangement(|subs|, q) && q != p && Obeyed(Arranged(subs, q)) ==> LexLess(p, q)
  }

  ghost predicate NoneObeyed(subs: seq<Registration>) {
    forall q :: Arrangement(|subs|, q) ==> !Obeyed(Arranged(subs, q))
  }

  lemma {:induction false} GreedyIsObeyed(subs: seq<Registration>, p: seq<nat>)
    requires Greedy(subs, p) && |p| == |subs|
    ensures FirstObeyed(subs, p)
  {
    GreedyIndices(subs, p);
    GreedyIsLeast(subs, p);
    TopologicalIsObeyed(subs, p);
    forall q | Arrangement(|subs|, q) && q != p && Obeyed(Arranged(subs, q)) ensures LexLess(p, q) {
      TopologicalIsObeyed(subs, q);
    }
  }

  /** With a cycle no arrangement obeys. */
  lemma {:induction false} CycleObeysNothing(subs: seq<Registration>, c: seq<nat>)
    requires Cycle(subs, c)
    ensures NoneObeyed(subs)
  {
    forall q | Arrangement(|subs|, q) ensures !Obeyed(Arranged(subs, q)) {
      TopologicalIsObeyed(subs, q);
      CycleMeansNoOrder(subs, c, q);
    }
  }

  // ---------- Failure means a cycle ----------

  /** Every leftover has a leftover that must run before it. */
  lemma {:induction false} LeftoverHasLeftoverPredecessor(subs: seq<Registration>, p: seq<nat>, i: nat) returns (j: nat)
    requires Stuck(subs, p) && i < |subs| && i !in p
    ensures j < |subs| && j !in p && Edge(subs, j, i)
  {
    assert !Ready(subs, p, i);
    j :| 0 <= j < |subs| && Edge(subs, j, i) && j !in p;
  }

  /** Walking back over leftovers must meet itself. */
  lemma {:induction false} WalkBack(subs: seq<Registration>, p: seq<nat>, walk: seq<nat>) returns (c: seq<nat>)
    requires Stuck(subs, p) && |walk| > 0 && Indices(walk, |subs|)
    requires forall k :: 0 <= k < |walk| ==> walk[k] !in p
    requires forall k :: 0 <= k < |walk| - 1 ==> Edge(subs, walk[k], walk[k + 1])
    ensures Cycle(subs, c)
    decreases |subs| - |walk|
  {
    CoversAll(walk, |subs|);
    var j := LeftoverHasLeftoverPredecessor(subs, p, walk[0]);
    if m :| 0 <= m < |walk| && walk[m] == j {
      c := walk[..m + 1];
    } else {
      assert j !in walk;
      var longer := [j] + walk;
      assert forall k :: 0 <= k < |longer| - 1 ==> Edge(subs, longer[k], longer[k + 1]);
      c := WalkBack(subs, p, longer);
    }
  }

  lemma {:induction false} StuckMeansCycle(subs: seq<Registration>, p: seq<nat>)
    requires Stuck(subs, p)
    ensures exists c :: Cycle(subs, c)
  {
    GreedyIndices(subs, p);
    var i: nat :| i < |subs| && i !in p by {
      if forall i: nat :: i < |subs| ==> i in p { AllListed(p, |subs|); }
    }
    var c := WalkBack(subs, p, [i]);
  }

  /** A cycle leaves no order at all. */
  lemma {:induction false} CycleMeansNoOrder(subs: seq<Registration>, c: seq<nat>, p: seq<nat>)
    requires Cycle(subs, c)
    ensures !Topological(subs, p)
  {
    if Topological(subs, p) {
      CoversAll(p, |subs|);
      var a := PositionOf(p, c[0]);
      var b := AdvancesAlong(subs, c, p, |c| - 1, a);
    }
  }

  lemma {:induction false} AdvancesAlong(subs: seq<Registration>, c: seq<nat>, p: seq<nat>, k: nat, first: nat) returns (b: nat)
    requires Cycle(subs, c) && Topological(subs, p) && k < |c|
    requires forall j: nat :: j < |subs| ==> j in p
    requires first < |p| && p[first] == c[0]
    ensures b < |p| && p[b] == c[k] && first <= b
  {
    if k == 0 {
      b := first;
    } else {
      var a := AdvancesAlong(subs, c, p, k - 1, first);
      b := PositionOf(p, c[k]);
      assert Edge(subs, c[k - 1], c[k]);
    }
  }

  /** When every constraint already points forward, the order is left alone. */
  lemma {:induction false} ForwardIsIdentity(subs: seq<Registration>, p: seq<nat>)
    requires forall i, j :: 0 <= i < |subs| && 0 <= j < |subs| && Edge(subs, i, j) ==> i < j
    requires Greedy(subs, p)
    ensures forall k :: 0 <= k < |p| ==> p[k] == k
    ensures !Stuck(subs, p)
  {
    if p != [] {
      var f := p[..|p| - 1];
      assert forall k :: 0 <= k < |f| ==> f[..k] == p[..k];
      ForwardIsIdentity(subs, f);
      assert GreedyPick(subs, p[..|p| - 1], p[|p| - 1]);
      FirstFree(subs, f);
    }
    if |p| < |subs| { FirstFree(subs, p); }
  }

  lemma {:induction false} FirstFree(subs: seq<Registration>, p: seq<nat>)
    requires forall i, j :: 0 <= i < |subs| && 0 <= j < |subs| && Edge(subs, i, j) ==> i < j
    requires forall k :: 0 <= k < |p| ==> p[k] == k
    ensures forall i: nat :: i < |p| && i < |subs| ==> !Ready(subs, p, i)
    ensures |p| < |subs| ==> Ready(subs, p, |p|)
  {
    forall i: nat | i < |p| ensures i in p { assert p[i] == i; }
  }

  // ---------- topoSort ----------

  /** The untaken nodes with an edge to j. */
  ghost function Waiting(adj: seq<set<nat>>, taken: seq<bool>, j: nat): (w: set<nat>)
    requires |adj| == |taken|
    ensures forall i: nat :: i in w <==> i < |adj| && !taken[i] && j in adj[i]
  {
    set i | 0 <= i < |adj| && !taken[i] && j in adj[i] :: i
  }

  ghost predicate Counts(adj: seq<set<nat>>, taken: seq<bool>, indeg: seq<nat>) {
    && |adj| == |taken| == |indeg|
    && forall j :: 0 <= j < |indeg| ==> indeg[j] == |Waiting(adj, taken, j)|
  }

  ghost function NoneTaken(n: nat): (t: seq<bool>)
    ensures |t| == n && forall i :: 0 <= i < n ==> !t[i]
  {
    seq(n, i => false)
  }

  method IndexBySource(subs: seq<Registration>) returns (index: map<string, seq<nat>>)
    ensures Indexed(subs, index)
  {
    index := map[];
    for n := 0 to |subs|
      invariant Indexed(subs[..n], index)
    {
      var src := subs[n].source;
      if src != "" {
        index := index[src := HostsOf(index, src) + [n]];
      }
    }
    assert subs[..|subs|] == subs;
  }

  method AddEdge(adj: array<set<nat>>, indeg: array<nat>, from: nat, to: nat)
    requires adj.Length == indeg.Length && from < adj.Length && to < adj.Length
    requires Counts(adj[..], NoneTaken(adj.Length), indeg[..])
    modifies adj, indeg
    ensures Counts(adj[..], NoneTaken(adj.Length), indeg[..])
    ensures forall a :: 0 <= a < adj.Length ==>
              adj[a] == if a == from && from != to then old(adj[a]) + {to} else old(adj[a])
  {
    if from == to {
      return;
    }
    if to in adj[from] {
      return;
    }
    ghost var before := adj[..];
    adj[from] := adj[from] + {to};
    indeg[to] := indeg[to] + 1;
    EdgeCounts(before, NoneTaken(adj.Length), from, to);
    assert adj[..] == before[from := before[from] + {to}];
  }

  /** A new edge adds one to the wait of its target only. */
  lemma {:induction false} EdgeCounts(adj: seq<set<nat>>, taken: seq<bool>, from: nat, to: nat)
    requires |adj| == |taken| && from < |adj| && !taken[from] && to !in adj[from]
    ensures var adj' := adj[from := adj[from] + {to}];
            forall j: nat :: |Waiting(adj', taken, j)| == |Waiting(adj, taken, j)| + if j == to then 1 else 0
  {
    var adj' := adj[from := adj[from] + {to}];
    forall j: nat ensures |Waiting(adj', taken, j)| == |Waiting(adj, taken, j)| + if j == to then 1 else 0 {
      assert Waiting(adj', taken, j) == Waiting(adj, taken, j) + if j == to then {from} else {};
    }
  }

  /** A picked node no longer holds anyone back. */
  lemma {:induction false} PickCounts(adj: seq<set<nat>>, taken: seq<bool>, pick: nat)
    requires |adj| == |taken| && pick < |adj| && !taken[pick]
    ensures forall j: nat :: |Waiting(adj, taken[pick := true], j)| == |Waiting(adj, taken, j)| - if j in adj[pick] then 1 else 0
    ensures forall j: nat :: j in adj[pick] ==> |Waiting(adj, taken, j)| > 0
  {
    forall j: nat
      ensures |Waiting(adj, taken[pick := true], j)| == |Waiting(adj, taken, j)| - if j in adj[pick] then 1 else 0
      ensures j in adj[pick] ==> |Waiting(adj, taken, j)| > 0
    {
      var w := Waiting(adj, taken, j);
      assert Waiting(adj, taken[pick := true], j) == w - {pick};
      assert pick in w <==> j in adj[pick];
    }
  }

  /** The edge that `targets`, declared by subscriber i, puts from a to b. */
  ghost predicate Declared(subs: seq<Registration>, i: nat, targets: seq<string>, runsBefore: bool, a: nat, b: nat)
    requires a < |subs| && b < |subs|
  {
    a != b && if runsBefore then a == i && Names(targets, subs[b].source) else b == i && Names(targets, subs[a].source)
  }

  ghost predicate HostEdge(i: nat, hosts: seq<nat>, runsBefore: bool, a: nat, b: nat) {
    a != b && if runsBefore then a == i && b in hosts else b == i && a in hosts
  }

  /** Adds the edges between subscriber i and the subscribers of one source. */
  method AddHosts(i: nat, hosts: seq<nat>, runsBefore: bool, adj: array<set<nat>>, indeg: array<nat>)
    requires adj.Length == indeg.Length && i < adj.Length
    requires forall h :: 0 <= h < |hosts| ==> hosts[h] < adj.Length
    requires Counts(adj[..], NoneTaken(adj.Length), indeg[..])
    modifies adj, indeg
    ensures Counts(adj[..], NoneTaken(adj.Length), indeg[..])
    ensures forall a: nat, b: nat :: a < adj.Length ==> (b in adj[a] <==> (b in old(adj[a]) || HostEdge(i, hosts, runsBefore, a, b)))
  {
    for h := 0 to |hosts|
      invariant Counts(adj[..], NoneTaken(adj.Length), indeg[..])
      invariant forall a: nat, b: nat :: a < adj.Length ==>
                  (b in adj[a] <==> (b in old(adj[a]) || HostEdge(i, hosts[..h], runsBefore, a, b)))
    {
      assert hosts[..h + 1] == hosts[..h] + [hosts[h]];
      if runsBefore {
        AddEdge(adj, indeg, i, hosts[h]);
      } else {
        AddEdge(adj, indeg, hosts[h], i);
      }
    }
    assert hosts[..|hosts|] == hosts;
  }

  /** Adds the edges that one before (or after) list of subscriber i asks for. */
  method AddConstraints(subs: seq<Registration>, index: map<string, seq<nat>>, i: nat, targets: seq<string>, runsBefore: bool,
                        adj: array<set<nat>>, indeg: array<nat>)
    requires adj.Length == indeg.Length == |subs| && i < |subs|
    requires Indexed(subs, index)
    requires Counts(adj[..], NoneTaken(|subs|), indeg[..])
    modifies adj, indeg
    ensures Counts(adj[..], NoneTaken(|subs|), indeg[..])
    ensures forall a: nat, b: nat :: a < |subs| ==>
              (b in adj[a] <==> (b in old(adj[a]) || (b < |subs| && Declared(subs, i, targets, runsBefore, a, b))))
  {
    for t := 0 to |targets|
      invariant Counts(adj[..], NoneTaken(|subs|), indeg[..])
      invariant forall a: nat, b: nat :: a < |subs| ==>
                  (b in adj[a] <==> (b in old(adj[a]) || (b < |subs| && Declared(subs, i, targets[..t], runsBefore, a, b))))
    {
      var hosts := HostsOf(index, targets[t]);
      TargetEdges(subs, index, i, targets, t, runsBefore);
      AddHosts(i, hosts, runsBefore, adj, indeg);
    }
    assert targets[..|targets|] == targets;
  }

  /** The subscribers of one source; unknown sources have none. */
  function HostsOf(index: map<string, seq<nat>>, src: string): seq<nat> {
    if src in index then index[src] else []
  }

  ghost predicate Indexed(subs: seq<Registration>, index: map<string, seq<nat>>) {
    && (forall src :: src in index ==>
          src != "" && forall k: nat :: k in index[src] <==> k < |subs| && subs[k].source == src)
    && (forall k :: 0 <= k < |subs| && subs[k].source != "" ==> subs[k].source in index)
  }

  /** The subscribers indexed under the t-th target are the ones it names. */
  lemma {:induction false} TargetEdges(subs: seq<Registration>, index: map<string, seq<nat>>, i: nat, targets: seq<string>, t: nat, runsBefore: bool)
    requires Indexed(subs, index) && i < |subs| && t < |targets|
    ensures var hosts := HostsOf(index, targets[t]);
            && (forall h :: 0 <= h < |hosts| ==> hosts[h] < |subs|)
            && forall a: nat, b: nat :: a < |subs| ==>
                 ((b < |subs| && Declared(subs, i, targets[..t + 1], runsBefore, a, b)) <==>
                  ((b < |subs| && Declared(subs, i, targets[..t], runsBefore, a, b)) || HostEdge(i, hosts, runsBefore, a, b)))
  {
    var hosts := HostsOf(index, targets[t]);
    forall h | 0 <= h < |hosts| ensures hosts[h] < |subs| { assert hosts[h] in index[targets[t]]; }
    assert targets[..t + 1] == targets[..t] + [targets[t]];
    forall k: nat ensures k in hosts <==> k < |subs| && Names([targets[t]], subs[k].source) {}
    forall k: nat | k < |subs|
      ensures Names(targets[..t + 1], subs[k].source) <==> Names(targets[..t], subs[k].source) || k in hosts {}
  }

  ghost predicate EdgesOfFirst(subs: seq<Registration>, n: nat, a: nat, b: nat)
    requires a < |subs| && b < |subs|
  {
    a != b && ((a < n && Names(subs[a].before, subs[b].source)) || (b < n && Names(subs[b].after, subs[a].source)))
  }

  method BuildGraph(subs: seq<Registration>) returns (adj: array<set<nat>>, indeg: array<nat>)
    ensures fresh(adj) && fresh(indeg) && adj.Length == indeg.Length == |subs|
    ensures Counts(adj[..], NoneTaken(|subs|), indeg[..])
    ensures forall a: nat, b: nat :: 0 <= a < |subs| ==> (b in adj[a] <==> b < |subs| && Edge(subs, a, b))
  {
    var index := IndexBySource(subs);
    adj := new set<nat>[|subs|](i => {});
    indeg := new nat[|subs|](i => 0);
    assert forall j: nat :: Waiting(adj[..], NoneTaken(|subs|), j) == {};
    for i := 0 to |subs|
      invariant Counts(adj[..], NoneTaken(|subs|), indeg[..])
      invariant forall a: nat, b: nat :: 0 <= a < |subs| ==> (b in adj[a] <==> b < |subs| && EdgesOfFirst(subs, i, a, b))
    {
      AddConstraints(subs, index, i, subs[i].before, true, adj, indeg);
      AddConstraints(subs, index, i, subs[i].after, false, adj, indeg);
    }
  }

  /** Removes a picked node: its successors wait for one node fewer. */
  method Release(adj: array<set<nat>>, indeg: array<nat>, taken: array<bool>, pick: nat)
    requires adj.Length == indeg.Length == taken.Length && pick < adj.Length && !taken[pick]
    requires Counts(adj[..], taken[..], indeg[..])
    requires forall b :: b in adj[pick] ==> b < indeg.Length
    modifies indeg, taken
    ensures Counts(adj[..], taken[..], indeg[..])
    ensures taken[..] == old(taken[..])[pick := true]
  {
    ghost var start := indeg[..];
    PickCounts(adj[..], taken[..], pick);
    taken[pick] := true;
    ghost var now := taken[..];
    var todo := adj[pick];
    while todo != {}
      invariant todo <= adj[pick] && taken[..] == now
      invariant forall j :: 0 <= j < indeg.Length ==>
                  indeg[j] == if j in adj[pick] && j !in todo then start[j] - 1 else start[j]
    {
      var j :| j in todo;
      assert start[j] > 0;
      indeg[j] := indeg[j] - 1;
      todo := todo - {j};
    }
  }

  /** A node waits for nothing exactly when it can be picked. */
  lemma {:induction false} WaitsForNothing(subs: seq<Registration>, adj: seq<set<nat>>, taken: seq<bool>, done: seq<nat>, i: nat)
    requires |adj| == |taken| == |subs| && i < |subs|
    requires forall a: nat, b: nat :: 0 <= a < |subs| ==> (b in adj[a] <==> b < |subs| && Edge(subs, a, b))
    requires forall k :: 0 <= k < |subs| ==> (taken[k] <==> k in done)
    ensures Ready(subs, done, i) <==> !taken[i] && |Waiting(adj, taken, i)| == 0
  {
    var w := Waiting(adj, taken, i);
    if |w| == 0 { assert w == {}; }
    if j :| j in w { assert !Ready(subs, done, i); }
  }

  /** Kahn's algorithm with the first-in-input tie-break.  On success the result is
      the least order; on failure nothing left over could be picked. */
  method TopoSort(subs: seq<Registration>) returns (r: Result<seq<Registration>, seq<nat>>, ghost p: seq<nat>)
    ensures Greedy(subs, p) && Indices(p, |subs|)
    ensures r.Ok? ==> LeastOrder(subs, p) && r.value == Arranged(subs, p)
    ensures r.Err? <==> exists c :: Cycle(subs, c)
    ensures r.Err? ==> |p| < |subs| && forall i: nat :: i in r.error <==> i < |subs| && i !in p
    ensures if r.Ok? then FirstObeyed(subs, p) && Obeyed(r.value) else NoneObeyed(subs)
    ensures r.Err? ==> forall i: nat :: i in r.error ==> exists j: nat :: j in r.error && Edge(subs, j, i)
  {
    var n := |subs|;
    p := [];
    if n <= 1 {
      if n == 1 { p := [0]; assert GreedyPick(subs, [], 0); }
      GreedyDecides(subs, p);
      GreedyIsObeyed(subs, p);
      assert Arranged(subs, p) == subs;
      return Ok(subs), p;
    }
    var adj, indeg := BuildGraph(subs);
    var taken := new bool[n](i => false);
    assert taken[..] == NoneTaken(n);
    var out: seq<Registration> := [];
    while |out| < n
      invariant Greedy(subs, p) && Indices(p, n) && |out| == |p| <= n
      invariant out == Arranged(subs, p)
      invariant Counts(adj[..], taken[..], indeg[..])
      invariant forall k :: 0 <= k < n ==> (taken[k] <==> k in p)
      invariant forall a: nat, b: nat :: 0 <= a < n ==> (b in adj[a] <==> b < n && Edge(subs, a, b))
      decreases n - |out|
    {
      forall i: nat | i < n ensures Ready(subs, p, i) <==> !taken[i] && indeg[i] == 0 {
        WaitsForNothing(subs, adj[..], taken[..], p, i);
      }
      var pick := -1;
      for i := 0 to n
        invariant pick == -1 && forall k: nat :: k < i ==> !Ready(subs, p, k)
      {
        if taken[i] || indeg[i] != 0 {
          continue;
        }
        pick := i;
        break;
      }
      if pick == -1 {
        var left := Untaken(taken);
        StuckMeansCycle(subs, p);
        StuckObeysNothing(subs, p);
        forall i: nat | i in left ensures exists j: nat :: j in left && Edge(subs, j, i) {
          var j := LeftoverHasLeftoverPredecessor(subs, p, i);
        }
        return Err(left), p;
      }
      Release(adj, indeg, taken, pick);
      out := out + [subs[pick]];
      p := Extend(subs, p, pick);
      CoversAll(p, n);
    }
    GreedyDecides(subs, p);
    GreedyIsObeyed(subs, p);
    return Ok(out), p;
  }

  lemma {:induction false} StuckObeysNothing(subs: seq<Registration>, p: seq<nat>)
    requires Stuck(subs, p)
    ensures NoneObeyed(subs)
  {
    StuckMeansCycle(subs, p);
    var c :| Cycle(subs, c);
    CycleObeysNothing(subs, c);
  }

  /** A completed greedy order is the least one, and then there is no cycle. */
  lemma {:induction false} GreedyDecides(subs: seq<Registration>, p: seq<nat>)
    requires Greedy(subs, p) && |p| == |subs|
    ensures LeastOrder(subs, p) && Indices(p, |subs|) && !exists c :: Cycle(subs, c)
  {
    GreedyIsLeast(subs, p);
    forall c ensures !Cycle(subs, c) {
      if Cycle(subs, c) { CycleMeansNoOrder(subs, c, p); }
    }
  }

  ghost function Extend(subs: seq<Registration>, p: seq<nat>, pick: nat): (r: seq<nat>)
    requires Greedy(subs, p) && GreedyPick(subs, p, pick)
    ensures r == p + [pick] && Greedy(subs, r) && Indices(r, |subs|)
  {
    GreedyIndices(subs, p);
    assert (p + [pick])[..|p|] == p;
    assert forall k :: 0 <= k < |p| ==> (p + [pick])[..k] == p[..k];
    p + [pick]
  }

  method Untaken(taken: array<bool>) returns (left: seq<nat>)
    ensures forall i: nat :: i in left <==> i < taken.Length && !taken[i]
  {
    left := [];
    for i := 0 to taken.Length
      invariant forall k: nat :: k in left <==> k < i && !taken[k]
    {
      if taken[i] {
        continue;
      }
      left := left + [i];
    }
  }
}
