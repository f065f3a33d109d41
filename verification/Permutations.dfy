/** Lists of distinct indices. */
module Permutations {

  ghost predicate Indices(p: seq<nat>, n: nat) {
    && (forall k :: 0 <= k < |p| ==> p[k] < n)
    && (forall k, l :: 0 <= k < l < |p| ==> p[k] != p[l])
  }

  lemma {:induction false} PositionOf(p: seq<nat>, x: nat) returns (a: nat)
    requires x in p
    ensures a < |p| && p[a] == x
  {
    a :| 0 <= a < |p| && p[a] == x;
  }

  /** Distinct indices below n number at most n, and n of them are all of them. */
  lemma {:induction false} CoversAll(p: seq<nat>, n: nat)
    requires Indices(p, n)
    ensures |p| <= n
    ensures |p| == n ==> forall j: nat :: j < n ==> j in p
  {
    var some := set k | 0 <= k < |p| :: p[k];
    DistinctSize(p);
    assert some <= Below(n);
    SubsetSize(some, Below(n));
    if |p| == n {
      assert Below(n) - some == {};
      forall j: nat | j < n ensures j in p { assert j in Below(n); assert j in some; }
    }
  }

  lemma {:induction false} SubsetSize(a: set<nat>, b: set<nat>)
    requires a <= b
    ensures |a| <= |b| && |b - a| == |b| - |a|
  {
    assert b == a + (b - a);
  }

  ghost function Below(n: nat): (all: set<nat>)
    ensures |all| == n && forall j: nat :: j in all <==> j < n
  {
    if n == 0 then {} else Below(n - 1) + {n - 1}
  }

  lemma {:induction false} DistinctSize(p: seq<nat>)
    requires forall k, l :: 0 <= k < l < |p| ==> p[k] != p[l]
    ensures |set k | 0 <= k < |p| :: p[k]| == |p|
  {
    if p != [] {
      var f := p[..|p| - 1];
      DistinctSize(f);
      assert (set k | 0 <= k < |p| :: p[k]) == (set k | 0 <= k < |f| :: f[k]) + {p[|p| - 1]};
    }
  }

  lemma {:induction false} AllListed(p: seq<nat>, n: nat)
    requires Indices(p, n) && forall i: nat :: i < n ==> i in p
    ensures |p| == n
  {
    DistinctSize(p);
    var some := set k | 0 <= k < |p| :: p[k];
    forall j | j in Below(n) ensures j in some { var a := PositionOf(p, j); }
    assert Below(n) == some;
  }

  /** n strictly increasing indices below n are 0, 1, ..., n-1. */
  lemma {:induction false} IncreasingIsIdentity(p: seq<nat>)
    requires forall j :: 0 <= j < |p| - 1 ==> p[j] < p[j + 1]
    requires forall j :: 0 <= j < |p| ==> p[j] < |p|
    ensures forall k :: 0 <= k < |p| ==> p[k] == k
  {
    forall k | 0 <= k < |p| ensures p[k] == k {
      AtLeastIndex(p, k);
      AtMostIndex(p, k);
    }
  }

  lemma {:induction false} AtLeastIndex(p: seq<nat>, k: nat)
    requires forall j :: 0 <= j < |p| - 1 ==> p[j] < p[j + 1]
    requires k < |p|
    ensures p[k] >= k
  {
    if k > 0 { AtLeastIndex(p, k - 1); }
  }

  lemma {:induction false} AtMostIndex(p: seq<nat>, k: nat)
    requires forall j :: 0 <= j < |p| - 1 ==> p[j] < p[j + 1]
    requires k < |p| && forall j :: 0 <= j < |p| ==> p[j] < |p|
    ensures p[k] <= k
    decreases |p| - k
  {
    if k + 1 < |p| { AtMostIndex(p, k + 1); }
  }
}
