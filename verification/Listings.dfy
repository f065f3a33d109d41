/** Newest-first listings: a stable sort by any order, as sort.SliceStable leaves them. */
module Listings {
  import opened Permutations

  function Insert<T>(newer: (T, T) -> bool, e: T, sorted: seq<T>): seq<T> {
    if sorted == [] || newer(e, sorted[0]) then [e] + sorted
    else [sorted[0]] + Insert(newer, e, sorted[1..])
  }

  function Sorted<T>(newer: (T, T) -> bool, xs: seq<T>): seq<T> {
    if xs == [] then [] else Insert(newer, xs[|xs| - 1], Sorted(newer, xs[..|xs| - 1]))
  }

  function Reversed<T>(xs: seq<T>): (r: seq<T>)
    ensures |r| == |xs| && forall i :: 0 <= i < |xs| ==> r[i] == xs[|xs| - 1 - i]
  {
    seq(|xs|, i requires 0 <= i < |xs| => xs[|xs| - 1 - i])
  }

  /** A strict order in which what does not differ can be exchanged. */
  ghost predicate Orders<T(!new)>(newer: (T, T) -> bool) {
    && (forall a, b :: newer(a, b) ==> !newer(b, a))
    && (forall a, b, c :: newer(a, b) ==> newer(a, c) || newer(c, b))
  }

  /** Element x of the input is listed before element y. */
  predicate Before<T>(newer: (T, T) -> bool, xs: seq<T>, x: nat, y: nat)
    requires x < |xs| && y < |xs|
  {
    newer(xs[x], xs[y]) || (!newer(xs[y], xs[x]) && x < y)
  }

  lemma {:induction false} InsertPlace<T>(newer: (T, T) -> bool, e: T, sorted: seq<T>) returns (at: nat)
    ensures at <= |sorted| && Insert(newer, e, sorted) == sorted[..at] + [e] + sorted[at..]
    ensures forall i :: 0 <= i < at ==> !newer(e, sorted[i])
    ensures at < |sorted| ==> newer(e, sorted[at])
  {
    if sorted == [] || newer(e, sorted[0]) {
      at := 0;
    } else {
      var rest := InsertPlace(newer, e, sorted[1..]);
      at := rest + 1;
      assert sorted[..at] == [sorted[0]] + sorted[1..][..rest];
      assert sorted[at..] == sorted[1..][rest..];
    }
  }

  /** The list `from` of input positions, in the order of the listing. */
  ghost predicate Arranges<T>(newer: (T, T) -> bool, xs: seq<T>, sorted: seq<T>, from: seq<nat>) {
    && |sorted| == |from| == |xs| && Indices(from, |xs|)
    && (forall j :: 0 <= j < |xs| ==> sorted[j] == xs[from[j]])
    && forall a, b :: 0 <= a < b < |xs| ==> Before(newer, xs, from[a], from[b])
  }

  /** The input position at place j of the longer listing. */
  function PlaceAfter(from: seq<nat>, at: nat, n: nat, j: nat): nat
    requires at <= |from| && j <= |from|
  {
    if j < at then from[j] else if j == at then n else from[j - 1]
  }

  /** Position j after one more element has been put in at `at`. */
  lemma {:induction false} Placed(from: seq<nat>, at: nat, n: nat, j: nat)
    requires at <= |from| && j <= |from|
    ensures var placed := from[..at] + [n] + from[at..];
            placed[j] == PlaceAfter(from, at, n, j)
  {
  }

  lemma {:induction false} PlacedIndices(from: seq<nat>, at: nat)
    requires at <= |from| && Indices(from, |from|)
    ensures Indices(from[..at] + [|from|] + from[at..], |from| + 1)
  {
    var n := |from|;
    var placed := from[..at] + [n] + from[at..];
    forall j | 0 <= j <= n ensures placed[j] == PlaceAfter(from, at, n, j) { Placed(from, at, n, j); }
    forall k, l | 0 <= k < l <= n ensures PlaceAfter(from, at, n, k) != PlaceAfter(from, at, n, l) {}
  }

  lemma {:induction false} InsertArranges<T(!new)>(newer: (T, T) -> bool, xs: seq<T>, e: T, sorted: seq<T>, from: seq<nat>, at: nat)
    requires Orders(newer) && Arranges(newer, xs, sorted, from) && at <= |xs|
    requires forall i :: 0 <= i < at ==> !newer(e, sorted[i])
    requires at < |xs| ==> newer(e, sorted[at])
    ensures Arranges(newer, xs + [e], sorted[..at] + [e] + sorted[at..], from[..at] + [|xs|] + from[at..])
  {
    var placed, all, out := from[..at] + [|xs|] + from[at..], xs + [e], sorted[..at] + [e] + sorted[at..];
    PlacedIndices(from, at);
    forall j | 0 <= j <= |xs| ensures placed[j] == PlaceAfter(from, at, |xs|, j) && out[j] == all[placed[j]] {
      Placed(from, at, |xs|, j);
    }
    forall a, b | 0 <= a < b <= |xs| ensures Before(newer, all, placed[a], placed[b]) {
      InsertKeepsOrder(newer, xs, e, sorted, from, at, a, b);
    }
  }

  lemma {:induction false} InsertKeepsOrder<T(!new)>(newer: (T, T) -> bool, xs: seq<T>, e: T, sorted: seq<T>, from: seq<nat>, at: nat, a: nat, b: nat)
    requires Orders(newer) && Arranges(newer, xs, sorted, from) && at <= |xs| && a < b <= |xs|
    requires forall i :: 0 <= i < at ==> !newer(e, sorted[i])
    requires at < |xs| ==> newer(e, sorted[at])
    ensures Before(newer, xs + [e], PlaceAfter(from, at, |xs|, a), PlaceAfter(from, at, |xs|, b))
  {
    if a == at {
      InsertedBefore(newer, xs, e, sorted, from, at, b - 1);
    } else if b == at {
      assert !newer(e, sorted[a]);
    } else {
      assert Before(newer, xs, PlaceAfter(from, at, |xs|, a), PlaceAfter(from, at, |xs|, b));
    }
  }

  /** The new element comes before every one it was put in front of. */
  lemma {:induction false} InsertedBefore<T(!new)>(newer: (T, T) -> bool, xs: seq<T>, e: T, sorted: seq<T>, from: seq<nat>, at: nat, b: nat)
    requires Orders(newer) && Arranges(newer, xs, sorted, from) && at <= b < |xs| && newer(e, sorted[at])
    ensures Before(newer, xs + [e], |xs|, from[b])
  {
    if b > at { assert Before(newer, xs, from[at], from[b]); }
  }

  /** The listing is the input rearranged, newer before older, ties in input order. */
  lemma {:induction false} SortArranges<T(!new)>(newer: (T, T) -> bool, xs: seq<T>) returns (from: seq<nat>)
    requires Orders(newer)
    ensures Arranges(newer, xs, Sorted(newer, xs), from)
  {
    if xs == [] {
      from := [];
    } else {
      var front, e := xs[..|xs| - 1], xs[|xs| - 1];
      assert xs == front + [e];
      var f := SortArranges(newer, front);
      var at := InsertPlace(newer, e, Sorted(newer, front));
      InsertArranges(newer, front, e, Sorted(newer, front), f, at);
      from := f[..at] + [|front|] + f[at..];
    }
  }

  lemma {:induction false} SortPermutes<T>(newer: (T, T) -> bool, xs: seq<T>)
    ensures multiset(Sorted(newer, xs)) == multiset(xs) && |Sorted(newer, xs)| == |xs|
  {
    if xs != [] {
      var front, e := xs[..|xs| - 1], xs[|xs| - 1];
      assert xs == front + [e];
      SortPermutes(newer, front);
      var sorted := Sorted(newer, front);
      var at := InsertPlace(newer, e, sorted);
      assert sorted == sorted[..at] + sorted[at..];
    }
  }

  /** Each element newer than all before it. */
  ghost predicate Ascending<T>(newer: (T, T) -> bool, xs: seq<T>) {
    forall i, j :: 0 <= i < j < |xs| ==> newer(xs[j], xs[i])
  }

  lemma {:induction false} SortOfAscending<T>(newer: (T, T) -> bool, xs: seq<T>)
    requires Ascending(newer, xs)
    ensures Sorted(newer, xs) == Reversed(xs)
  {
    if xs != [] {
      SortOfAscending(newer, xs[..|xs| - 1]);
      assert Reversed(xs) == [xs[|xs| - 1]] + Reversed(xs[..|xs| - 1]);
    }
  }

  /** A listing of distinct elements is their reversal only if they were ascending. */
  lemma {:induction false} ReversalMeansAscending<T(!new)>(newer: (T, T) -> bool, xs: seq<T>)
    requires Orders(newer) && Sorted(newer, xs) == Reversed(xs)
    requires forall i, j :: 0 <= i < j < |xs| ==> xs[i] != xs[j]
    ensures Ascending(newer, xs)
  {
    var from := SortArranges(newer, xs);
    var n := |xs|;
    forall j | 0 <= j < n ensures from[j] == n - 1 - j {
      assert xs[from[j]] == xs[n - 1 - j];
    }
    forall i, j | 0 <= i < j < n ensures newer(xs[j], xs[i]) {
      assert Before(newer, xs, from[n - 1 - j], from[n - 1 - i]);
    }
  }

  /** An ascending list is determined by its elements. */
  lemma {:induction false} AscendingUnique<T(!new)>(newer: (T, T) -> bool, a: seq<T>, b: seq<T>)
    requires Orders(newer) && Ascending(newer, a) && Ascending(newer, b) && forall x :: x in a <==> x in b
    ensures a == b
  {
    SameEmptiness(a, b);
    if a != [] {
      var x := a[|a| - 1];
      assert x in b;
      var y := b[|b| - 1];
      assert y in a;
      assert x == y;
      var fa, fb := a[..|a| - 1], b[..|b| - 1];
      assert a == fa + [x] && b == fb + [x];
      forall z ensures z in fa <==> z in fb {
        FrontWithoutLast(newer, a, z);
        FrontWithoutLast(newer, b, z);
      }
      AscendingUnique(newer, fa, fb);
    }
  }

  lemma {:induction false} SameEmptiness<T(!new)>(a: seq<T>, b: seq<T>)
    requires forall x :: x in a <==> x in b
    ensures a == [] <==> b == []
  {
    if a != [] { assert a[0] in b; }
    if b != [] { assert b[0] in a; }
  }

  lemma {:induction false} FrontWithoutLast<T(!new)>(newer: (T, T) -> bool, a: seq<T>, z: T)
    requires Orders(newer) && Ascending(newer, a) && a != []
    ensures z in a[..|a| - 1] <==> z in a && z != a[|a| - 1]
  {
    var n := |a| - 1;
    assert a == a[..n] + [a[n]];
    if z in a[..n] {
      var k :| 0 <= k < n && a[k] == z;
      assert newer(a[n], a[k]);
    }
  }

  // ---------- Filters ----------

  function Filter<T>(keep: T -> bool, xs: seq<T>): seq<T> {
    if xs == [] then []
    else if keep(xs[0]) then [xs[0]] + Filter(keep, xs[1..])
    else Filter(keep, xs[1..])
  }

  lemma {:induction false} FilterAppend<T>(keep: T -> bool, xs: seq<T>, e: T)
    ensures Filter(keep, xs + [e]) == if keep(e) then Filter(keep, xs) + [e] else Filter(keep, xs)
  {
    if xs == [] {
      assert xs + [e] == [e] && [e][1..] == [];
    } else {
      assert (xs + [e])[1..] == xs[1..] + [e];
      FilterAppend(keep, xs[1..], e);
    }
  }

  ghost predicate NewestFirst<T>(newer: (T, T) -> bool, xs: seq<T>) {
    forall i, j :: 0 <= i < j < |xs| ==> !newer(xs[j], xs[i])
  }

  lemma {:induction false} SortIsNewestFirst<T(!new)>(newer: (T, T) -> bool, xs: seq<T>)
    requires Orders(newer)
    ensures NewestFirst(newer, Sorted(newer, xs))
  {
    var from := SortArranges(newer, xs);
    forall i, j | 0 <= i < j < |xs| ensures !newer(Sorted(newer, xs)[j], Sorted(newer, xs)[i]) {
      assert Before(newer, xs, from[i], from[j]);
    }
  }

  lemma {:induction false} FilterFirst<T(!new)>(newer: (T, T) -> bool, keep: T -> bool, e: T, sorted: seq<T>)
    requires Orders(newer) && NewestFirst(newer, sorted) && sorted != [] && newer(e, sorted[0])
    ensures Filter(keep, sorted) == [] || newer(e, Filter(keep, sorted)[0])
  {
    if !keep(sorted[0]) && |sorted| > 1 {
      FilterFirst(newer, keep, e, sorted[1..]);
    } else if |sorted| == 1 {
      assert sorted[1..] == [];
    }
  }

  lemma {:induction false} FilterInsert<T(!new)>(newer: (T, T) -> bool, keep: T -> bool, e: T, sorted: seq<T>)
    requires Orders(newer) && NewestFirst(newer, sorted)
    ensures Filter(keep, Insert(newer, e, sorted)) ==
            if keep(e) then Insert(newer, e, Filter(keep, sorted)) else Filter(keep, sorted)
  {
    if sorted == [] || newer(e, sorted[0]) {
      assert ([e] + sorted)[1..] == sorted;
      if sorted != [] { FilterFirst(newer, keep, e, sorted); }
    } else {
      assert ([sorted[0]] + Insert(newer, e, sorted[1..]))[1..] == Insert(newer, e, sorted[1..]);
      FilterInsert(newer, keep, e, sorted[1..]);
      if keep(sorted[0]) {
        assert ([sorted[0]] + Filter(keep, sorted[1..]))[1..] == Filter(keep, sorted[1..]);
      }
    }
  }

  /** Filtering first and listing then is listing first and filtering then. */
  lemma {:induction false} FilterThenSort<T(!new)>(newer: (T, T) -> bool, keep: T -> bool, xs: seq<T>)
    requires Orders(newer)
    ensures Sorted(newer, Filter(keep, xs)) == Filter(keep, Sorted(newer, xs))
  {
    if xs != [] {
      var front, e := xs[..|xs| - 1], xs[|xs| - 1];
      assert xs == front + [e];
      FilterThenSort(newer, keep, front);
      FilterAppend(keep, front, e);
      SortIsNewestFirst(newer, front);
      FilterInsert(newer, keep, e, Sorted(newer, front));
      if keep(e) {
        assert (Filter(keep, front) + [e])[..|Filter(keep, front)|] == Filter(keep, front);
      }
    }
  }

  lemma {:induction false} FilterMeaning<T>(keep: T -> bool, xs: seq<T>, e: T)
    ensures e in Filter(keep, xs) <==> e in xs && keep(e)
  {
    if xs != [] {
      FilterMeaning(keep, xs[1..], e);
      assert xs == [xs[0]] + xs[1..];
    }
  }

  /** What is kept is ascending when it comes in ascending order. */
  lemma {:induction false} FilterAscending<T(!new)>(newer: (T, T) -> bool, keep: T -> bool, xs: seq<T>)
    requires forall i, j :: 0 <= i < j < |xs| && keep(xs[i]) && keep(xs[j]) ==> newer(xs[j], xs[i])
    ensures Ascending(newer, Filter(keep, xs))
  {
    if xs != [] {
      var rest := Filter(keep, xs[1..]);
      FilterAscending(newer, keep, xs[1..]);
      if keep(xs[0]) {
        forall j | 0 <= j < |rest| ensures newer(rest[j], xs[0]) {
          assert rest[j] in rest;
          FilterMeaning(keep, xs[1..], rest[j]);
          var k :| 0 <= k < |xs[1..]| && xs[1..][k] == rest[j];
          assert xs[k + 1] == rest[j];
        }
      }
    }
  }

  /** The positions of the kept elements. */
  ghost predicate KeptAt<T(!new)>(keep: T -> bool, xs: seq<T>, at: seq<nat>) {
    && (forall j :: 0 <= j < |at| ==> at[j] < |xs| && keep(xs[at[j]]))
    && (forall j :: 1 <= j < |at| ==> at[j - 1] < at[j])
    && (forall i: nat :: i < |xs| && keep(xs[i]) ==> i in at)
  }

  lemma {:induction false} KeptPositions<T(!new)>(keep: T -> bool, xs: seq<T>) returns (at: seq<nat>)
    ensures KeptAt(keep, xs, at)
    ensures |Filter(keep, xs)| == |at| && forall j :: 0 <= j < |at| ==> Filter(keep, xs)[j] == xs[at[j]]
  {
    at := [];
    if xs != [] {
      var front, e := xs[..|xs| - 1], xs[|xs| - 1];
      assert xs == front + [e];
      var before := KeptPositions(keep, front);
      FilterAppend(keep, front, e);
      at := if keep(e) then before + [|front|] else before;
      KeptNext(keep, front, e, before);
    }
  }

  lemma {:induction false} KeptNext<T(!new)>(keep: T -> bool, front: seq<T>, e: T, at: seq<nat>)
    requires KeptAt(keep, front, at)
    ensures KeptAt(keep, front + [e], if keep(e) then at + [|front|] else at)
  {
    var xs, next := front + [e], if keep(e) then at + [|front|] else at;
    forall j | 0 <= j < |next| ensures next[j] < |xs| && keep(xs[next[j]]) && (j > 0 ==> next[j - 1] < next[j]) {
      assert j < |at| ==> xs[at[j]] == front[at[j]];
    }
    forall i: nat | i < |xs| && keep(xs[i]) ensures i in next {
      assert i < |front| ==> xs[i] == front[i] && i in at;
    }
  }
}
