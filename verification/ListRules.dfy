/** What a listing shows, by the fields of the rows and of the filter (memory.go, List and matchFilter). */
module ListRules {
  import opened Common
  import opened Revisions
  import opened MemoryStores
  import opened Listings

  /** The row was made from `start` on, up to `end`, by the author and of the kind asked for, where these are given. */
  predicate AskedFor(r: Revision, f: Filters) {
    && (f.start == 0 || f.start <= r.createdAt) && (f.end == 0 || r.createdAt <= f.end)
    && (f.authorID == NIL || f.authorID == r.authorID) && (f.kind == None || f.kind == Some(r.kind))
  }

  function Asked(rows: seq<Revision>, f: Filters): set<nat> { set i: nat | i < |rows| && AskedFor(rows[i], f) }

  lemma {:induction false} OneMoreAsked(front: seq<Revision>, r: Revision, f: Filters)
    ensures Asked(front + [r], f) == Asked(front, f) + if AskedFor(r, f) then {|front|} else {}
  {
  }

  lemma {:induction false} FilterCount(rows: seq<Revision>, f: Filters)
    ensures |Filter(Matching(f), rows)| == |Asked(rows, f)|
  {
    if rows == [] {
      assert Asked(rows, f) == {};
    } else {
      var front, r := rows[..|rows| - 1], rows[|rows| - 1];
      assert rows == front + [r];
      FilterCount(front, f);
      FilterAppend(Matching(f), front, r);
      OneMoreAsked(front, r, f);
    }
  }

  lemma {:induction false} ListedAsked(rows: seq<Revision>, f: Filters)
    ensures var sorted := SortNewest(Filter(Matching(f), rows));
            |sorted| == |Asked(rows, f)| && forall r :: r in sorted <==> r in rows && AskedFor(r, f)
  {
    var kept := Filter(Matching(f), rows);
    var sorted := SortNewest(kept);
    FilterCount(rows, f);
    SortPermutes(Newer, kept);
    forall r ensures r in sorted <==> r in rows && AskedFor(r, f) {
      FilterMeaning(Matching(f), rows, r);
      assert r in sorted <==> r in multiset(sorted);
      assert r in kept <==> r in multiset(kept);
    }
  }

  /** a is at least as new as b: later, or as late with no smaller id. */
  predicate NoOlder(a: Revision, b: Revision) {
    a.createdAt > b.createdAt || (a.createdAt == b.createdAt && a.id >= b.id)
  }

  lemma {:induction false} CutSorted(sorted: seq<Revision>, n: nat)
    requires forall i, j :: 0 <= i < j < |sorted| ==> NoOlder(sorted[i], sorted[j])
    ensures var out := Cut(sorted, n);
            && |out| == (if |sorted| > n then n else |sorted|)
            && (forall i, j :: 0 <= i < j < |out| ==> NoOlder(out[i], out[j]))
            && (forall r :: r in out ==> r in sorted)
            && forall r, i :: r in sorted && r !in out && 0 <= i < |out| ==> NoOlder(out[i], r)
  {
    var out := Cut(sorted, n);
    forall r, i | r in sorted && r !in out && 0 <= i < |out| ensures NoOlder(out[i], r) {
      var rest := sorted[|out|..];
      assert sorted == out + rest;
      assert r in rest;
      var k :| 0 <= k < |rest| && rest[k] == r;
      assert NoOlder(sorted[i], sorted[|out| + k]);
    }
  }

  /** A listing shows rows of the post that were asked for, newest first, as many as there are up to the limit, which is 100
      when none is given; and no row it leaves out is newer than one it shows. */
  lemma {:induction false} ListMeaning(rows: seq<Revision>, f: Filters)
    ensures var out := Cut(SortNewest(Filter(Matching(f), rows)), Limit(f));
            var n, limit := |Asked(rows, f)|, if f.limit <= 0 then 100 else f.limit;
            && |out| == (if n > limit then limit else n)
            && (forall r :: r in out ==> r in rows && AskedFor(r, f))
            && (forall i, j :: 0 <= i < j < |out| ==> NoOlder(out[i], out[j]))
            && forall r, i :: r in rows && AskedFor(r, f) && r !in out && 0 <= i < |out| ==> NoOlder(out[i], r)
  {
    var sorted := SortNewest(Filter(Matching(f), rows));
    NewerOrders();
    SortIsNewestFirst(Newer, Filter(Matching(f), rows));
    ListedAsked(rows, f);
    forall i, j | 0 <= i < j < |sorted| ensures NoOlder(sorted[i], sorted[j]) { assert !Newer(sorted[j], sorted[i]); }
    CutSorted(sorted, Limit(f));
  }
}
