/** The audit log's canonical encoding and hash chain (audit/chain.go,
    audit/event.go). */
module AuditChain {
  import Listings

  const SEPARATOR: char := '\U{1F}'

  /** An audit row.  Time 0 is Go's zero time; metadata values are their %v
      renderings; an empty prevHash is a NULL. */
  datatype Event = Event(
    id: string, time: int, actor: string, plugin: string, eventType: string, resourceType: string,
    resourceID: string, ip: string, userAgent: string, severity: string, metadata: map<string, string>,
    prevHash: string)

  /** The libraries under the chain: RFC 3339 time stamps and a keyed MAC. */
  datatype Lib = Lib(stamp: int -> string, mac: (string, string) -> string)
  {
    ghost predicate StampsFaithfully() {
      && (forall t :: t != 0 ==> stamp(t) != "" && SEPARATOR !in stamp(t))
      && (forall s, t :: s != 0 && t != 0 && stamp(s) == stamp(t) ==> s == t)
    }

    ghost predicate CollisionFree(key: string) {
      && (forall x :: mac(key, x) != "")
      && (forall x, y :: mac(key, x) == mac(key, y) ==> x == y)
    }
  }

  // ---------- String order (sort.Strings) ----------

  predicate StrLess(a: string, b: string)
    decreases |a|
  {
    b != "" && (a == "" || a[0] < b[0] || (a[0] == b[0] && StrLess(a[1..], b[1..])))
  }

  lemma {:induction false} StrTotal(a: string, b: string)
    ensures a == b || StrLess(a, b) || StrLess(b, a)
    decreases |a|
  {
    if a != "" && b != "" && a[0] == b[0] {
      StrTotal(a[1..], b[1..]);
      assert a == [a[0]] + a[1..] && b == [b[0]] + b[1..];
    }
  }

  lemma {:induction false} StrTransitive(a: string, b: string, c: string)
    requires StrLess(a, b) && StrLess(b, c)
    ensures StrLess(a, c)
    decreases |a|
  {
    if a != "" && a[0] == b[0] == c[0] {
      StrTransitive(a[1..], b[1..], c[1..]);
    }
  }

  lemma {:induction false} StrIrreflexive(a: string)
    ensures !StrLess(a, a)
    decreases |a|
  {
    if a != "" { StrIrreflexive(a[1..]); }
  }

  ghost predicate Ascending(ks: seq<string>) {
    forall i, j :: 0 <= i < j < |ks| ==> StrLess(ks[i], ks[j])
  }

  function SortStrings(ks: seq<string>): seq<string> { Listings.Sorted(StrLess, ks) }

  lemma {:induction false} InsertStringSorts(k: string, ks: seq<string>)
    requires Ascending(ks) && k !in ks
    ensures Ascending(Listings.Insert(StrLess, k, ks))
    ensures forall x :: x in Listings.Insert(StrLess, k, ks) <==> x == k || x in ks
  {
    if ks != [] {
      assert ks == [ks[0]] + ks[1..];
      if StrLess(k, ks[0]) {
        forall j | 0 <= j < |ks| ensures StrLess(k, ks[j]) { if j > 0 { StrTransitive(k, ks[0], ks[j]); } }
      } else {
        StrTotal(k, ks[0]);
        InsertStringSorts(k, ks[1..]);
        var rest := Listings.Insert(StrLess, k, ks[1..]);
        forall j | 0 <= j < |rest| ensures StrLess(ks[0], rest[j]) {
          assert rest[j] in rest;
        }
      }
    }
  }

  lemma {:induction false} SortStringsSorts(ks: seq<string>)
    requires forall i, j :: 0 <= i < j < |ks| ==> ks[i] != ks[j]
    ensures Ascending(SortStrings(ks)) && forall x :: x in SortStrings(ks) <==> x in ks
  {
    if ks != [] {
      SortStringsSorts(ks[..|ks| - 1]);
      InsertStringSorts(ks[|ks| - 1], SortStrings(ks[..|ks| - 1]));
    }
  }

  predicate StrGreater(a: string, b: string) { StrLess(b, a) }

  lemma {:induction false} StrGreaterOrders()
    ensures Listings.Orders(StrGreater)
  {
    forall a, b | StrGreater(a, b) ensures !StrGreater(b, a) {
      StrIrreflexive(a);
      if StrLess(a, b) { StrTransitive(a, b, a); }
    }
    forall a, b, c | StrGreater(a, b) ensures StrGreater(a, c) || StrGreater(c, b) {
      StrTotal(a, c);
      if StrLess(a, c) { StrTransitive(b, a, c); }
    }
  }

  lemma {:induction false} AscendingUnique(a: seq<string>, b: seq<string>)
    requires Ascending(a) && Ascending(b) && forall x :: x in a <==> x in b
    ensures a == b
  {
    StrGreaterOrders();
    Listings.AscendingUnique(StrGreater, a, b);
  }

  // ---------- The canonical encoding ----------

  ghost function SortedKeys(s: set<string>): (ks: seq<string>)
    ensures Ascending(ks) && forall k :: k in ks <==> k in s
  {
    if s == {} then []
    else
      var k :| k in s;
      InsertStringSorts(k, SortedKeys(s - {k}));
      Listings.Insert(StrLess, k, SortedKeys(s - {k}))
  }

  function Pairs(ks: seq<string>, m: map<string, string>): string
    requires forall k :: k in ks ==> k in m
  {
    if ks == [] then "" else ks[0] + ['='] + (m[ks[0]] + [';'] + Pairs(ks[1..], m))
  }

  ghost function CanonicalMetadataOf(m: map<string, string>): string {
    Pairs(SortedKeys(m.Keys), m)
  }

  method CollectKeys(m: map<string, string>) returns (keys: seq<string>)
    ensures forall k :: k in keys <==> k in m.Keys
    ensures forall i, j :: 0 <= i < j < |keys| ==> keys[i] != keys[j]
  {
    keys := [];
    var todo := m.Keys;
    while todo != {}
      invariant todo <= m.Keys
      invariant forall k :: k in keys <==> k in m.Keys && k !in todo
      invariant forall i, j :: 0 <= i < j < |keys| ==> keys[i] != keys[j]
    {
      var k :| k in todo;
      keys := keys + [k];
      todo := todo - {k};
    }
  }

  method CanonicalMetadata(m: map<string, string>) returns (out: string)
    ensures out == CanonicalMetadataOf(m)
  {
    if |m| == 0 {
      AscendingUnique(SortedKeys(m.Keys), []);
      return "";
    }
    var found := CollectKeys(m);
    SortStringsSorts(found);
    AscendingUnique(SortStrings(found), SortedKeys(m.Keys));
    out := RenderPairs(SortStrings(found), m);
  }

  method RenderPairs(keys: seq<string>, m: map<string, string>) returns (out: string)
    requires forall k :: k in keys ==> k in m
    ensures out == Pairs(keys, m)
  {
    out := "";
    for i := 0 to |keys|
      invariant out + Pairs(keys[i..], m) == Pairs(keys, m)
    {
      PairsNext(out, keys, m, i);
      out := out + keys[i] + "=" + m[keys[i]] + ";";
    }
  }

  lemma {:induction false} PairsNext(out: string, ks: seq<string>, m: map<string, string>, i: nat)
    requires i < |ks| && forall k :: k in ks ==> k in m
    ensures out + Pairs(ks[i..], m) == out + ks[i] + "=" + m[ks[i]] + ";" + Pairs(ks[i + 1..], m)
  {
    assert ks[i..][1..] == ks[i + 1..];
    var rest := Pairs(ks[i + 1..], m);
    assert Pairs(ks[i..], m) == ks[i] + ['='] + (m[ks[i]] + [';'] + rest);
  }

  function StampOf(lib: Lib, t: int): string {
    if t == 0 then "" else lib.stamp(t)
  }

  /** The fields before the metadata, in their order. */
  function Fields(lib: Lib, e: Event): seq<string> {
    [e.eventType, e.actor, e.plugin, e.resourceType, e.resourceID, e.ip, e.userAgent, e.severity, StampOf(lib, e.time)]
  }

  function Joined(fields: seq<string>, tail: string): string {
    if fields == [] then tail else fields[0] + [SEPARATOR] + Joined(fields[1..], tail)
  }

  ghost function Canonical(lib: Lib, e: Event): string {
    Joined(Fields(lib, e), CanonicalMetadataOf(e.metadata))
  }

  method CanonicalBytes(lib: Lib, e: Event) returns (b: string)
    ensures b == Canonical(lib, e)
  {
    var meta := CanonicalMetadata(e.metadata);
    var fields := Fields(lib, e);
    b := "";
    for i := 0 to |fields|
      invariant b + Joined(fields[i..], meta) == Joined(fields, meta)
    {
      JoinedNext(b, fields, meta, i);
      b := b + fields[i] + [SEPARATOR];
    }
    b := b + meta;
  }

  lemma {:induction false} JoinedNext(b: string, fields: seq<string>, tail: string, i: nat)
    requires i < |fields|
    ensures b + Joined(fields[i..], tail) == b + fields[i] + [SEPARATOR] + Joined(fields[i + 1..], tail)
  {
    assert fields[i..][1..] == fields[i + 1..];
    var rest := Joined(fields[i + 1..], tail);
    assert Joined(fields[i..], tail) == fields[i] + [SEPARATOR] + rest;
  }

  predicate IsZero(e: Event) {
    e.eventType == "" && e.time == 0 && |e.metadata| == 0
  }

  /** What the next row's prev_hash must be. */
  ghost function ChainHashOf(lib: Lib, key: string, prev: Event): string {
    if IsZero(prev) then "" else lib.mac(key, Canonical(lib, prev))
  }

  method ChainHash(lib: Lib, key: string, prev: Event) returns (h: string)
    ensures h == ChainHashOf(lib, key, prev)
  {
    if IsZero(prev) {
      return "";
    }
    var b := CanonicalBytes(lib, prev);
    return lib.mac(key, b);
  }

  // ---------- Injectivity ----------

  /** The side conditions: no separator before the metadata, no '=' in a key, no ';'
      in a rendered value. */
  ghost predicate Clean(e: Event) {
    && (forall f :: f in [e.eventType, e.actor, e.plugin, e.resourceType, e.resourceID, e.ip, e.userAgent, e.severity] ==>
          SEPARATOR !in f)
    && (forall k :: k in e.metadata ==> '=' !in k && ';' !in e.metadata[k])
  }

  /** Everything the hash covers. */
  ghost predicate SameContent(a: Event, b: Event) {
    a.(id := b.id, prevHash := b.prevHash) == b
  }

  /** Text up to a mark that does not occur in it is recovered. */
  lemma {:induction false} CutAtMark(a: string, b: string, mark: char, restA: string, restB: string)
    requires mark !in a && mark !in b && a + [mark] + restA == b + [mark] + restB
    ensures a == b && restA == restB
    decreases |a|
  {
    var whole := a + [mark] + restA;
    assert whole[0] == (if a == "" then mark else a[0]) && whole[0] == (if b == "" then mark else b[0]);
    if a == "" {
      assert restA == whole[1..];
      assert restB == (b + [mark] + restB)[1..];
    } else {
      assert whole[1..] == a[1..] + [mark] + restA;
      assert whole[1..] == b[1..] + [mark] + restB;
      CutAtMark(a[1..], b[1..], mark, restA, restB);
      assert a == [a[0]] + a[1..] && b == [b[0]] + b[1..];
    }
  }

  lemma {:induction false} JoinedInjective(f: seq<string>, g: seq<string>, tailF: string, tailG: string)
    requires |f| == |g| && Joined(f, tailF) == Joined(g, tailG)
    requires forall i :: 0 <= i < |f| ==> SEPARATOR !in f[i] && SEPARATOR !in g[i]
    ensures f == g && tailF == tailG
  {
    if f != [] {
      CutAtMark(f[0], g[0], SEPARATOR, Joined(f[1..], tailF), Joined(g[1..], tailG));
      JoinedInjective(f[1..], g[1..], tailF, tailG);
      assert f == [f[0]] + f[1..] && g == [g[0]] + g[1..];
    }
  }

  lemma {:induction false} PairsInjective(ks: seq<string>, m: map<string, string>, ls: seq<string>, n: map<string, string>)
    requires (forall k :: k in ks ==> k in m && '=' !in k && ';' !in m[k])
    requires (forall l :: l in ls ==> l in n && '=' !in l && ';' !in n[l])
    requires Pairs(ks, m) == Pairs(ls, n)
    ensures ks == ls && forall k :: k in ks ==> m[k] == n[k]
  {
    if ks != [] && ls != [] {
      CutAtMark(ks[0], ls[0], '=', m[ks[0]] + [';'] + Pairs(ks[1..], m), n[ls[0]] + [';'] + Pairs(ls[1..], n));
      CutAtMark(m[ks[0]], n[ls[0]], ';', Pairs(ks[1..], m), Pairs(ls[1..], n));
      PairsInjective(ks[1..], m, ls[1..], n);
      assert ks == [ks[0]] + ks[1..] && ls == [ls[0]] + ls[1..];
    }
  }

  /** Two clean events have the same canonical bytes only if they agree on every
      hashed field. */
  lemma {:induction false} CanonicalInjective(lib: Lib, a: Event, b: Event)
    requires lib.StampsFaithfully() && Clean(a) && Clean(b)
    requires Canonical(lib, a) == Canonical(lib, b)
    ensures SameContent(a, b)
  {
    var fa, fb := Fields(lib, a), Fields(lib, b);
    CleanFields(lib, a);
    CleanFields(lib, b);
    JoinedInjective(fa, fb, CanonicalMetadataOf(a.metadata), CanonicalMetadataOf(b.metadata));
    assert forall i :: 0 <= i < 9 ==> fa[i] == fb[i];
    assert fa[0] == fb[0] && fa[1] == fb[1] && fa[2] == fb[2] && fa[3] == fb[3] && fa[4] == fb[4];
    assert fa[5] == fb[5] && fa[6] == fb[6] && fa[7] == fb[7] && fa[8] == fb[8];
    PairsInjective(SortedKeys(a.metadata.Keys), a.metadata, SortedKeys(b.metadata.Keys), b.metadata);
    assert a.metadata == b.metadata;
  }

  lemma {:induction false} CleanFields(lib: Lib, e: Event)
    requires lib.StampsFaithfully() && Clean(e)
    ensures forall i :: 0 <= i < |Fields(lib, e)| ==> SEPARATOR !in Fields(lib, e)[i]
  {
    var plain := [e.eventType, e.actor, e.plugin, e.resourceType, e.resourceID, e.ip, e.userAgent, e.severity];
    assert Fields(lib, e) == plain + [StampOf(lib, e.time)];
    assert forall i :: 0 <= i < |plain| ==> plain[i] in plain;
  }
}
