/** Exactly how much of an event its canonical bytes determine (audit/chain.go). */
module AuditEncoding {
  import opened AuditChain

  // ---------- Counting a character ----------

  function Count(s: string, mark: char): nat {
    if s == "" then 0 else (if s[0] == mark then 1 else 0) + Count(s[1..], mark)
  }

  lemma {:induction false} CountConcat(a: string, b: string, mark: char)
    ensures Count(a + b, mark) == Count(a, mark) + Count(b, mark)
  {
    if a == "" {
      assert a + b == b;
    } else {
      assert (a + b)[1..] == a[1..] + b;
      CountConcat(a[1..], b, mark);
    }
  }

  lemma {:induction false} CountZero(s: string, mark: char)
    ensures Count(s, mark) == 0 <==> mark !in s
  {
    if s != "" {
      CountZero(s[1..], mark);
      assert s == [s[0]] + s[1..];
    }
  }

  lemma {:induction false} CountMarked(a: string, mark: char, b: string, c: char)
    ensures Count(a + [mark] + b, c) == Count(a, c) + (if mark == c then 1 else 0) + Count(b, c)
  {
    CountConcat(a + [mark], b, c);
    CountConcat(a, [mark], c);
    assert [mark][1..] == "";
  }

  // ---------- The fields before the metadata ----------

  /** One separator a field, and no more exactly when nothing in it holds another. */
  lemma {:induction false} JoinedCount(fields: seq<string>, tail: string)
    ensures Count(Joined(fields, tail), SEPARATOR) >= |fields|
    ensures Count(Joined(fields, tail), SEPARATOR) == |fields| <==>
            (forall i :: 0 <= i < |fields| ==> SEPARATOR !in fields[i]) && SEPARATOR !in tail
  {
    if fields == [] {
      CountZero(tail, SEPARATOR);
    } else {
      JoinedCount(fields[1..], tail);
      CountMarked(fields[0], SEPARATOR, Joined(fields[1..], tail), SEPARATOR);
      CountZero(fields[0], SEPARATOR);
      assert fields == [fields[0]] + fields[1..];
    }
  }

  /** The eight fields before the time stamp. */
  function Texts(e: Event): seq<string> {
    [e.eventType, e.actor, e.plugin, e.resourceType, e.resourceID, e.ip, e.userAgent, e.severity]
  }

  ghost predicate TextsBare(e: Event) {
    forall i :: 0 <= i < 8 ==> SEPARATOR !in Texts(e)[i]
  }

  /** No separator in the fields nor in the rendered metadata. */
  ghost predicate Bare(e: Event) {
    TextsBare(e) && SEPARATOR !in CanonicalMetadataOf(e.metadata)
  }

  /** What the hash can tell apart: the fields, the time, and the rendered metadata. */
  ghost predicate SameHashed(a: Event, b: Event) {
    Texts(a) == Texts(b) && a.time == b.time && CanonicalMetadataOf(a.metadata) == CanonicalMetadataOf(b.metadata)
  }

  lemma {:induction false} FieldsOf(lib: Lib, e: Event)
    ensures Fields(lib, e) == Texts(e) + [StampOf(lib, e.time)]
  {
  }

  lemma {:induction false} FieldsBare(lib: Lib, e: Event)
    requires lib.StampsFaithfully()
    ensures (forall i :: 0 <= i < |Fields(lib, e)| ==> SEPARATOR !in Fields(lib, e)[i]) <==> TextsBare(e)
  {
    FieldsOf(lib, e);
    var f := Fields(lib, e);
    assert SEPARATOR !in f[8];
    assert forall i :: 0 <= i < 8 ==> f[i] == Texts(e)[i];
  }

  /** Of a bare event the bytes tell exactly that, whatever the other event holds. */
  lemma {:induction false} BytesTellHashed(lib: Lib, a: Event, b: Event)
    requires lib.StampsFaithfully() && Bare(a)
    ensures Canonical(lib, a) == Canonical(lib, b) <==> SameHashed(a, b)
  {
    FieldsOf(lib, a);
    FieldsOf(lib, b);
    if Canonical(lib, a) == Canonical(lib, b) {
      var fa, fb := Fields(lib, a), Fields(lib, b);
      var ma, mb := CanonicalMetadataOf(a.metadata), CanonicalMetadataOf(b.metadata);
      FieldsBare(lib, a);
      JoinedCount(fa, ma);
      JoinedCount(fb, mb);
      JoinedInjective(fa, fb, ma, mb);
      assert Texts(a) == fa[..8] && Texts(b) == fb[..8] && fa[8] == fb[8];
    }
  }

  // ---------- The metadata ----------

  ghost predicate MetadataReadsBack(m: map<string, string>) {
    forall n :: CanonicalMetadataOf(n) == CanonicalMetadataOf(m) ==> n == m
  }

  /** At most one entry, with no '=' in its key or its value. */
  predicate Plain(m: map<string, string>) {
    |m| <= 1 && forall k :: k in m ==> '=' !in k && '=' !in m[k]
  }

  lemma {:induction false} OneEntry(k: string, v: string)
    ensures CanonicalMetadataOf(map[k := v]) == k + ['='] + (v + [';'])
  {
    var m := map[k := v];
    assert m.Keys == {k};
    AscendingUnique(SortedKeys(m.Keys), [k]);
    assert [k][1..] == [];
    assert Pairs([], m) == "";
    assert v + [';'] + "" == v + [';'];
  }

  lemma {:induction false} NoEntries()
    ensures CanonicalMetadataOf(map[]) == ""
  {
    var m: map<string, string> := map[];
    AscendingUnique(SortedKeys(m.Keys), []);
  }

  lemma {:induction false} PairsCount(ks: seq<string>, m: map<string, string>)
    requires forall k :: k in ks ==> k in m
    ensures Count(Pairs(ks, m), '=') >= |ks|
  {
    if ks != [] {
      PairsCount(ks[1..], m);
      CountMarked(ks[0], '=', m[ks[0]] + [';'] + Pairs(ks[1..], m), '=');
      CountMarked(m[ks[0]], ';', Pairs(ks[1..], m), '=');
    }
  }

  lemma {:induction false} KeysCounted(m: map<string, string>)
    ensures |SortedKeys(m.Keys)| == |m|
  {
    AscendingSize(SortedKeys(m.Keys), m.Keys);
  }

  lemma {:induction false} AscendingSize(ks: seq<string>, s: set<string>)
    requires Ascending(ks) && forall k :: k in ks <==> k in s
    ensures |ks| == |s|
  {
    if ks == [] {
      assert s == {};
    } else {
      var rest := s - {ks[0]};
      forall k ensures k in ks[1..] <==> k in rest {
        assert ks == [ks[0]] + ks[1..];
        if k in ks[1..] {
          var j :| 0 <= j < |ks[1..]| && ks[1..][j] == k;
          assert StrLess(ks[0], ks[1 + j]);
          StrIrreflexive(k);
        }
      }
      AscendingSize(ks[1..], rest);
      assert |s| == |rest| + 1;
    }
  }

  /** A map of one entry. */
  lemma {:induction false} OnlyEntry(m: map<string, string>, k: string)
    requires |m| == 1 && k in m
    ensures m == map[k := m[k]]
  {
    assert |m.Keys| == |m| && |m.Keys - {k}| == |m.Keys| - 1;
    assert m.Keys - {k} == {};
    assert forall x :: x in m ==> x == k;
  }

  lemma {:induction false} SizeOfPlain(k: string, v: string, n: map<string, string>)
    requires '=' !in k && '=' !in v && CanonicalMetadataOf(n) == k + ['='] + (v + [';'])
    ensures |n| == 1
  {
    KeysCounted(n);
    PairsCount(SortedKeys(n.Keys), n);
    CountZero(k, '=');
    CountZero(v, '=');
    CountMarked(k, '=', v + [';'], '=');
    CountMarked(v, ';', "", '=');
    assert v + [';'] + "" == v + [';'];
  }

  lemma {:induction false} SamePair(k: string, v: string, l: string, w: string)
    requires '=' !in k && '=' !in v && k + ['='] + (v + [';']) == l + ['='] + (w + [';'])
    ensures k == l && v == w
  {
    CountZero(k, '=');
    CountZero(v, '=');
    CountZero(l, '=');
    CountMarked(k, '=', v + [';'], '=');
    CountMarked(l, '=', w + [';'], '=');
    CountMarked(v, ';', "", '=');
    assert v + [';'] + "" == v + [';'];
    CutAtMark(k, l, '=', v + [';'], w + [';']);
    assert v == (v + [';'])[..|v + [';']| - 1] && w == (w + [';'])[..|w + [';']| - 1];
  }

  /** A plain map is the only one with its rendering. */
  lemma {:induction false} PlainReadsBack(m: map<string, string>, n: map<string, string>)
    requires Plain(m) && CanonicalMetadataOf(n) == CanonicalMetadataOf(m)
    ensures n == m
  {
    if |m| == 0 {
      assert m == map[];
      NoEntries();
      KeysCounted(n);
      PairsCount(SortedKeys(n.Keys), n);
      assert |n| == 0;
    } else {
      var k :| k in m;
      OnlyEntry(m, k);
      OneEntry(k, m[k]);
      SizeOfPlain(k, m[k], n);
      var l := KeyOf(n);
      OnlyEntry(n, l);
      OneEntry(l, n[l]);
      SamePair(k, m[k], l, n[l]);
    }
  }

  lemma {:induction false} KeyOf(n: map<string, string>) returns (l: string)
    requires |n| == 1
    ensures l in n
  {
    assert |n.Keys| == 1;
    l :| l in n.Keys;
  }

  /** Every other map shares its rendering with a map of one entry. */
  lemma {:induction false} NotPlainCollides(m: map<string, string>) returns (n: map<string, string>)
    requires !Plain(m)
    ensures n != m && |n| == 1 && CanonicalMetadataOf(n) == CanonicalMetadataOf(m)
  {
    if |m| >= 2 {
      n := SwallowRest(m);
    } else {
      var k :| k in m && ('=' in k || '=' in m[k]);
      assert |m| == 1;
      OnlyEntry(m, k);
      n := MarkMoves(k, m[k]);
    }
  }

  /** One pair with an '=' to spare can be cut elsewhere. */
  lemma {:induction false} MarkMoves(k: string, v: string) returns (n: map<string, string>)
    requires '=' in k || '=' in v
    ensures n != map[k := v] && |n| == 1 && CanonicalMetadataOf(n) == CanonicalMetadataOf(map[k := v])
  {
    OneEntry(k, v);
    if '=' in k {
      var i :| 0 <= i < |k| && k[i] == '=';
      var a, b := k[..i], k[i + 1..];
      assert k == a + ['='] + b;
      n := map[a := b + ['='] + v];
      OneEntry(a, b + ['='] + v);
      Shifted(a, b, v);
      assert a in n && |a| < |k|;
    } else {
      var i :| 0 <= i < |v| && v[i] == '=';
      var c, d := v[..i], v[i + 1..];
      assert v == c + ['='] + d;
      n := map[k + ['='] + c := d];
      OneEntry(k + ['='] + c, d);
      Shifted(k, c, d);
      assert k + ['='] + c in n && |k + ['='] + c| > |k|;
    }
  }

  lemma {:induction false} Shifted(a: string, b: string, c: string)
    ensures a + ['='] + b + ['='] + (c + [';']) == a + ['='] + (b + ['='] + c + [';'])
  {
  }

  /** The first key can take all the rest as its value. */
  lemma {:induction false} SwallowRest(m: map<string, string>) returns (n: map<string, string>)
    requires |m| >= 2
    ensures n != m && |n| == 1 && CanonicalMetadataOf(n) == CanonicalMetadataOf(m)
  {
    var ks := SortedKeys(m.Keys);
    KeysCounted(m);
    var rest := Pairs(ks[1..], m);
    PairsEnd(ks[1..], m);
    Swallow(m[ks[0]], rest);
    var v := m[ks[0]] + [';'] + rest[..|rest| - 1];
    n := map[ks[0] := v];
    OneEntry(ks[0], v);
  }

  lemma {:induction false} Swallow(v: string, rest: string)
    requires rest != "" && rest[|rest| - 1] == ';'
    ensures v + [';'] + rest[..|rest| - 1] + [';'] == v + [';'] + rest
  {
    assert rest == rest[..|rest| - 1] + [';'];
  }

  lemma {:induction false} PairsEnd(ks: seq<string>, m: map<string, string>)
    requires ks != [] && forall k :: k in ks ==> k in m
    ensures Pairs(ks, m) != "" && Pairs(ks, m)[|Pairs(ks, m)| - 1] == ';'
  {
    if |ks| > 1 {
      PairsEnd(ks[1..], m);
    } else {
      assert ks[1..] == [] && Pairs([], m) == "";
    }
  }

  /** Exactly which metadata the rendering determines. */
  lemma {:induction false} MetadataReadsBackExactlyWhen(m: map<string, string>)
    ensures MetadataReadsBack(m) <==> |m| <= 1 && forall k :: k in m ==> '=' !in k && '=' !in m[k]
  {
    if Plain(m) {
      forall n | CanonicalMetadataOf(n) == CanonicalMetadataOf(m) ensures n == m { PlainReadsBack(m, n); }
    } else {
      var n := NotPlainCollides(m);
    }
  }

  // ---------- The whole event ----------

  /** The event with its i-th text replaced. */
  function WithText(e: Event, i: nat, s: string): (r: Event)
    requires i < 8
    ensures Texts(r) == Texts(e)[i := s] && r.time == e.time && r.metadata == e.metadata
  {
    match i
    case 0 => e.(eventType := s)
    case 1 => e.(actor := s)
    case 2 => e.(plugin := s)
    case 3 => e.(resourceType := s)
    case 4 => e.(resourceID := s)
    case 5 => e.(ip := s)
    case 6 => e.(userAgent := s)
    case _ => e.(severity := s)
  }

  /** Two adjacent fields may trade text across the separator between them. */
  lemma {:induction false} JoinedTrade(f: seq<string>, g: seq<string>, tail: string, i: nat)
    requires |f| == |g| && i + 1 < |f|
    requires forall j :: 0 <= j < |f| && j != i && j != i + 1 ==> f[j] == g[j]
    requires f[i] + [SEPARATOR] + f[i + 1] == g[i] + [SEPARATOR] + g[i + 1]
    ensures Joined(f, tail) == Joined(g, tail)
  {
    if i == 0 {
      var rest := Joined(f[1..][1..], tail);
      assert f[1..][1..] == g[1..][1..];
      JoinedTwo(f[0], f[1], rest);
      JoinedTwo(g[0], g[1], rest);
    } else {
      JoinedTrade(f[1..], g[1..], tail, i - 1);
    }
  }

  lemma {:induction false} JoinedTwo(a: string, b: string, rest: string)
    ensures a + [SEPARATOR] + (b + [SEPARATOR] + rest) == a + [SEPARATOR] + b + [SEPARATOR] + rest
  {
  }

  /** A separator inside any of the eight fields lets text move to a neighbour: another event,
      with other fields, has the same bytes. */
  lemma {:induction false} SeparatorCollides(lib: Lib, e: Event) returns (other: Event)
    requires !TextsBare(e)
    ensures Canonical(lib, other) == Canonical(lib, e) && Texts(other) != Texts(e)
  {
    var i :| 0 <= i < 8 && SEPARATOR in Texts(e)[i];
    var t := Texts(e);
    var j :| 0 <= j < |t[i]| && t[i][j] == SEPARATOR;
    var x, y := t[i][..j], t[i][j + 1..];
    assert t[i] == x + [SEPARATOR] + y;
    if i < 7 {
      other := WithText(WithText(e, i, x), i + 1, y + [SEPARATOR] + t[i + 1]);
      JoinedTwo(x, y, t[i + 1]);
      Traded(lib, e, other, i);
      assert Texts(other)[i] == x && |x| < |t[i]|;
    } else {
      other := WithText(WithText(e, 6, t[6] + [SEPARATOR] + x), 7, y);
      JoinedTwo(t[6], x, y);
      Traded(lib, e, other, 6);
      assert Texts(other)[7] == y && |y| < |t[7]|;
    }
  }

  lemma {:induction false} Traded(lib: Lib, e: Event, other: Event, i: nat)
    requires i < 7 && other.time == e.time && other.metadata == e.metadata
    requires forall j :: 0 <= j < 8 && j != i && j != i + 1 ==> Texts(e)[j] == Texts(other)[j]
    requires Texts(e)[i] + [SEPARATOR] + Texts(e)[i + 1] == Texts(other)[i] + [SEPARATOR] + Texts(other)[i + 1]
    ensures Canonical(lib, other) == Canonical(lib, e)
  {
    FieldsOf(lib, e);
    FieldsOf(lib, other);
    JoinedTrade(Fields(lib, e), Fields(lib, other), CanonicalMetadataOf(e.metadata), i);
  }

  /** Exactly which events their bytes determine, when no separator hides in the metadata. */
  lemma {:induction false} EncodingReadsBackExactlyWhen(lib: Lib, e: Event)
    requires lib.StampsFaithfully() && SEPARATOR !in CanonicalMetadataOf(e.metadata)
    ensures (forall other :: Canonical(lib, other) == Canonical(lib, e) ==> SameContent(other, e)) <==>
            (forall i :: 0 <= i < 8 ==> SEPARATOR !in Texts(e)[i]) && Plain(e.metadata)
  {
    if !TextsBare(e) {
      var other := SeparatorCollides(lib, e);
      assert !SameContent(other, e);
    } else if !Plain(e.metadata) {
      var n := NotPlainCollides(e.metadata);
      var other := e.(metadata := n);
      BytesTellHashed(lib, e, other);
      assert Canonical(lib, other) == Canonical(lib, e) && !SameContent(other, e);
    } else {
      forall other | Canonical(lib, other) == Canonical(lib, e) ensures SameContent(other, e) {
        BytesTellHashed(lib, e, other);
        PlainReadsBack(e.metadata, other.metadata);
        SameTexts(e, other);
      }
    }
  }

  lemma {:induction false} SameTexts(a: Event, b: Event)
    requires Texts(a) == Texts(b) && a.time == b.time && a.metadata == b.metadata
    ensures SameContent(b, a)
  {
    var s, t := Texts(a), Texts(b);
    assert s[0] == t[0] && s[1] == t[1] && s[2] == t[2] && s[3] == t[3];
    assert s[4] == t[4] && s[5] == t[5] && s[6] == t[6] && s[7] == t[7];
  }
}
