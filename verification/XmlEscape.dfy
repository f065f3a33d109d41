/** The hand-written escaping of exported header strings (tools/migrate-corpus/wxr.go). */
module XmlEscape {
  import opened Common

  // ---------- Search and replace ----------

  predicate OccursAt(s: string, sub: string, i: nat) {
    i + |sub| <= |s| && s[i..i + |sub|] == sub
  }

  /** The least position of sub at or after i. */
  function Search(s: string, sub: string, i: nat): (r: Option<nat>)
    ensures r.Some? ==> i <= r.value && OccursAt(s, sub, r.value)
    decreases |s| - i
  {
    if i + |sub| > |s| then None
    else if OccursAt(s, sub, i) then Some(i)
    else Search(s, sub, i + 1)
  }

  lemma {:induction false} NothingEarlier(s: string, sub: string, i: nat, j: nat)
    requires i <= j && (Search(s, sub, i).Some? ==> j < Search(s, sub, i).value)
    ensures !OccursAt(s, sub, j)
    decreases |s| - i
  {
    if i < j && i + |sub| <= |s| {
      NothingEarlier(s, sub, i + 1, j);
    }
  }

  function Replaced(s: string, old_: string, new_: string): string
    requires old_ != ""
    decreases |s|
  {
    match Search(s, old_, 0)
    case None => s
    case Some(i) => Spliced(s[..i], new_, Replaced(s[i + |old_|..], old_, new_))
  }

  /** Text before a match, its replacement, and the rest. */
  function Spliced(a: string, b: string, c: string): string { a + b + c }

  method IndexOf(s: string, sub: string) returns (at: int)
    ensures at == -1 <==> Search(s, sub, 0).None?
    ensures at != -1 ==> Search(s, sub, 0) == Some(at)
    ensures at == -1 ==> forall i: nat :: !OccursAt(s, sub, i)
    ensures at != -1 ==> 0 <= at && OccursAt(s, sub, at) && forall i: nat :: i < at ==> !OccursAt(s, sub, i)
  {
    var n, m := |s|, |sub|;
    if m == 0 {
      return 0;
    }
    var i := 0;
    while i + m <= n
      invariant 0 <= i && Search(s, sub, 0) == Search(s, sub, i)
      invariant forall j: nat :: j < i ==> !OccursAt(s, sub, j)
      decreases n - i
    {
      if s[i..i + m] == sub {
        return i;
      }
      i := i + 1;
    }
    return -1;
  }

  lemma {:induction false} ReplacedStep(out: string, rest: string, old_: string, new_: string, i: nat)
    requires old_ != "" && Search(rest, old_, 0) == Some(i)
    ensures out + Replaced(rest, old_, new_) == out + rest[..i] + new_ + Replaced(rest[i + |old_|..], old_, new_)
  {
    var tail := Replaced(rest[i + |old_|..], old_, new_);
    FirstReplaced(rest, old_, new_, i);
    Regroup(out, rest[..i], new_, tail);
  }

  lemma {:induction false} FirstReplaced(rest: string, old_: string, new_: string, i: nat)
    requires old_ != "" && Search(rest, old_, 0) == Some(i)
    ensures Replaced(rest, old_, new_) == Spliced(rest[..i], new_, Replaced(rest[i + |old_|..], old_, new_))
  {
  }

  lemma {:induction false} Regroup(a: string, b: string, c: string, d: string)
    ensures a + (b + c + d) == a + b + c + d
  {
  }

  method ReplaceAll(s: string, old_: string, new_: string) returns (out: string)
    ensures out == if old_ == "" then s else Replaced(s, old_, new_)
  {
    if old_ == "" {
      return s;
    }
    out := "";
    var rest := s;
    while true
      invariant Replaced(s, old_, new_) == out + Replaced(rest, old_, new_)
      decreases |rest|
    {
      var i := IndexOf(rest, old_);
      if i < 0 {
        return out + rest;
      }
      ReplacedStep(out, rest, old_, new_, i);
      out := out + rest[..i] + new_;
      rest := rest[i + |old_|..];
    }
  }

  /** Without an occurrence nothing is replaced; otherwise the first is, and what follows it is treated the same way. */
  lemma {:induction false} ReplacedMeaning(s: string, old_: string, new_: string, i: nat)
    requires old_ != "" && i <= |s|
    requires forall j: nat :: j < i ==> !OccursAt(s, old_, j)
    ensures i + |old_| > |s| ==> Replaced(s, old_, new_) == s
    ensures i + |old_| <= |s| && s[i..i + |old_|] == old_ ==>
              Replaced(s, old_, new_) == s[..i] + new_ + Replaced(s[i + |old_|..], old_, new_)
  {
    if OccursAt(s, old_, i) {
      if Search(s, old_, 0).None? || i < Search(s, old_, 0).value { NothingEarlier(s, old_, 0, i); }
      FirstReplaced(s, old_, new_, i);
    }
  }

  // ---------- Character-wise maps ----------

  function Each(f: char -> string, s: string): string {
    if s == "" then "" else f(s[0]) + Each(f, s[1..])
  }

  /** One pass: this character becomes that string. */
  function Turn(c: char, put: string): char -> string {
    (x: char) => if x == c then put else [x]
  }

  lemma {:induction false} EachAppends(f: char -> string, a: string, b: string)
    ensures Each(f, a + b) == Each(f, a) + Each(f, b)
  {
    if a == "" {
      assert a + b == b;
    } else {
      assert (a + b)[1..] == a[1..] + b;
      EachAppends(f, a[1..], b);
    }
  }

  lemma {:induction false} EachOfOthers(c: char, put: string, s: string)
    requires forall k :: 0 <= k < |s| ==> s[k] != c
    ensures Each(Turn(c, put), s) == s
  {
    if s != "" {
      EachOfOthers(c, put, s[1..]);
      assert s == [s[0]] + s[1..];
    }
  }

  /** Search-and-replace of one character is a map over the characters. */
  lemma {:induction false} ReplacingOneCharacter(s: string, c: char, put: string)
    ensures Replaced(s, [c], put) == Each(Turn(c, put), s)
    decreases |s|
  {
    match Search(s, [c], 0)
    case None =>
      NotBefore(s, c, |s|);
      EachOfOthers(c, put, s);
    case Some(i) =>
      NotBefore(s, c, i);
      EachToFirst(s, c, put, i);
      ReplacingOneCharacter(s[i + 1..], c, put);
  }

  lemma {:induction false} NotBefore(s: string, c: char, i: nat)
    requires i <= |s| && (Search(s, [c], 0).Some? ==> i <= Search(s, [c], 0).value)
    ensures forall k :: 0 <= k < i ==> s[k] != c
  {
    forall k: nat | k < i ensures s[k] != c {
      NothingEarlier(s, [c], 0, k);
      assert s[k..k + 1] == [s[k]];
    }
  }

  lemma {:induction false} EachToFirst(s: string, c: char, put: string, i: nat)
    requires i < |s| && s[i] == c && forall k :: 0 <= k < i ==> s[k] != c
    ensures Each(Turn(c, put), s) == s[..i] + put + Each(Turn(c, put), s[i + 1..])
  {
    var rest := s[i..];
    assert s == s[..i] + rest;
    EachAppends(Turn(c, put), s[..i], rest);
    EachOfOthers(c, put, s[..i]);
    assert rest[1..] == s[i + 1..];
  }

  // ---------- The five passes ----------

  const AMP := "&amp;"
  const LT := "&lt;"
  const GT := "&gt;"
  const QUOT := "&quot;"
  const APOS := "&apos;"

  /** The predefined entity of a character (section 4.6 of XML 1.0), or the character itself. */
  function Entity(c: char): string {
    match c
    case '&' => AMP
    case '<' => LT
    case '>' => GT
    case '"' => QUOT
    case '\'' => APOS
    case _ => [c]
  }

  /** The five whole-string replacements, ampersand first. */
  function Passes(s: string): string {
    var a := Replaced(s, ['&'], AMP);
    var b := Replaced(a, ['<'], LT);
    var c := Replaced(b, ['>'], GT);
    var d := Replaced(c, ['"'], QUOT);
    Replaced(d, ['\''], APOS)
  }

  /** One more pass over text already escaped: it reaches only characters left as they were. */
  lemma {:induction false} OnePassMore(f: char -> string, c: char, put: string, g: char -> string, s: string)
    requires forall x: char :: Each(Turn(c, put), f(x)) == g(x)
    ensures Each(Turn(c, put), Each(f, s)) == Each(g, s)
  {
    if s != "" {
      EachAppends(Turn(c, put), f(s[0]), Each(f, s[1..]));
      OnePassMore(f, c, put, g, s[1..]);
    }
  }

  /** The first n of the five passes, as one map. */
  function FirstPasses(n: nat): char -> string {
    (x: char) =>
      if x == '&' && n >= 1 then AMP else if x == '<' && n >= 2 then LT else if x == '>' && n >= 3 then GT
      else if x == '"' && n >= 4 then QUOT else if x == '\'' && n >= 5 then APOS else [x]
  }

  lemma {:induction false} Unfold(c: char, put: string, x: char, n: nat)
    requires c != '&' && c !in AMP && c !in LT && c !in GT && c !in QUOT && c !in APOS
    ensures Each(Turn(c, put), FirstPasses(n)(x)) == if FirstPasses(n)(x) == [c] then put else FirstPasses(n)(x)
  {
    var e := FirstPasses(n)(x);
    if e == [x] {
      assert e[1..] == "";
    } else {
      EachOfOthers(c, put, e);
    }
  }

  lemma {:induction false} PassExtends(s: string, c: char, put: string, n: nat)
    requires 1 <= n <= 4 && (c, put) == [('<', LT), ('>', GT), ('"', QUOT), ('\'', APOS)][n - 1]
    ensures Replaced(Each(FirstPasses(n), s), [c], put) == Each(FirstPasses(n + 1), s)
  {
    ReplacingOneCharacter(Each(FirstPasses(n), s), c, put);
    forall x: char ensures Each(Turn(c, put), FirstPasses(n)(x)) == FirstPasses(n + 1)(x) {
      Unfold(c, put, x, n);
    }
    OnePassMore(FirstPasses(n), c, put, FirstPasses(n + 1), s);
  }

  lemma {:induction false} EachSame(f: char -> string, g: char -> string, s: string)
    requires forall x: char :: f(x) == g(x)
    ensures Each(f, s) == Each(g, s)
  {
    if s != "" { EachSame(f, g, s[1..]); }
  }

  lemma {:induction false} FirstPass(s: string)
    ensures Replaced(s, ['&'], AMP) == Each(FirstPasses(1), s)
  {
    ReplacingOneCharacter(s, '&', AMP);
    EachSame(Turn('&', AMP), FirstPasses(1), s);
  }

  lemma {:induction false} AllPasses(s: string)
    ensures Each(FirstPasses(5), s) == Each(Entity, s)
  {
    EachSame(FirstPasses(5), Entity, s);
  }

  /** Five passes over the whole string are one map over its characters:
      no pass touches what an earlier one put in. */
  lemma {:induction false} FivePassesAreOne(s: string)
    ensures Passes(s) == Each(Entity, s)
  {
    FirstPass(s);
    PassExtends(s, '<', LT, 1);
    PassExtends(s, '>', GT, 2);
    PassExtends(s, '"', QUOT, 3);
    PassExtends(s, '\'', APOS, 4);
    AllPasses(s);
  }

  method Escape(s: string) returns (out: string)
    ensures out == Each(Entity, s)
  {
    var replacer := [("&", AMP), ("<", LT), (">", GT), ("\"", QUOT), ("'", APOS)];
    out := s;
    var i := 0;
    while i < |replacer|
      invariant 0 <= i <= 5
      invariant out == if i == 0 then s else Each(FirstPasses(i), s)
    {
      out := ReplaceAll(out, replacer[i].0, replacer[i].1);
      ghost var c := replacer[i].0[0];
      assert replacer[i].0 == [c];
      if i == 0 {
        FirstPass(s);
      } else {
        PassExtends(s, c, replacer[i].1, i);
      }
      i := i + 1;
    }
    AllPasses(s);
  }

  /** Escaping works character by character, with these five replacements and no other. */
  lemma {:induction false} EscapedAt(s: string, c: char)
    ensures Each(Entity, "") == ""
    ensures Each(Entity, s + [c]) == Each(Entity, s) +
              if c == '&' then "&amp;" else if c == '<' then "&lt;" else if c == '>' then "&gt;"
              else if c == '"' then "&quot;" else if c == '\'' then "&apos;" else [c]
  {
    EachAppends(Entity, s, [c]);
    assert [c][1..] == "" && Entity(c) + "" == Entity(c);
  }

  // ---------- Decoding ----------

  /** Reads the five predefined entities back; anything else stands for itself. */
  function Decode(s: string): string
    decreases |s|
  {
    if s == "" then ""
    else if AMP <= s then "&" + Decode(s[|AMP|..])
    else if LT <= s then "<" + Decode(s[|LT|..])
    else if GT <= s then ">" + Decode(s[|GT|..])
    else if QUOT <= s then "\"" + Decode(s[|QUOT|..])
    else if APOS <= s then "'" + Decode(s[|APOS|..])
    else [s[0]] + Decode(s[1..])
  }

  /** Decoding undoes escaping, for every string. */
  lemma {:induction false} DecodeUndoesEscape(s: string)
    ensures Decode(Each(Entity, s)) == s
  {
    if s != "" {
      DecodeUndoesEscape(s[1..]);
      DecodeEntity(s[0], Each(Entity, s[1..]));
      assert s == [s[0]] + s[1..];
    }
  }

  lemma {:induction false} DecodeEntity(c: char, rest: string)
    ensures Decode(Entity(c) + rest) == [c] + Decode(rest)
  {
    var e, whole := Entity(c), Entity(c) + rest;
    assert whole[|e|..] == rest && e <= whole;
    if c in "&<>\"'" {
      SameStart(e, AMP, whole);
      SameStart(e, LT, whole);
      SameStart(e, GT, whole);
      SameStart(e, QUOT, whole);
    } else {
      assert whole[0] == c;
    }
  }

  /** No string starts with two different entities. */
  lemma {:induction false} SameStart(e: string, f: string, whole: string)
    requires e in [AMP, LT, GT, QUOT, APOS] && f in [AMP, LT, GT, QUOT, APOS]
    requires e <= whole
    ensures f <= whole ==> e == f
  {
    if f <= whole {
      assert e[1] == whole[1] == f[1] && e[2] == whole[2] == f[2];
    }
  }

  predicate Special(c: char) { c in "<>\"'" }

  /** Nothing in the output opens or closes markup or an attribute value. */
  lemma {:induction false} EscapedIsInert(s: string)
    ensures forall k :: 0 <= k < |Each(Entity, s)| ==> !Special(Each(Entity, s)[k])
  {
    if s != "" {
      EscapedIsInert(s[1..]);
      assert forall k :: 0 <= k < |Entity(s[0])| ==> !Special(Entity(s[0])[k]);
    }
  }

  /** Two inputs never share an output. */
  lemma {:induction false} EscapeIsInjective(a: string, b: string)
    ensures Each(Entity, a) == Each(Entity, b) ==> a == b
  {
    DecodeUndoesEscape(a);
    DecodeUndoesEscape(b);
  }
}
