/** Redirect rules and their in-memory store (redirects/store.go). Times count from the zero time. */
module RedirectStore {
  import opened Common

  datatype RuleID = RuleID(text: string)
  const NIL := RuleID("")

  datatype Rule = Rule(id: RuleID, source: string, destination: string, status: int, isRegex: bool,
                       hits: nat, lastHit: nat, created: nat, createdBy: Option<string>)

  type Rules = map<RuleID, Rule>

  datatype Error = InvalidRule | Duplicate | NotFound

  predicate ValidRule(r: Rule) {
    r.source != "" && r.destination != "" && r.status in {301, 302, 307, 308}
  }

  /** Another rule than `self` already has this source and kind. */
  ghost predicate Taken(rules: Rules, source: string, isRegex: bool, self: Option<RuleID>) {
    exists id :: id in rules && self != Some(id) && rules[id].source == source && rules[id].isRegex == isRegex
  }

  ghost function Created(rules: Rules, draft: Rule, id: RuleID, now: nat): Result<Rule, Error> {
    if !ValidRule(draft) then Err(InvalidRule)
    else if Taken(rules, draft.source, draft.isRegex, None) then Err(Duplicate)
    else Ok(draft.(id := id, created := now, hits := 0, lastHit := 0))
  }

  ghost function Updated(rules: Rules, draft: Rule): Result<Rule, Error> {
    if !ValidRule(draft) || draft.id == NIL then Err(InvalidRule)
    else if draft.id !in rules then Err(NotFound)
    else if Taken(rules, draft.source, draft.isRegex, Some(draft.id)) then Err(Duplicate)
    else Ok(rules[draft.id].(source := draft.source, destination := draft.destination,
                             status := draft.status, isRegex := draft.isRegex))
  }

  ghost function Put(rules: Rules, outcome: Result<Rule, Error>): Rules {
    match outcome case Ok(r) => rules[r.id := r] case Err(_) => rules
  }

  /** Create, field by field: an empty source or destination or another status than the four is refused, then a second
      rule of the same source and kind; otherwise the rule is new, with no hits. */
  lemma {:induction false} CreateWrites(rules: Rules, draft: Rule, id: RuleID, now: nat)
    ensures var out, after := Created(rules, draft, id, now), Put(rules, Created(rules, draft, id, now));
            if draft.source == "" || draft.destination == ""
               || (draft.status != 301 && draft.status != 302 && draft.status != 307 && draft.status != 308)
            then out == Err(InvalidRule) && after == rules
            else if exists other :: other in rules && rules[other].source == draft.source && rules[other].isRegex == draft.isRegex
            then out == Err(Duplicate) && after == rules
            else
              && out == Ok(Rule(id, draft.source, draft.destination, draft.status, draft.isRegex, 0, 0, now, draft.createdBy))
              && after == rules[id := out.value]
  {
    if other :| other in rules && rules[other].source == draft.source && rules[other].isRegex == draft.isRegex {
      assert Taken(rules, draft.source, draft.isRegex, None);
    }
  }

  /** Update, field by field: refused like Create and without an id, then when there is no such rule, then when another rule has the
      source and kind; otherwise source, destination, status and kind change, and the hits, times and author stay. */
  lemma {:induction false} UpdateWrites(rules: Rules, draft: Rule)
    ensures var out, after := Updated(rules, draft), Put(rules, Updated(rules, draft));
            if draft.id == NIL || draft.source == "" || draft.destination == ""
               || (draft.status != 301 && draft.status != 302 && draft.status != 307 && draft.status != 308)
            then out == Err(InvalidRule) && after == rules
            else if draft.id !in rules then out == Err(NotFound) && after == rules
            else if exists other :: other in rules && other != draft.id && rules[other].source == draft.source
                                    && rules[other].isRegex == draft.isRegex
            then out == Err(Duplicate) && after == rules
            else
              var was := rules[draft.id];
              && out == Ok(Rule(was.id, draft.source, draft.destination, draft.status, draft.isRegex,
                                was.hits, was.lastHit, was.created, was.createdBy))
              && after == rules[was.id := out.value]
  {
    if other :| other in rules && other != draft.id && rules[other].source == draft.source && rules[other].isRegex == draft.isRegex {
      assert Taken(rules, draft.source, draft.isRegex, Some(draft.id));
    }
  }

  ghost predicate OneOfAKind(rules: Rules, a: RuleID, b: RuleID)
    requires a in rules && b in rules
  {
    rules[a].source == rules[b].source && rules[a].isRegex == rules[b].isRegex ==> a == b
  }

  /** Rows are stored under their own id, are valid, and no two share source and kind. */
  ghost predicate WellKept(rules: Rules) {
    && (forall id :: id in rules ==> rules[id].id == id && id != NIL && ValidRule(rules[id]))
    && (forall a, b :: a in rules && b in rules ==> OneOfAKind(rules, a, b))
  }

  lemma {:induction false} EditsKeepRules(rules: Rules, draft: Rule, id: RuleID, now: nat)
    requires WellKept(rules)
    ensures id != NIL && id !in rules ==> WellKept(Put(rules, Created(rules, draft, id, now)))
    ensures WellKept(Put(rules, Updated(rules, draft)))
    ensures WellKept(rules - {id})
  {
    var after := rules - {id};
    forall a, b | a in after && b in after ensures OneOfAKind(after, a, b) {
      assert OneOfAKind(rules, a, b);
    }
    if id != NIL && id !in rules { NewRowKeepsRules(rules, Created(rules, draft, id, now)); }
    NewRowKeepsRules(rules, Updated(rules, draft));
  }

  lemma {:induction false} NewRowKeepsRules(rules: Rules, outcome: Result<Rule, Error>)
    requires WellKept(rules)
    requires outcome.Ok? ==> outcome.value.id != NIL && ValidRule(outcome.value)
                             && !Taken(rules, outcome.value.source, outcome.value.isRegex, Some(outcome.value.id))
    ensures WellKept(Put(rules, outcome))
  {
    var after := Put(rules, outcome);
    forall a, b | a in after && b in after ensures OneOfAKind(after, a, b) {
      if a in rules && b in rules { assert OneOfAKind(rules, a, b); }
    }
  }

  // ---------- Hit deltas ----------

  datatype Delta = Delta(rule: RuleID, count: int, last: int)

  /** Hits gathered for one rule. */
  datatype Tally = Tally(count: nat, last: nat)

  function Later(a: nat, b: int): nat { if b > a then b else a }

  function Credit(r: Rule, d: Delta): Rule
    requires d.count > 0
  {
    r.(hits := r.hits + d.count, lastHit := Later(r.lastHit, d.last))
  }

  function Credited(rules: Rules, d: Delta): Rules {
    if d.count <= 0 || d.rule !in rules then rules else rules[d.rule := Credit(rules[d.rule], d)]
  }

  /** One delta after another. Those that count nothing or name no rule are dropped. */
  function CreditAll(rules: Rules, deltas: seq<Delta>): Rules {
    if deltas == [] then rules else Credited(CreditAll(rules, deltas[..|deltas| - 1]), deltas[|deltas| - 1])
  }

  function TallyAt(merged: map<RuleID, Tally>, id: RuleID): Tally {
    if id in merged then merged[id] else Tally(0, 0)
  }

  function Gathered(merged: map<RuleID, Tally>, d: Delta): map<RuleID, Tally> {
    if d.count <= 0 then merged
    else
      var t := TallyAt(merged, d.rule);
      merged[d.rule := Tally(t.count + d.count, Later(t.last, d.last))]
  }

  /** Deltas gathered rule by rule: the sum of the positive counts and the latest of their times. */
  function Merged(deltas: seq<Delta>): map<RuleID, Tally> {
    if deltas == [] then map[] else Gathered(Merged(deltas[..|deltas| - 1]), deltas[|deltas| - 1])
  }

  /** Every rule with its tally added, all at once. */
  function CreditMerged(rules: Rules, merged: map<RuleID, Tally>): Rules {
    map id | id in rules ::
      var r, t := rules[id], TallyAt(merged, id);
      r.(hits := r.hits + t.count, lastHit := Later(r.lastHit, t.last))
  }

  /** Adding merged tallies once is the same as adding the deltas one by one. */
  lemma {:induction false} MergingChangesNothing(rules: Rules, deltas: seq<Delta>)
    ensures CreditMerged(rules, Merged(deltas)) == CreditAll(rules, deltas)
  {
    if deltas == [] {
      assert forall id :: id in rules ==> CreditMerged(rules, Merged(deltas))[id] == rules[id];
    } else {
      var before, d := deltas[..|deltas| - 1], deltas[|deltas| - 1];
      MergingChangesNothing(rules, before);
      MergedStep(rules, Merged(before), d);
    }
  }

  lemma {:induction false} MergedStep(rules: Rules, merged: map<RuleID, Tally>, d: Delta)
    ensures CreditMerged(rules, Gathered(merged, d)) == Credited(CreditMerged(rules, merged), d)
  {
    forall id | id in rules
      ensures CreditMerged(rules, Gathered(merged, d))[id] == Credited(CreditMerged(rules, merged), d)[id]
    {
      assert TallyAt(Gathered(merged, d), id) ==
        if d.rule == id && d.count > 0 then Tally(TallyAt(merged, id).count + d.count, Later(TallyAt(merged, id).last, d.last))
        else TallyAt(merged, id);
    }
  }

  /** The sum of the positive counts that name a rule. */
  function Total(deltas: seq<Delta>, id: RuleID): nat {
    if deltas == [] then 0
    else
      var d := deltas[|deltas| - 1];
      Total(deltas[..|deltas| - 1], id) + if d.rule == id && d.count > 0 then d.count else 0
  }

  /** Crediting touches only the counters of rules that exist: counts grow by the total
      delivered, and the last hit becomes the latest time seen, never an earlier one. */
  lemma {:induction false} CreditMeaning(rules: Rules, deltas: seq<Delta>, id: RuleID)
    ensures CreditAll(rules, deltas).Keys == rules.Keys
    ensures id in rules ==>
              var r := CreditAll(rules, deltas)[id];
              && r == rules[id].(hits := rules[id].hits + Total(deltas, id), lastHit := r.lastHit)
              && r.lastHit >= rules[id].lastHit
              && (forall i :: 0 <= i < |deltas| && deltas[i].rule == id && deltas[i].count > 0 ==> r.lastHit >= deltas[i].last)
              && (r.lastHit == rules[id].lastHit
                  || exists i :: 0 <= i < |deltas| && deltas[i].rule == id && deltas[i].count > 0 && r.lastHit == deltas[i].last)
  {
    if deltas != [] {
      CreditMeaning(rules, deltas[..|deltas| - 1], id);
    }
  }

  lemma {:induction false} CreditKeepsRules(rules: Rules, deltas: seq<Delta>)
    requires WellKept(rules)
    ensures WellKept(CreditAll(rules, deltas))
  {
    if deltas != [] {
      CreditKeepsRules(rules, deltas[..|deltas| - 1]);
      var before, after := CreditAll(rules, deltas[..|deltas| - 1]), CreditAll(rules, deltas);
      forall a, b | a in after && b in after ensures OneOfAKind(after, a, b) {
        assert OneOfAKind(before, a, b);
      }
    }
  }

  // ---------- Listings ----------

  ghost predicate ByCreation(listing: seq<Rule>) {
    forall i, j :: 0 <= i <= j < |listing| ==> listing[i].created <= listing[j].created
  }

  ghost predicate ListedOnce(rules: Rules, listing: seq<Rule>) {
    && (forall i :: 0 <= i < |listing| ==> listing[i].id in rules && rules[listing[i].id] == listing[i])
    && (forall i, j :: 0 <= i < j < |listing| ==> listing[i].id != listing[j].id)
  }

  ghost predicate Lists(listing: seq<Rule>, r: Rule) { r in listing }

  /** Every rule once, oldest first. */
  ghost predicate IsSnapshot(rules: Rules, listing: seq<Rule>) {
    && ByCreation(listing) && ListedOnce(rules, listing)
    && forall id :: id in rules ==> Lists(listing, rules[id]) && rules[id].id == id
  }

  ghost predicate DistinctTimes(rules: Rules) {
    forall a, b :: a in rules && b in rules && rules[a].created == rules[b].created ==> a == b
  }

  /** Creation times that differ leave only one listing. */
  lemma {:induction false} SnapshotIsUnique(rules: Rules, one: seq<Rule>, other: seq<Rule>)
    requires IsSnapshot(rules, one) && IsSnapshot(rules, other) && DistinctTimes(rules)
    ensures one == other
  {
    forall r ensures Lists(one, r) <==> Lists(other, r) {
      if Lists(one, r) { assert Lists(other, rules[r.id]); }
      if Lists(other, r) { assert Lists(one, rules[r.id]); }
    }
    SameRulesSameOrder(one, other);
  }

  ghost predicate StrictlyByCreation(listing: seq<Rule>) {
    forall i, j :: 0 <= i < j < |listing| ==> listing[i].created < listing[j].created
  }

  lemma {:induction false} SameRulesSameOrder(one: seq<Rule>, other: seq<Rule>)
    requires StrictlyByCreation(one) && StrictlyByCreation(other)
    requires forall r :: Lists(one, r) <==> Lists(other, r)
    ensures one == other
  {
    if one == [] {
      if other != [] { assert Lists(other, other[0]); }
    } else {
      assert Lists(one, one[|one| - 1]);
      var front, rest := one[..|one| - 1], other[..|other| - 1];
      assert Lists(other, other[|other| - 1]);
      assert one[|one| - 1] == other[|other| - 1];
      forall r ensures Lists(front, r) <==> Lists(rest, r) {
        FrontLists(one, r);
        FrontLists(other, r);
        assert Lists(one, r) <==> Lists(other, r);
      }
      SameRulesSameOrder(front, rest);
      assert one == front + [one[|one| - 1]] && other == rest + [one[|one| - 1]];
    }
  }

  lemma {:induction false} FrontLists(listing: seq<Rule>, r: Rule)
    requires listing != [] && StrictlyByCreation(listing)
    ensures Lists(listing[..|listing| - 1], r) <==> Lists(listing, r) && r != listing[|listing| - 1]
  {
    var n := |listing| - 1;
    assert listing == listing[..n] + [listing[n]];
    if Lists(listing[..n], r) {
      var k :| 0 <= k < n && listing[k] == r;
      assert listing[k].created < listing[n].created;
    }
  }

  // ---------- The code ----------

  class InMemoryStore {
    var rules: Rules

    ghost predicate Valid() reads this { WellKept(rules) }

    constructor ()
      ensures Valid() && rules == map[]
    {
      rules := map[];
    }

    method Clash(source: string, isRegex: bool, self: Option<RuleID>) returns (found: bool)
      ensures found <==> Taken(rules, source, isRegex, self)
    {
      var todo := rules.Keys;
      while todo != {}
        invariant todo <= rules.Keys
        invariant forall id :: id in rules && id !in todo && self != Some(id)
                    ==> !(rules[id].source == source && rules[id].isRegex == isRegex)
      {
        var id :| id in todo;
        if self != Some(id) && rules[id].source == source && rules[id].isRegex == isRegex {
          return true;
        }
        todo := todo - {id};
      }
      return false;
    }

    method Create(draft: Rule, id: RuleID, now: nat) returns (out: Result<Rule, Error>)
      requires Valid() && id != NIL && id !in rules
      modifies this
      ensures Valid() && out == Created(old(rules), draft, id, now) && rules == Put(old(rules), out)
    {
      EditsKeepRules(rules, draft, id, now);
      if !ValidRule(draft) {
        return Err(InvalidRule);
      }
      var clash := Clash(draft.source, draft.isRegex, None);
      if clash {
        return Err(Duplicate);
      }
      var rule := draft.(id := id, created := now, hits := 0, lastHit := 0);
      rules := rules[id := rule];
      return Ok(rule);
    }

    method Update(draft: Rule) returns (out: Result<Rule, Error>)
      requires Valid()
      modifies this
      ensures Valid() && out == Updated(old(rules), draft) && rules == Put(old(rules), out)
    {
      EditsKeepRules(rules, draft, NIL, 0);
      if !ValidRule(draft) || draft.id == NIL {
        return Err(InvalidRule);
      }
      if draft.id !in rules {
        return Err(NotFound);
      }
      var clash := Clash(draft.source, draft.isRegex, Some(draft.id));
      if clash {
        return Err(Duplicate);
      }
      var existing := rules[draft.id];
      existing := existing.(source := draft.source, destination := draft.destination);
      existing := existing.(status := draft.status, isRegex := draft.isRegex);
      rules := rules[draft.id := existing];
      return Ok(existing);
    }

    method Delete(id: RuleID)
      requires Valid()
      modifies this
      ensures Valid() && rules == old(rules) - {id}
    {
      EditsKeepRules(rules, Rule(id, "", "", 0, false, 0, 0, 0, None), id, 0);
      rules := rules - {id};
    }

    method Snapshot() returns (out: seq<Rule>)
      requires Valid()
      ensures IsSnapshot(rules, out)
    {
      out := [];
      var todo := rules.Keys;
      while todo != {}
        invariant todo <= rules.Keys
        invariant ListedOnce(rules, out) && forall i :: 0 <= i < |out| ==> out[i].id !in todo
        invariant forall id :: id in rules && id !in todo ==> Lists(out, rules[id])
      {
        var id :| id in todo;
        out := out + [rules[id]];
        todo := todo - {id};
      }
      out := SortByCreation(rules, out);
    }

    /** One delta after another, dropping those for rules that are gone. */
    method BulkIncrementHits(deltas: seq<Delta>)
      requires Valid()
      modifies this
      ensures Valid() && rules == CreditAll(old(rules), deltas)
    {
      var i := 0;
      while i < |deltas|
        invariant 0 <= i <= |deltas| && rules == CreditAll(old(rules), deltas[..i])
      {
        var d := deltas[i];
        assert deltas[..i + 1][..i] == deltas[..i];
        if d.count > 0 && d.rule in rules {
          var r := rules[d.rule];
          r := r.(hits := r.hits + d.count);
          if d.last > r.lastHit {
            r := r.(lastHit := d.last);
          }
          rules := rules[d.rule := r];
        }
        i := i + 1;
      }
      assert deltas[..i] == deltas;
      CreditKeepsRules(old(rules), deltas);
    }
  }

  /** Orders a listing by creation time; one already in order is left alone, ties included. */
  method SortByCreation(ghost rules: Rules, listing: seq<Rule>) returns (out: seq<Rule>)
    requires ListedOnce(rules, listing)
    ensures ByCreation(out) && ListedOnce(rules, out)
    ensures forall r :: Lists(out, r) <==> Lists(listing, r)
    ensures ByCreation(listing) ==> out == listing
  {
    out := [];
    var i := 0;
    while i < |listing|
      invariant 0 <= i <= |listing| && ByCreation(out) && ListedOnce(rules, out)
      invariant forall r :: Lists(out, r) <==> Lists(listing[..i], r)
      invariant ByCreation(listing) ==> out == listing[..i]
    {
      var r, k := listing[i], |out|;
      while k > 0 && out[k - 1].created > r.created
        invariant 0 <= k <= |out|
        invariant forall j :: k <= j < |out| ==> out[j].created > r.created
        decreases k
      {
        k := k - 1;
      }
      InsertRule(rules, out, r, k, listing[..i]);
      assert listing[..i + 1] == listing[..i] + [r];
      out := Inserted(out, r, k);
      i := i + 1;
    }
    assert listing[..i] == listing;
  }

  lemma {:induction false} InsertRule(rules: Rules, out: seq<Rule>, r: Rule, k: nat, seen: seq<Rule>)
    requires ByCreation(out) && ListedOnce(rules, out) && k <= |out|
    requires r.id in rules && rules[r.id] == r && forall i :: 0 <= i < |seen| ==> seen[i].id != r.id
    requires forall q :: Lists(out, q) <==> Lists(seen, q)
    requires k > 0 ==> out[k - 1].created <= r.created
    requires forall j :: k <= j < |out| ==> out[j].created > r.created
    ensures ByCreation(Inserted(out, r, k)) && ListedOnce(rules, Inserted(out, r, k))
    ensures forall q :: Lists(Inserted(out, r, k), q) <==> Lists(seen + [r], q)
  {
    forall i | 0 <= i < |out| ensures out[i].id != r.id {
      assert Lists(out, out[i]);
      var j :| 0 <= j < |seen| && seen[j] == out[i];
    }
    InsertedOnce(rules, out, r, k);
    forall q ensures Lists(Inserted(out, r, k), q) <==> Lists(seen + [r], q) {
      InsertedLists(out, r, k, q);
      assert Lists(out, q) <==> Lists(seen, q);
    }
  }

  function Inserted(out: seq<Rule>, r: Rule, k: nat): seq<Rule>
    requires k <= |out|
  {
    out[..k] + [r] + out[k..]
  }

  lemma {:induction false} InsertedOnce(rules: Rules, out: seq<Rule>, r: Rule, k: nat)
    requires ListedOnce(rules, out) && k <= |out| && r.id in rules && rules[r.id] == r
    requires forall i :: 0 <= i < |out| ==> out[i].id != r.id
    ensures ListedOnce(rules, Inserted(out, r, k))
  {
    var after := Inserted(out, r, k);
    forall i | 0 <= i < |after|
      ensures after[i] == if i < k then out[i] else if i == k then r else out[i - 1]
    {}
  }

  lemma {:induction false} InsertedLists(out: seq<Rule>, r: Rule, k: nat, q: Rule)
    requires k <= |out|
    ensures Lists(Inserted(out, r, k), q) <==> Lists(out, q) || q == r
  {
    assert out == out[..k] + out[k..];
    assert q in Inserted(out, r, k) <==> q in out[..k] || q == r || q in out[k..];
    assert q in out <==> q in out[..k] || q in out[k..];
  }

  /** What the database store does: gather first, then one statement for all rules. */
  class PgxStore {
    var table: Rules

    constructor ()
      ensures table == map[]
    {
      table := map[];
    }

    method BulkIncrementHits(deltas: seq<Delta>)
      modifies this
      ensures table == CreditAll(old(table), deltas)
    {
      var merged: map<RuleID, Tally> := map[];
      var i := 0;
      while i < |deltas|
        invariant 0 <= i <= |deltas| && merged == Merged(deltas[..i])
      {
        var d := deltas[i];
        assert deltas[..i + 1][..i] == deltas[..i];
        if d.count > 0 {
          var a := TallyAt(merged, d.rule);
          a := a.(count := a.count + d.count);
          if d.last > a.last {
            a := a.(last := d.last);
          }
          merged := merged[d.rule := a];
        }
        i := i + 1;
      }
      assert deltas[..i] == deltas;
      MergingChangesNothing(table, deltas);
      if merged == map[] {
        return;
      }
      table := CreditMerged(table, merged);
    }
  }
}
