/** The redirect index, its hit counters and their flushes (redirects/engine.go). */
module RedirectEngine {
  import opened Common
  import opened RedirectStore

  /** The regular-expression library: which patterns compile, what they match, how a match expands. */
  datatype Regex = Regex(compiles: string -> bool, matches: (string, string) -> bool,
                         expand: (string, string, string) -> string)

  /** A successful lookup, as the middleware answers with it. */
  datatype Redirect = Redirect(rule: RuleID, destination: string, status: int, isRegex: bool)

  // ---------- The index ----------

  function Literals(listing: seq<Rule>): map<string, Rule> {
    if listing == [] then map[]
    else
      var before, r := Literals(listing[..|listing| - 1]), listing[|listing| - 1];
      if r.isRegex then before else before[r.source := r]
  }

  function Patterns(re: Regex, listing: seq<Rule>): seq<Rule> {
    if listing == [] then []
    else
      var r := listing[|listing| - 1];
      Patterns(re, listing[..|listing| - 1]) + if r.isRegex && re.compiles(r.source) then [r] else []
  }

  function FirstMatching(re: Regex, patterns: seq<Rule>, path: string): Option<Rule> {
    if patterns == [] then None
    else if re.matches(patterns[0].source, path) then Some(patterns[0])
    else FirstMatching(re, patterns[1..], path)
  }

  /** The rule the index of a listing answers with. */
  function Found(re: Regex, listing: seq<Rule>, path: string): Option<Rule> {
    if path in Literals(listing) then Some(Literals(listing)[path])
    else FirstMatching(re, Patterns(re, listing), path)
  }

  function Redirected(re: Regex, r: Rule, path: string): Redirect {
    Redirect(r.id, if r.isRegex then re.expand(r.source, r.destination, path) else r.destination, r.status, r.isRegex)
  }

  // ---------- The scan it must agree with ----------

  ghost predicate Fires(re: Regex, r: Rule, path: string) {
    if r.isRegex then re.compiles(r.source) && re.matches(r.source, path) else r.source == path
  }

  /** a comes before b: literal before pattern, then older before newer. */
  ghost predicate Beats(a: Rule, b: Rule) {
    if a.isRegex == b.isRegex then a.created <= b.created else b.isRegex
  }

  /** The answer a scan of all the rules gives. */
  ghost predicate IsAnswer(re: Regex, rules: Rules, path: string, answer: Option<Rule>) {
    match answer
    case None => forall id :: id in rules ==> !Fires(re, rules[id], path)
    case Some(r) =>
      && r.id in rules && rules[r.id] == r && Fires(re, r, path)
      && forall id :: id in rules && Fires(re, rules[id], path) ==> Beats(r, rules[id])
  }

  lemma {:induction false} AnswerIsUnique(re: Regex, rules: Rules, path: string, one: Option<Rule>, other: Option<Rule>)
    requires WellKept(rules) && DistinctTimes(rules)
    requires IsAnswer(re, rules, path, one) && IsAnswer(re, rules, path, other)
    ensures one == other
  {
    if one.Some? && other.Some? {
      assert Fires(re, rules[one.value.id], path) && Fires(re, rules[other.value.id], path);
      assert rules[one.value.id].created == rules[other.value.id].created;
    }
  }

  lemma {:induction false} LiteralsMeaning(rules: Rules, listing: seq<Rule>, path: string)
    requires WellKept(rules) && ListedOnce(rules, listing)
    ensures path in Literals(listing) ==>
              Lists(listing, Literals(listing)[path]) && !Literals(listing)[path].isRegex && Literals(listing)[path].source == path
    ensures forall r :: Lists(listing, r) && !r.isRegex && r.source == path ==>
              path in Literals(listing) && Literals(listing)[path] == r
  {
    if listing != [] {
      var front, last := listing[..|listing| - 1], listing[|listing| - 1];
      LiteralsMeaning(rules, front, path);
      assert listing == front + [last];
      forall r | Lists(listing, r) && !r.isRegex && r.source == path
        ensures path in Literals(listing) && Literals(listing)[path] == r
      {
        if !last.isRegex && last.source == path {
          assert OneOfAKind(rules, r.id, last.id);
        } else {
          assert Lists(front, r);
        }
      }
      if path in Literals(front) {
        assert Lists(front, Literals(front)[path]);
      }
    }
  }

  lemma {:induction false} PatternsMeaning(re: Regex, listing: seq<Rule>, r: Rule)
    ensures Lists(Patterns(re, listing), r) <==> Lists(listing, r) && r.isRegex && re.compiles(r.source)
  {
    if listing != [] {
      var front, last := listing[..|listing| - 1], listing[|listing| - 1];
      PatternsMeaning(re, front, r);
      assert listing == front + [last];
    }
  }

  lemma {:induction false} PatternsInOrder(re: Regex, rules: Rules, listing: seq<Rule>)
    requires ListedOnce(rules, listing) && ByCreation(listing)
    ensures ListedOnce(rules, Patterns(re, listing)) && ByCreation(Patterns(re, listing))
  {
    if listing != [] {
      var front, last := listing[..|listing| - 1], listing[|listing| - 1];
      PatternsInOrder(re, rules, front);
      forall i | 0 <= i < |Patterns(re, front)|
        ensures Patterns(re, front)[i].id != last.id && Patterns(re, front)[i].created <= last.created
      {
        var r := Patterns(re, front)[i];
        assert Lists(Patterns(re, front), r);
        PatternsMeaning(re, front, r);
        var k :| 0 <= k < |front| && front[k] == r;
        assert listing[k] == r;
      }
    }
  }

  lemma {:induction false} FirstMatchingMeaning(re: Regex, patterns: seq<Rule>, path: string)
    requires ByCreation(patterns)
    ensures FirstMatching(re, patterns, path).None? ==> forall r :: Lists(patterns, r) ==> !re.matches(r.source, path)
    ensures FirstMatching(re, patterns, path).Some? ==>
              var f := FirstMatching(re, patterns, path).value;
              && Lists(patterns, f) && re.matches(f.source, path)
              && forall r :: Lists(patterns, r) && re.matches(r.source, path) ==> f.created <= r.created
  {
    if patterns != [] {
      FirstMatchingMeaning(re, patterns[1..], path);
      assert patterns == [patterns[0]] + patterns[1..];
      assert forall r :: Lists(patterns, r) <==> r == patterns[0] || Lists(patterns[1..], r);
    }
  }

  /** The index answers every path as a scan of the rules would. */
  lemma {:induction false} LookupIsScan(re: Regex, rules: Rules, listing: seq<Rule>, path: string)
    requires WellKept(rules) && IsSnapshot(rules, listing)
    ensures IsAnswer(re, rules, path, Found(re, listing, path))
  {
    var patterns := Patterns(re, listing);
    LiteralsMeaning(rules, listing, path);
    PatternsInOrder(re, rules, listing);
    FirstMatchingMeaning(re, patterns, path);
    if Found(re, listing, path).Some? {
      var f := Found(re, listing, path).value;
      PatternsMeaning(re, listing, f);
      assert Lists(listing, f);
    }
    forall id | id in rules && Fires(re, rules[id], path)
      ensures Found(re, listing, path).Some? && Beats(Found(re, listing, path).value, rules[id])
    {
      assert Lists(listing, rules[id]);
      PatternsMeaning(re, listing, rules[id]);
    }
  }

  // ---------- Patterns that do not compile ----------

  predicate Broken(re: Regex, r: Rule) { r.isRegex && !re.compiles(r.source) }

  /** The rules that may be stored, by the comment on ErrInvalidRule. */
  predicate Storable(re: Regex, r: Rule) { ValidRule(r) && !Broken(re, r) }

  /** Create refuses as invalid what that comment says it refuses, except exactly the rules
      whose only fault is a pattern that does not compile. */
  lemma {:induction false} CreateRefusesExactlyWhen(re: Regex, rules: Rules, draft: Rule, id: RuleID, now: nat)
    ensures (Created(rules, draft, id, now) == Err(InvalidRule) <==> !Storable(re, draft)) <==>
            !(ValidRule(draft) && Broken(re, draft))
  {
  }

  /** So does Update, of the rules that exist. */
  lemma {:induction false} UpdateRefusesExactlyWhen(re: Regex, rules: Rules, draft: Rule)
    ensures (Updated(rules, draft) == Err(InvalidRule) <==> draft.id == NIL || !Storable(re, draft)) <==>
            !(draft.id != NIL && ValidRule(draft) && Broken(re, draft))
    ensures ValidRule(draft) && Broken(re, draft) && draft.id != NIL && draft.id in rules
            && !Taken(rules, draft.source, draft.isRegex, Some(draft.id)) ==>
              Updated(rules, draft).Ok? && Broken(re, Updated(rules, draft).value)
  {
  }

  /** Such a rule is stored, and never answers a lookup. */
  lemma {:induction false} BrokenRuleIsSilent(re: Regex, rules: Rules, draft: Rule, id: RuleID, now: nat, listing: seq<Rule>, path: string)
    requires WellKept(rules) && id != NIL && id !in rules
    requires ValidRule(draft) && Broken(re, draft) && !Taken(rules, draft.source, draft.isRegex, None)
    requires IsSnapshot(Put(rules, Created(rules, draft, id, now)), listing)
    ensures Created(rules, draft, id, now).Ok? && Lists(listing, Created(rules, draft, id, now).value)
    ensures Found(re, listing, path) != Some(Created(rules, draft, id, now).value)
  {
    var outcome := Created(rules, draft, id, now);
    EditsKeepRules(rules, draft, id, now);
    assert Put(rules, outcome)[id] == outcome.value;
    LookupIsScan(re, Put(rules, outcome), listing, path);
  }

  /** A first rule with an unclosed group is such a rule. */
  lemma {:induction false} UnclosedGroupIsStored()
    ensures var re := Regex((s: string) => s != "(", (s: string, t: string) => true, (s: string, d: string, t: string) => d);
            var draft := Rule(NIL, "(", "/", 301, true, 0, 0, 0, None);
            Broken(re, draft) && Created(map[], draft, RuleID("1"), 1) == Ok(draft.(id := RuleID("1"), created := 1))
  {
  }

  /** A rule fires, taking every pattern as one that compiles. */
  ghost predicate FiresAnyway(re: Regex, r: Rule, path: string) {
    if r.isRegex then re.matches(r.source, path) else r.source == path
  }

  /** The answer of a scan that takes every pattern as one that compiles. */
  ghost predicate IsAnswerAnyway(re: Regex, rules: Rules, path: string, answer: Option<Rule>) {
    match answer
    case None => forall id :: id in rules ==> !FiresAnyway(re, rules[id], path)
    case Some(r) =>
      && r.id in rules && rules[r.id] == r && FiresAnyway(re, r, path)
      && forall id :: id in rules && FiresAnyway(re, rules[id], path) ==> Beats(r, rules[id])
  }

  /** A lookup gives that answer too exactly when it found a rule that comes before every
      broken one the path would match. */
  lemma {:induction false} SkippingShowsExactlyWhen(re: Regex, rules: Rules, listing: seq<Rule>, path: string)
    requires WellKept(rules) && IsSnapshot(rules, listing)
    ensures IsAnswerAnyway(re, rules, path, Found(re, listing, path)) <==>
            forall id :: id in rules && Broken(re, rules[id]) && re.matches(rules[id].source, path) ==>
              Found(re, listing, path).Some? && Beats(Found(re, listing, path).value, rules[id])
  {
    LookupIsScan(re, rules, listing, path);
    forall id | id in rules
      ensures FiresAnyway(re, rules[id], path) <==>
              Fires(re, rules[id], path) || (Broken(re, rules[id]) && re.matches(rules[id].source, path))
    {}
  }

  // ---------- Runs ----------

  datatype Op =
    | Create(draft: Rule, id: RuleID, now: nat)
    | Update(edited: Rule)
    | Delete(gone: RuleID)
    | Reload(snapshot: seq<Rule>)
    | Lookup(path: string, at: nat)
    | Flush

  /** The store, the listing the index was built from, and the hits not yet flushed. */
  datatype State = State(rules: Rules, listing: seq<Rule>, pending: map<RuleID, Tally>)

  function Hit(pending: map<RuleID, Tally>, id: RuleID, at: nat): map<RuleID, Tally> {
    pending[id := Tally(TallyAt(pending, id).count + 1, at)]
  }

  ghost function Next(re: Regex, st: State, op: Op): State {
    match op
    case Create(draft, id, now) => st.(rules := Put(st.rules, Created(st.rules, draft, id, now)))
    case Update(draft) => st.(rules := Put(st.rules, Updated(st.rules, draft)))
    case Delete(id) => st.(rules := st.rules - {id})
    case Reload(listing) => st.(listing := listing)
    case Lookup(path, at) =>
      (match Found(re, st.listing, path)
       case None => st
       case Some(r) => st.(pending := Hit(st.pending, r.id, at)))
    case Flush => st.(rules := CreditMerged(st.rules, st.pending), pending := map[])
  }

  ghost function Run(re: Regex, ops: seq<Op>): State {
    if ops == [] then State(map[], [], map[]) else Next(re, Run(re, ops[..|ops| - 1]), ops[|ops| - 1])
  }

  /** The rules as they stood when the index was last loaded. */
  ghost function LastLoaded(re: Regex, ops: seq<Op>): Rules {
    if ops == [] then map[]
    else if ops[|ops| - 1].Reload? then Run(re, ops[..|ops| - 1]).rules
    else LastLoaded(re, ops[..|ops| - 1])
  }

  ghost predicate Made(ops: seq<Op>, id: RuleID) {
    exists k :: 0 <= k < |ops| && ops[k].Create? && ops[k].id == id
  }

  /** Each reload sees a listing of the rules of its moment, and each create draws a new id. */
  ghost predicate Genuine(re: Regex, ops: seq<Op>) {
    ops == [] ||
    var before, op := ops[..|ops| - 1], ops[|ops| - 1];
    && Genuine(re, before)
    && (op.Reload? ==> IsSnapshot(Run(re, before).rules, op.snapshot))
    && (op.Create? ==> op.id != NIL && !Made(before, op.id))
  }

  ghost predicate Answers(re: Regex, st: State, op: Op, id: RuleID) {
    op.Lookup? && Found(re, st.listing, op.path).Some? && Found(re, st.listing, op.path).value.id == id
  }

  /** Lookups of the run answered with this rule. */
  ghost function Hits(re: Regex, ops: seq<Op>, id: RuleID): nat {
    if ops == [] then 0
    else
      var before := ops[..|ops| - 1];
      Hits(re, before, id) + if Answers(re, Run(re, before), ops[|ops| - 1], id) then 1 else 0
  }

  /** When the last of them happened. */
  ghost function LatestHit(re: Regex, ops: seq<Op>, id: RuleID): nat {
    if ops == [] then 0
    else
      var before, op := ops[..|ops| - 1], ops[|ops| - 1];
      if Answers(re, Run(re, before), op, id) then op.at else LatestHit(re, before, id)
  }

  // ---------- What a run keeps ----------

  /** Rules stay well kept and the index holds a listing of the rules last loaded. */
  lemma {:induction false} RunKeeps(re: Regex, ops: seq<Op>)
    requires Genuine(re, ops)
    ensures WellKept(Run(re, ops).rules) && WellKept(LastLoaded(re, ops))
    ensures IsSnapshot(LastLoaded(re, ops), Run(re, ops).listing)
    ensures forall id :: id in Run(re, ops).rules ==> Made(ops, id)
  {
    if ops != [] {
      var before, op := ops[..|ops| - 1], ops[|ops| - 1];
      RunKeeps(re, before);
      MadeStays(before, op);
      RulesStep(re, before, op);
    }
  }

  lemma {:induction false} MadeStays(before: seq<Op>, op: Op)
    ensures forall id :: Made(before + [op], id) <==> Made(before, id) || (op.Create? && op.id == id)
  {
    forall id ensures Made(before + [op], id) <==> Made(before, id) || (op.Create? && op.id == id) {
      if Made(before, id) {
        var k :| 0 <= k < |before| && before[k].Create? && before[k].id == id;
        assert (before + [op])[k] == before[k];
      }
      if op.Create? && op.id == id {
        assert (before + [op])[|before|] == op;
      }
    }
  }

  lemma {:induction false} RulesStep(re: Regex, before: seq<Op>, op: Op)
    requires WellKept(Run(re, before).rules)
    requires op.Create? ==> op.id != NIL && op.id !in Run(re, before).rules
    ensures WellKept(Next(re, Run(re, before), op).rules)
    ensures forall id :: id in Next(re, Run(re, before), op).rules ==>
              id in Run(re, before).rules || (op.Create? && op.id == id)
  {
    var st := Run(re, before);
    match op
    case Create(draft, id, now) => EditsKeepRules(st.rules, draft, id, now);
    case Update(draft) => EditsKeepRules(st.rules, draft, NIL, 0);
    case Delete(id) => EditsKeepRules(st.rules, Rule(id, "", "", 0, false, 0, 0, 0, None), id, 0);
    case Flush =>
      var after := CreditMerged(st.rules, st.pending);
      forall a, b | a in after && b in after ensures OneOfAKind(after, a, b) {
        assert OneOfAKind(st.rules, a, b);
      }
    case _ =>
  }

  /** Whatever was edited since, a lookup answers as a scan of the rules last loaded. */
  lemma {:induction false} LookupsAnswerFromLastLoad(re: Regex, ops: seq<Op>, path: string)
    requires Genuine(re, ops)
    ensures IsAnswer(re, LastLoaded(re, ops), path, Found(re, Run(re, ops).listing, path))
  {
    RunKeeps(re, ops);
    LookupIsScan(re, LastLoaded(re, ops), Run(re, ops).listing, path);
  }

  /** What the caller is told: the rule, its status, and its destination, into which a pattern expands what it matched. The rule
      is stored in the last load, and fires on the path before every other that does. */
  lemma {:induction false} AnswerTells(re: Regex, ops: seq<Op>, path: string)
    requires Genuine(re, ops) && Found(re, Run(re, ops).listing, path).Some?
    ensures var answer := Redirected(re, Found(re, Run(re, ops).listing, path).value, path);
            var rules := LastLoaded(re, ops);
            && answer.rule in rules
            && var r := rules[answer.rule];
               && answer.status == r.status && answer.isRegex == r.isRegex
               && answer.destination == (if r.isRegex then re.expand(r.source, r.destination, path) else r.destination)
               && (if r.isRegex then re.compiles(r.source) && re.matches(r.source, path) else r.source == path)
               && forall id :: id in rules && (if rules[id].isRegex then re.compiles(rules[id].source) && re.matches(rules[id].source, path)
                                               else rules[id].source == path) ==>
                    if r.isRegex then rules[id].isRegex && r.created <= rules[id].created
                    else rules[id].isRegex || r.created <= rules[id].created
  {
    LookupsAnswerFromLastLoad(re, ops, path);
    var rules := LastLoaded(re, ops);
    forall id | id in rules ensures Fires(re, rules[id], path) <==>
      if rules[id].isRegex then re.compiles(rules[id].source) && re.matches(rules[id].source, path) else rules[id].source == path {}
  }

  /** An id never drawn is unknown everywhere. */
  lemma {:induction false} NeverMade(re: Regex, ops: seq<Op>, id: RuleID)
    requires Genuine(re, ops) && !Made(ops, id)
    ensures id !in Run(re, ops).rules && id !in Run(re, ops).pending
    ensures id !in LastLoaded(re, ops)
    ensures Hits(re, ops, id) == 0 && LatestHit(re, ops, id) == 0
  {
    if ops != [] {
      var before, op := ops[..|ops| - 1], ops[|ops| - 1];
      assert ops == before + [op];
      MadeStays(before, op);
      NeverMade(re, before, id);
      RunKeeps(re, before);
      RunKeeps(re, ops);
      if op.Lookup? {
        LookupsAnswerFromLastLoad(re, before, op.path);
      }
    }
  }

  // ---------- Conservation ----------

  /** One op's effect on a rule that is there before and after. */
  lemma {:induction false} LiveStep(re: Regex, st: State, op: Op, id: RuleID)
    requires WellKept(st.rules) && id in st.rules && id in Next(re, st, op).rules
    requires op.Create? ==> op.id !in st.rules
    ensures var after := Next(re, st, op);
            var hit := Answers(re, st, op, id);
            && after.rules[id].hits + TallyAt(after.pending, id).count
               == st.rules[id].hits + TallyAt(st.pending, id).count + (if hit then 1 else 0)
            && Later(after.rules[id].lastHit, TallyAt(after.pending, id).last)
               == if hit then Later(st.rules[id].lastHit, op.at)
                  else Later(st.rules[id].lastHit, TallyAt(st.pending, id).last)
  {
  }

  /** In every run the hits stored and pending for a live rule are the lookups it answered. */
  lemma {:induction false} HitsAreConserved(re: Regex, ops: seq<Op>, id: RuleID)
    requires Genuine(re, ops) && id in Run(re, ops).rules
    ensures Run(re, ops).rules[id].hits + TallyAt(Run(re, ops).pending, id).count == Hits(re, ops, id)
  {
    if ops != [] {
      var before, op := ops[..|ops| - 1], ops[|ops| - 1];
      var st := Run(re, before);
      RunKeeps(re, before);
      if id in st.rules {
        HitsAreConserved(re, before, id);
        LiveStep(re, st, op, id);
      } else {
        RulesStep(re, before, op);
        NeverMade(re, before, id);
      }
    }
  }

  ghost predicate Timely(ops: seq<Op>) {
    forall i, j :: 0 <= i <= j < |ops| && ops[i].Lookup? && ops[j].Lookup? ==> ops[i].at <= ops[j].at
  }

  lemma {:induction false} LatestHitBound(re: Regex, ops: seq<Op>, id: RuleID, now: nat)
    requires forall i :: 0 <= i < |ops| && ops[i].Lookup? ==> ops[i].at <= now
    ensures LatestHit(re, ops, id) <= now
  {
    if ops != [] { LatestHitBound(re, ops[..|ops| - 1], id, now); }
  }

  /** On a clock that never runs back, stored and pending times together tell the latest hit. */
  lemma {:induction false} LastHitIsLatest(re: Regex, ops: seq<Op>, id: RuleID)
    requires Genuine(re, ops) && Timely(ops) && id in Run(re, ops).rules
    ensures Later(Run(re, ops).rules[id].lastHit, TallyAt(Run(re, ops).pending, id).last) == LatestHit(re, ops, id)
  {
    if ops != [] {
      var before, op := ops[..|ops| - 1], ops[|ops| - 1];
      var st := Run(re, before);
      RunKeeps(re, before);
      if id in st.rules {
        LastHitIsLatest(re, before, id);
        LiveStep(re, st, op, id);
        if op.Lookup? { LatestHitBound(re, before, id, op.at); }
      } else {
        RulesStep(re, before, op);
        NeverMade(re, before, id);
      }
    }
  }

  /** After a flush the store alone has it all. */
  lemma {:induction false} FlushedCountsAreExact(re: Regex, ops: seq<Op>, id: RuleID)
    requires Genuine(re, ops) && ops != [] && ops[|ops| - 1].Flush? && id in Run(re, ops).rules
    ensures Run(re, ops).rules[id].hits == Hits(re, ops, id)
    ensures Timely(ops) ==> Run(re, ops).rules[id].lastHit == LatestHit(re, ops, id)
  {
    HitsAreConserved(re, ops, id);
    if Timely(ops) { LastHitIsLatest(re, ops, id); }
  }

  // ---------- The code ----------

  lemma {:induction false} MergedAppend(deltas: seq<Delta>, id: RuleID, t: Tally)
    requires id !in Merged(deltas) && t.count > 0
    ensures Merged(deltas + [Delta(id, t.count, t.last)]) == Merged(deltas)[id := t]
  {
    var after := deltas + [Delta(id, t.count, t.last)];
    assert after[..|after| - 1] == deltas;
  }

  class Engine {
    const re: Regex
    const store: InMemoryStore
    var literal: map<string, Rule>
    var regex: seq<Rule>
    var pending: map<RuleID, Tally>
    ghost var listing: seq<Rule>

    ghost predicate Valid()
      reads this, store
    {
      && store.Valid() && literal == Literals(listing) && regex == Patterns(re, listing)
      && forall id :: id in pending ==> pending[id].count > 0
    }

    ghost function View(): State
      reads this, store
    {
      State(store.rules, listing, pending)
    }

    constructor (lib: Regex, backing: InMemoryStore)
      requires backing.Valid()
      ensures Valid() && View() == State(backing.rules, [], map[]) && store == backing && re == lib
    {
      re, store, literal, regex, pending, listing := lib, backing, map[], [], map[], [];
    }

    /** The index of a listing, skipping patterns that do not compile. */
    method BuildIndex(ghost rules: Rules, snapshot: seq<Rule>) returns (newLiteral: map<string, Rule>, newRegex: seq<Rule>)
      requires ListedOnce(rules, snapshot) && ByCreation(snapshot)
      ensures newLiteral == Literals(snapshot) && newRegex == Patterns(re, snapshot)
    {
      newLiteral, newRegex := map[], [];
      var i := 0;
      while i < |snapshot|
        invariant 0 <= i <= |snapshot|
        invariant newLiteral == Literals(snapshot[..i]) && newRegex == Patterns(re, snapshot[..i])
      {
        var r := snapshot[i];
        assert snapshot[..i + 1][..i] == snapshot[..i];
        if r.isRegex {
          if re.compiles(r.source) {
            newRegex := newRegex + [r];
          }
        } else {
          newLiteral := newLiteral[r.source := r];
        }
        i := i + 1;
      }
      assert snapshot[..i] == snapshot;
      PatternsInOrder(re, rules, snapshot);
      newRegex := SortByCreation(rules, newRegex);
    }

    /** Swaps in the index of the store as it is now. */
    method Reload()
      requires Valid()
      modifies this
      ensures Valid() && IsSnapshot(store.rules, listing)
      ensures View() == Next(re, old(View()), Op.Reload(listing))
    {
      var rules := store.Snapshot();
      literal, regex := BuildIndex(store.rules, rules);
      listing := rules;
    }

    method RecordHit(id: RuleID, now: nat)
      requires Valid()
      modifies this`pending
      ensures Valid() && pending == Hit(old(pending), id, now)
    {
      if id in pending {
        var entry := pending[id];
        pending := pending[id := Tally(entry.count + 1, now)];
      } else {
        pending := pending[id := Tally(1, now)];
      }
    }

    /** The literal rule of this path, or else the first pattern that matches it. */
    method Match(path: string, now: nat) returns (out: Option<Redirect>)
      requires Valid()
      modifies this`pending
      ensures Valid() && View() == Next(re, old(View()), Lookup(path, now))
      ensures match Found(re, listing, path)
              case None => out == None
              case Some(r) =>
                && out == Some(Redirected(re, r, path))
                && out.value.rule == r.id && out.value.status == r.status && out.value.isRegex == r.isRegex
                && out.value.destination == if r.isRegex then re.expand(r.source, r.destination, path) else r.destination
    {
      LiteralsAreLiteral(listing);
      PatternsAreRegex(re, listing);
      if path in literal {
        var r := literal[path];
        RecordHit(r.id, now);
        return Some(Redirect(r.id, r.destination, r.status, false));
      }
      var i := 0;
      while i < |regex|
        invariant 0 <= i <= |regex| && pending == old(pending)
        invariant FirstMatching(re, regex, path) == FirstMatching(re, regex[i..], path)
      {
        var r := regex[i];
        if re.matches(r.source, path) {
          RecordHit(r.id, now);
          return Some(Redirect(r.id, re.expand(r.source, r.destination, path), r.status, true));
        }
        assert regex[i..][1..] == regex[i + 1..];
        i := i + 1;
      }
      return None;
    }

    /** Takes the pending counters out one by one, in whatever order they come. */
    method Drain() returns (deltas: seq<Delta>)
      requires Valid()
      modifies this`pending
      ensures pending == map[] && Merged(deltas) == old(pending)
    {
      deltas := [];
      var todo := pending.Keys;
      ghost var taken: map<RuleID, Tally> := map[];
      while todo != {}
        invariant pending.Keys == todo && todo <= old(pending).Keys
        invariant Merged(deltas) == taken && taken.Keys == old(pending).Keys - todo
        invariant forall id :: id in todo ==> pending[id] == old(pending)[id] && pending[id].count > 0
        invariant forall id :: id in taken ==> taken[id] == old(pending)[id]
      {
        var id :| id in todo;
        var entry := pending[id];
        pending := pending - {id};
        if entry.count > 0 {
          MergedAppend(deltas, id, entry);
          deltas := deltas + [Delta(id, entry.count, entry.last)];
        }
        taken := taken[id := entry];
        todo := todo - {id};
      }
      assert taken.Keys == old(pending).Keys;
    }

    /** Moves the pending counters to the store. */
    method Flush()
      requires Valid()
      modifies this`pending, store
      ensures Valid() && View() == Next(re, old(View()), Op.Flush)
    {
      var deltas := Drain();
      MergingChangesNothing(store.rules, deltas);
      if |deltas| == 0 {
        return;
      }
      store.BulkIncrementHits(deltas);
    }
  }

  lemma {:induction false} LiteralsAreLiteral(listing: seq<Rule>)
    ensures forall path :: path in Literals(listing) ==> !Literals(listing)[path].isRegex
  {
    if listing != [] { LiteralsAreLiteral(listing[..|listing| - 1]); }
  }

  lemma {:induction false} PatternsAreRegex(re: Regex, listing: seq<Rule>)
    ensures forall i :: 0 <= i < |Patterns(re, listing)| ==> Patterns(re, listing)[i].isRegex
  {
    if listing != [] { PatternsAreRegex(re, listing[..|listing| - 1]); }
  }
}
