/**
 The rule engine: matchers in descending priority, ties in the order supplied,
 and the first match decides.
 */
module RuleEngine {
  import opened Options
  import opened Matching

  // ---- Stable sort ----

  predicate Sorted(ms: seq<Matcher>) {
    forall i, j :: 0 <= i < j < |ms| ==> ms[i].rule.priority >= ms[j].rule.priority
  }

  /** Places `m` behind every matcher of at least its priority. */
  function Insert(ms: seq<Matcher>, m: Matcher): seq<Matcher> {
    if ms == [] then [m]
    else if ms[|ms| - 1].rule.priority >= m.rule.priority then ms + [m]
    else Insert(ms[..|ms| - 1], m) + [ms[|ms| - 1]]
  }

  function Sort(ms: seq<Matcher>): seq<Matcher> {
    if ms == [] then [] else Insert(Sort(ms[..|ms| - 1]), ms[|ms| - 1])
  }

  /** The matchers of one priority, in order. */
  function Rank(ms: seq<Matcher>, priority: int): seq<Matcher> {
    if ms == [] then [] else
      var rest := Rank(ms[..|ms| - 1], priority);
      if ms[|ms| - 1].rule.priority == priority then rest + [ms[|ms| - 1]] else rest
  }

  lemma {:induction false} InsertMember(ms: seq<Matcher>, m: Matcher, x: Matcher)
    ensures x in Insert(ms, m) <==> x in ms || x == m
  {
    if ms != [] && ms[|ms| - 1].rule.priority < m.rule.priority {
      var n := |ms| - 1;
      InsertMember(ms[..n], m, x);
      assert ms == ms[..n] + [ms[n]];
    }
  }

  lemma {:induction false} InsertOrder(ms: seq<Matcher>, m: Matcher)
    requires Sorted(ms)
    ensures Sorted(Insert(ms, m)) && |Insert(ms, m)| == |ms| + 1
  {
    if ms != [] && ms[|ms| - 1].rule.priority < m.rule.priority {
      var n := |ms| - 1;
      InsertOrder(ms[..n], m);
      var front := Insert(ms[..n], m);
      forall i | 0 <= i < |front|
        ensures front[i].rule.priority >= ms[n].rule.priority
      {
        InsertMember(ms[..n], m, front[i]);
      }
    }
  }

  lemma InsertSorted(ms: seq<Matcher>, m: Matcher)
    requires Sorted(ms)
    ensures Sorted(Insert(ms, m)) && |Insert(ms, m)| == |ms| + 1
    ensures forall x :: x in Insert(ms, m) <==> x in ms || x == m
  {
    InsertOrder(ms, m);
    forall x
      ensures x in Insert(ms, m) <==> x in ms || x == m
    {
      InsertMember(ms, m, x);
    }
  }

  lemma {:induction false} InsertRank(ms: seq<Matcher>, m: Matcher, priority: int)
    requires Sorted(ms)
    ensures Rank(Insert(ms, m), priority) == Rank(ms + [m], priority)
  {
    assert (ms + [m])[..|ms|] == ms;
    if ms != [] && ms[|ms| - 1].rule.priority < m.rule.priority {
      var n := |ms| - 1;
      var front := Insert(ms[..n], m);
      InsertRank(ms[..n], m, priority);
      assert (front + [ms[n]])[..|front|] == front;
      assert (ms[..n] + [m])[..n] == ms[..n];
    }
  }

  /** The result is in descending priority and leaves the order within each priority alone. */
  lemma {:induction false} SortIsStable(ms: seq<Matcher>, priority: int)
    ensures Sorted(Sort(ms)) && |Sort(ms)| == |ms|
    ensures Rank(Sort(ms), priority) == Rank(ms, priority)
  {
    if ms != [] {
      var n := |ms| - 1;
      SortIsStable(ms[..n], priority);
      InsertSorted(Sort(ms[..n]), ms[n]);
      InsertRank(Sort(ms[..n]), ms[n], priority);
      assert (Sort(ms[..n]) + [ms[n]])[..n] == Sort(ms[..n]);
    }
  }

  lemma SomeRank(ms: seq<Matcher>) returns (priority: int)
    ensures ms == [] || Rank(ms, priority) != []
  {
    priority := if ms == [] then 0 else ms[|ms| - 1].rule.priority;
  }

  /** A sorted list is determined by its ranks, so any stable sort gives this result. */
  lemma {:induction false} StableSortIsUnique(a: seq<Matcher>, b: seq<Matcher>)
    requires Sorted(a) && Sorted(b) && forall priority :: Rank(a, priority) == Rank(b, priority)
    ensures a == b
    decreases |a| + |b|
  {
    if a == [] || b == [] {
      var p := SomeRank(a);
      var q := SomeRank(b);
      assert Rank(a, p) == Rank(b, p) && Rank(a, q) == Rank(b, q);
    } else {
      var x, y := a[|a| - 1], b[|b| - 1];
      RankOfLower(a, y.rule.priority);
      RankOfLower(b, x.rule.priority);
      var xs, ys := Rank(a, x.rule.priority), Rank(b, y.rule.priority);
      assert xs[|xs| - 1] == x && ys[|ys| - 1] == y;
      assert xs == Rank(b, x.rule.priority) && ys == Rank(a, y.rule.priority);
      assert x.rule.priority == y.rule.priority;
      var a', b' := a[..|a| - 1], b[..|b| - 1];
      forall priority
        ensures Rank(a', priority) == Rank(b', priority)
      {
        assert Rank(a, priority) == Rank(b, priority);
        if priority == x.rule.priority {
          assert Rank(a, priority)[..|Rank(a, priority)| - 1] == Rank(a', priority);
          assert Rank(b, priority)[..|Rank(b, priority)| - 1] == Rank(b', priority);
        }
      }
      StableSortIsUnique(a', b');
    }
  }

  /** Below the last priority of a sorted list there is nothing. */
  lemma {:induction false} RankOfLower(ms: seq<Matcher>, priority: int)
    requires Sorted(ms) && ms != []
    ensures priority < ms[|ms| - 1].rule.priority ==> Rank(ms, priority) == []
  {
    if |ms| > 1 {
      RankOfLower(ms[..|ms| - 1], priority);
    }
  }

  // ---- First match ----

  function FirstMatch(t: Texts, ms: seq<Matcher>, q: Query): Option<Rule> {
    if ms == [] then None
    else if Matches(t, ms[0], q) then Some(ms[0].rule)
    else FirstMatch(t, ms[1..], q)
  }

  function CompileAll(t: Texts, rules: seq<Rule>): (ms: seq<Matcher>)
    ensures |ms| == |rules| && forall i :: 0 <= i < |rules| ==> ms[i] == Compile(t, rules[i])
  {
    seq(|rules|, i requires 0 <= i < |rules| => Compile(t, rules[i]))
  }

  function RulesOf(ms: seq<Matcher>): (rules: seq<Rule>)
    ensures |rules| == |ms| && forall i :: 0 <= i < |ms| ==> rules[i] == ms[i].rule
  {
    seq(|ms|, i requires 0 <= i < |ms| => ms[i].rule)
  }

  /** The engine built from a list of rules. */
  function Build(t: Texts, rules: seq<Rule>): seq<Matcher> {
    Sort(CompileAll(t, rules))
  }

  /** Every matcher is its rule compiled. */
  ghost predicate Compiled(t: Texts, ms: seq<Matcher>) {
    forall i :: 0 <= i < |ms| ==> ms[i] == Compile(t, ms[i].rule)
  }

  lemma {:induction false} FirstMatchOfJoin(t: Texts, a: seq<Matcher>, b: seq<Matcher>, q: Query)
    ensures FirstMatch(t, a + b, q) == if FirstMatch(t, a, q).Some? then FirstMatch(t, a, q) else FirstMatch(t, b, q)
  {
    if a == [] {
      assert a + b == b;
    } else {
      assert (a + b)[1..] == a[1..] + b;
      FirstMatchOfJoin(t, a[1..], b, q);
    }
  }

  /** Local rules before global rules is one pass over the two lists in turn. */
  function Lookup(t: Texts, local: seq<Matcher>, global: seq<Matcher>, q: Query): (r: Option<Rule>)
    ensures r == FirstMatch(t, local + global, q)
  {
    FirstMatchOfJoin(t, local, global, q);
    var matched := FirstMatch(t, local, q);
    if matched.None? then FirstMatch(t, global, q) else matched
  }

  lemma {:induction false} FirstMatchIsMember(t: Texts, ms: seq<Matcher>, q: Query)
    ensures var r := FirstMatch(t, ms, q);
            if r.Some? then exists i :: 0 <= i < |ms| && ms[i].rule == r.value && Matches(t, ms[i], q)
            else forall i :: 0 <= i < |ms| ==> !Matches(t, ms[i], q)
  {
    if ms != [] && !Matches(t, ms[0], q) {
      FirstMatchIsMember(t, ms[1..], q);
      if FirstMatch(t, ms, q).Some? {
        var i :| 0 <= i < |ms[1..]| && ms[1..][i].rule == FirstMatch(t, ms, q).value && Matches(t, ms[1..][i], q);
        assert ms[i + 1] == ms[1..][i];
      }
    }
  }

  /** Who decides once `m` joins a sorted list: `m`, if it matches and outranks
      the present verdict; on a tie the present verdict stands. */
  function Challenge(t: Texts, verdict: Option<Rule>, m: Matcher, q: Query): Option<Rule> {
    if Matches(t, m, q) && (verdict.None? || verdict.value.priority < m.rule.priority) then Some(m.rule) else verdict
  }

  lemma {:induction false} FirstMatchAfterInsert(t: Texts, ms: seq<Matcher>, m: Matcher, q: Query)
    requires Sorted(ms)
    ensures FirstMatch(t, Insert(ms, m), q) == Challenge(t, FirstMatch(t, ms, q), m, q)
  {
    if ms == [] {
      assert FirstMatch(t, [m], q) == if Matches(t, m, q) then Some(m.rule) else None;
    } else {
      var n := |ms| - 1;
      assert ms == ms[..n] + [ms[n]];
      FirstMatchOfJoin(t, ms[..n], [ms[n]], q);
      FirstMatchIsMember(t, ms, q);
      if ms[n].rule.priority >= m.rule.priority {
        FirstMatchOfJoin(t, ms, [m], q);
      } else {
        FirstMatchAfterInsert(t, ms[..n], m, q);
        FirstMatchOfJoin(t, Insert(ms[..n], m), [ms[n]], q);
        FirstMatchIsMember(t, ms[..n], q);
      }
    }
  }

  // ---- The reference: the best rule as supplied ----

  /** Rule `i` of the list matches, and every other matching rule has a lower
      priority or comes later with the same one. */
  ghost predicate Best(t: Texts, rules: seq<Rule>, q: Query, i: nat) {
    && i < |rules| && Matches(t, Compile(t, rules[i]), q)
    && forall j :: 0 <= j < |rules| && Matches(t, Compile(t, rules[j]), q) ==>
         rules[j].priority < rules[i].priority || (rules[j].priority == rules[i].priority && i <= j)
  }

  ghost predicate NoneMatches(t: Texts, rules: seq<Rule>, q: Query) {
    forall j :: 0 <= j < |rules| ==> !Matches(t, Compile(t, rules[j]), q)
  }

  /** The best of a list with one more rule at the end. */
  lemma BestOfOneMore(t: Texts, before: seq<Rule>, rule: Rule, q: Query, i: nat)
    ensures NoneMatches(t, before, q) && !Matches(t, Compile(t, rule), q) ==> NoneMatches(t, before + [rule], q)
    ensures NoneMatches(t, before, q) && Matches(t, Compile(t, rule), q) ==> Best(t, before + [rule], q, |before|)
    ensures Best(t, before, q, i) ==>
              Best(t, before + [rule], q,
                   if Matches(t, Compile(t, rule), q) && before[i].priority < rule.priority then |before| else i)
  {
  }

  /** The engine's verdict on a list of rules is the best of them, and there is no
      verdict exactly when no enabled rule matches. */
  lemma {:induction false} VerdictIsBest(t: Texts, rules: seq<Rule>, q: Query) returns (i: nat)
    ensures var r := FirstMatch(t, Build(t, rules), q);
            if r.Some? then Best(t, rules, q, i) && r.value == rules[i] else NoneMatches(t, rules, q)
    decreases |rules|
  {
    if rules == [] {
      i := 0;
    } else {
      var n := |rules| - 1;
      var before := rules[..n];
      i := VerdictIsBest(t, before, q);
      VerdictOfOneMore(t, before, rules[n], q);
      BestOfOneMore(t, before, rules[n], q, i);
      assert before + [rules[n]] == rules;
      var verdict := FirstMatch(t, Build(t, before), q);
      if Matches(t, Compile(t, rules[n]), q) && (verdict.None? || verdict.value.priority < rules[n].priority) {
        i := n;
      }
    }
  }

  lemma VerdictOfOneMore(t: Texts, before: seq<Rule>, rule: Rule, q: Query)
    ensures FirstMatch(t, Build(t, before + [rule]), q)
         == Challenge(t, FirstMatch(t, Build(t, before), q), Compile(t, rule), q)
  {
    assert CompileAll(t, before + [rule])[..|before|] == CompileAll(t, before);
    SortIsStable(CompileAll(t, before), 0);
    FirstMatchAfterInsert(t, Build(t, before), Compile(t, rule), q);
  }

  lemma BestIsUnique(t: Texts, rules: seq<Rule>, q: Query, i: nat, j: nat)
    requires Best(t, rules, q, i) && Best(t, rules, q, j)
    ensures i == j
  {
  }

  // ---- Updates ----

  function Without(ms: seq<Matcher>, ids: set<string>): seq<Matcher> {
    if ms == [] then [] else
      var rest := Without(ms[1..], ids);
      if ms[0].rule.id in ids then rest else [ms[0]] + rest
  }

  lemma {:induction false} WithoutMembers(ms: seq<Matcher>, ids: set<string>, m: Matcher)
    ensures m in Without(ms, ids) <==> m in ms && m.rule.id !in ids
  {
    if ms != [] {
      WithoutMembers(ms[1..], ids, m);
      assert m in ms <==> m == ms[0] || m in ms[1..];
    }
  }

  lemma {:induction false} WithoutKeeps(t: Texts, ms: seq<Matcher>, ids: set<string>)
    ensures Sorted(ms) ==> Sorted(Without(ms, ids))
    ensures Compiled(t, ms) ==> Compiled(t, Without(ms, ids))
  {
    if ms != [] {
      WithoutKeeps(t, ms[1..], ids);
      var rest := Without(ms[1..], ids);
      forall i | 0 <= i < |rest|
        ensures exists j :: 0 < j < |ms| && ms[j] == rest[i]
      {
        WithoutMembers(ms[1..], ids, rest[i]);
        var j :| 0 <= j < |ms[1..]| && ms[1..][j] == rest[i];
        assert ms[j + 1] == rest[i];
      }
    }
  }

  /** Sorting a sorted list changes nothing. */
  lemma {:induction false} SortOfSorted(ms: seq<Matcher>)
    requires Sorted(ms)
    ensures Sort(ms) == ms
  {
    if ms != [] {
      var n := |ms| - 1;
      SortOfSorted(ms[..n]);
      assert ms == ms[..n] + [ms[n]];
    }
  }

  lemma RebuildOfRules(t: Texts, ms: seq<Matcher>)
    requires Sorted(ms) && Compiled(t, ms)
    ensures Build(t, RulesOf(ms)) == ms
  {
    assert CompileAll(t, RulesOf(ms)) == ms;
    SortOfSorted(ms);
  }

  /** Removing rules changes only the verdicts that one of them had decided. */
  lemma {:induction false} RemovalFrame(t: Texts, ms: seq<Matcher>, ids: set<string>, q: Query)
    ensures var verdict := FirstMatch(t, ms, q);
            verdict.None? || verdict.value.id !in ids ==> FirstMatch(t, Without(ms, ids), q) == verdict
  {
    if ms != [] {
      RemovalFrame(t, ms[1..], ids, q);
      assert ms[0].rule.id !in ids ==> ([ms[0]] + Without(ms[1..], ids))[1..] == Without(ms[1..], ids);
    }
  }

  /** Adding a rule, replacing any of the same id. */
  function AddTo(t: Texts, ms: seq<Matcher>, rule: Rule): seq<Matcher> {
    Build(t, RulesOf(Without(ms, {rule.id})) + [rule])
  }

  function RemoveFrom(t: Texts, ms: seq<Matcher>, ids: set<string>): seq<Matcher> {
    Build(t, RulesOf(Without(ms, ids)))
  }

  lemma RemoveIsWithout(t: Texts, ms: seq<Matcher>, ids: set<string>)
    requires Sorted(ms) && Compiled(t, ms)
    ensures RemoveFrom(t, ms, ids) == Without(ms, ids)
  {
    WithoutKeeps(t, ms, ids);
    RebuildOfRules(t, Without(ms, ids));
  }

  lemma AddIsInsert(t: Texts, ms: seq<Matcher>, rule: Rule)
    requires Sorted(ms) && Compiled(t, ms)
    ensures AddTo(t, ms, rule) == Insert(Without(ms, {rule.id}), Compile(t, rule))
  {
    var kept := Without(ms, {rule.id});
    WithoutKeeps(t, ms, {rule.id});
    var compiled := CompileAll(t, RulesOf(kept) + [rule]);
    assert compiled[..|kept|] == kept;
    SortOfSorted(kept);
  }

  /** After an addition the new rule decides, or else the engine without its id
      does: the new rule loses every tie. */
  lemma AdditionFrame(t: Texts, ms: seq<Matcher>, rule: Rule, q: Query)
    requires Sorted(ms) && Compiled(t, ms)
    ensures FirstMatch(t, AddTo(t, ms, rule), q)
         == Challenge(t, FirstMatch(t, RemoveFrom(t, ms, {rule.id}), q), Compile(t, rule), q)
  {
    AddIsInsert(t, ms, rule);
    RemoveIsWithout(t, ms, {rule.id});
    WithoutKeeps(t, ms, {rule.id});
    FirstMatchAfterInsert(t, Without(ms, {rule.id}), Compile(t, rule), q);
  }

  lemma {:induction false} SortCompiled(t: Texts, ms: seq<Matcher>)
    requires Compiled(t, ms)
    ensures Compiled(t, Sort(ms)) && Sorted(Sort(ms))
  {
    if ms != [] {
      var n := |ms| - 1;
      SortCompiled(t, ms[..n]);
      InsertSorted(Sort(ms[..n]), ms[n]);
      var after := Insert(Sort(ms[..n]), ms[n]);
      forall i | 0 <= i < |after|
        ensures after[i] == Compile(t, after[i].rule)
      {
        assert after[i] in after;
      }
    }
  }

  /** Reading an engine's rules and updating it with them changes nothing. */
  lemma RefreshChangesNothing(t: Texts, rules: seq<Rule>)
    ensures Build(t, RulesOf(Build(t, rules))) == Build(t, rules)
  {
    SortCompiled(t, CompileAll(t, rules));
    RebuildOfRules(t, Build(t, rules));
  }

  class RuleEngine {
    const texts: Texts
    var matchers: seq<Matcher>
    /** The rules of the latest update, in the order supplied. */
    ghost var supplied: seq<Rule>

    ghost predicate Valid()
      reads this
    {
      matchers == Build(texts, supplied)
    }

    constructor (texts: Texts, rules: seq<Rule>)
      ensures Valid() && this.texts == texts && supplied == rules
    {
      this.texts := texts;
      matchers, supplied := [], [];
      new;
      UpdateRules(rules);
    }

    method UpdateRules(rules: seq<Rule>)
      modifies this
      ensures Valid() && supplied == rules
    {
      var compiled: seq<Matcher> := [];
      for i := 0 to |rules|
        invariant compiled == CompileAll(texts, rules[..i])
      {
        var m := NewMatcher(texts, rules[i]);
        compiled := compiled + [m];
      }
      assert rules[..|rules|] == rules;
      matchers := Sort(compiled);
      supplied := rules;
    }

    /** The best matching rule of the latest update, or none when none matches. */
    method Evaluate(q: Query) returns (r: Option<Rule>)
      requires Valid()
      ensures r == FirstMatch(texts, matchers, q)
      ensures r.None? <==> NoneMatches(texts, supplied, q)
      ensures r.Some? ==> exists i: nat :: Best(texts, supplied, q, i) && supplied[i] == r.value
    {
      ghost var best := VerdictIsBest(texts, supplied, q);
      for i := 0 to |matchers|
        invariant FirstMatch(texts, matchers, q) == FirstMatch(texts, matchers[i..], q)
      {
        if Matches(texts, matchers[i], q) {
          return Some(matchers[i].rule);
        }
        assert matchers[i..][1..] == matchers[i + 1..];
      }
      return None;
    }

    method GetRules() returns (rules: seq<Rule>)
      ensures rules == RulesOf(matchers)
    {
      rules := [];
      for i := 0 to |matchers|
        invariant rules == RulesOf(matchers[..i])
      {
        rules := rules + [matchers[i].rule];
      }
      assert matchers[..|matchers|] == matchers;
    }
  }
}
