/**
 Global rules with deadlines: an engine of rules, a map of deadlines beside it,
 and a periodic sweep that drops the rules whose deadline has passed.
 */
module GlobalRules {
  import opened Options
  import opened Matching
  import opened RuleEngine

  const GLOBAL_PRIORITY := 1000
  const OPERATOR_EQ := 1

  datatype GlobalRule = GlobalRule(id: string, name: string, sourceIp: string, action: int, expiresAt: Option<int>) {
    /** A rule with a positive deadline is temporary. */
    predicate Temporary() { expiresAt.Some? && expiresAt.value > 0 }

    function AsRule(): Rule {
      Rule(id, name, GLOBAL_PRIORITY, true, [Condition(SOURCE_IP, OPERATOR_EQ, sourceIp, false)], action, "", None)
    }
  }

  datatype State = State(matchers: seq<Matcher>, deadlines: map<string, int>)

  function Ids(ms: seq<Matcher>): set<string> {
    set i | 0 <= i < |ms| :: ms[i].rule.id
  }

  /** A permanent rule leaves an older deadline of its id standing. */
  function Add(t: Texts, s: State, g: GlobalRule): State {
    State(AddTo(t, s.matchers, g.AsRule()),
          if g.Temporary() then s.deadlines[g.id := g.expiresAt.value] else s.deadlines)
  }

  function Remove(t: Texts, s: State, id: string): State {
    State(RemoveFrom(t, s.matchers, {id}), s.deadlines - {id})
  }

  function Expired(deadlines: map<string, int>, now: int): set<string> {
    set id | id in deadlines && deadlines[id] < now
  }

  /** Drops a set of rules; the deadlines go only if some rule went. */
  function Drop(t: Texts, s: State, ids: set<string>): State {
    var kept := Without(s.matchers, ids);
    if |kept| < |s.matchers|
    then State(RemoveFrom(t, s.matchers, ids), s.deadlines - ids)
    else s
  }

  function Sweep(t: Texts, s: State, now: int): State {
    Drop(t, s, Expired(s.deadlines, now))
  }

  /** The engine is in order and every deadline names a rule that is there. */
  ghost predicate Sound(t: Texts, s: State) {
    InOrder(t, s.matchers) && s.deadlines.Keys <= Ids(s.matchers)
  }

  lemma IdsOfWithout(ms: seq<Matcher>, ids: set<string>)
    ensures Ids(Without(ms, ids)) == Ids(ms) - ids
  {
    forall id
      ensures id in Ids(Without(ms, ids)) <==> id in Ids(ms) - ids
    {
      if id in Ids(Without(ms, ids)) {
        var i :| 0 <= i < |Without(ms, ids)| && Without(ms, ids)[i].rule.id == id;
        WithoutMembers(ms, ids, Without(ms, ids)[i]);
      }
      if id in Ids(ms) - ids {
        var i :| 0 <= i < |ms| && ms[i].rule.id == id;
        WithoutMembers(ms, ids, ms[i]);
      }
    }
  }

  /** Nothing is dropped exactly when none of the ids is there. */
  lemma {:induction false} WithoutShorter(ms: seq<Matcher>, ids: set<string>)
    ensures |Without(ms, ids)| <= |ms|
    ensures |Without(ms, ids)| < |ms| <==> Ids(ms) * ids != {}
    ensures |Without(ms, ids)| == |ms| ==> Without(ms, ids) == ms
  {
    if ms != [] {
      WithoutShorter(ms[1..], ids);
      assert Ids(ms) == Ids(ms[1..]) + {ms[0].rule.id} by {
        assert forall i :: 0 < i < |ms| ==> ms[i] == ms[1..][i - 1];
        assert forall i :: 0 <= i < |ms| - 1 ==> ms[1..][i] == ms[i + 1];
      }
      if ms[0].rule.id in ids {
        assert ms[0].rule.id in Ids(ms) * ids;
      }
    }
  }

  lemma IdsOfInsert(ms: seq<Matcher>, m: Matcher)
    requires Sorted(ms)
    ensures Ids(Insert(ms, m)) == Ids(ms) + {m.rule.id}
  {
    InsertSorted(ms, m);
    var after := Insert(ms, m);
    assert forall i :: 0 <= i < |after| ==> after[i] in after;
    assert forall i :: 0 <= i < |ms| ==> ms[i] in ms;
    assert m in after;
  }

  ghost predicate InOrder(t: Texts, ms: seq<Matcher>) {
    Sorted(ms) && Compiled(t, ms)
  }

  lemma AddedIds(t: Texts, ms: seq<Matcher>, rule: Rule)
    requires InOrder(t, ms)
    ensures InOrder(t, AddTo(t, ms, rule)) && Ids(AddTo(t, ms, rule)) == Ids(ms) + {rule.id}
  {
    var kept := Without(ms, {rule.id});
    AddIsInsert(t, ms, rule);
    WithoutKeeps(t, ms, {rule.id});
    IdsOfWithout(ms, {rule.id});
    IdsOfInsert(kept, Compile(t, rule));
    SortCompiled(t, CompileAll(t, RulesOf(kept) + [rule]));
  }

  lemma RemovedIds(t: Texts, ms: seq<Matcher>, ids: set<string>)
    requires InOrder(t, ms)
    ensures InOrder(t, RemoveFrom(t, ms, ids)) && Ids(RemoveFrom(t, ms, ids)) == Ids(ms) - ids
  {
    RemoveIsWithout(t, ms, ids);
    WithoutKeeps(t, ms, ids);
    IdsOfWithout(ms, ids);
  }

  lemma AddIsSound(t: Texts, s: State, g: GlobalRule)
    requires Sound(t, s)
    ensures Sound(t, Add(t, s, g)) && Ids(Add(t, s, g).matchers) == Ids(s.matchers) + {g.id}
  {
    AddedIds(t, s.matchers, g.AsRule());
  }

  lemma RemoveIsSound(t: Texts, s: State, id: string)
    requires Sound(t, s)
    ensures Sound(t, Remove(t, s, id)) && Ids(Remove(t, s, id).matchers) == Ids(s.matchers) - {id}
  {
    RemovedIds(t, s.matchers, {id});
  }

  // ---- What an added rule decides ----

  /** A global rule matches exactly the addresses that its text names. */
  lemma MatchesNamed(t: Texts, g: GlobalRule, q: Query)
    ensures Matches(t, Compile(t, g.AsRule()), q) <==> Names(t, g.sourceIp, q.ip)
  {
    var rule := g.AsRule();
    assert rule.conditions[0].kind == SOURCE_IP;
    CompiledMeaning(t, rule, q);
    assert InUnion(t, rule.conditions, q.ip) <==> Names(t, g.sourceIp, q.ip);
  }

  /** Once added it decides, with its action, for the addresses that it names and
      on which no other rule of priority 1000 or more decided; all other verdicts
      are those of the engine without it. */
  lemma AddedDecides(t: Texts, s: State, g: GlobalRule, q: Query)
    requires Sound(t, s)
    ensures var before, after := FirstMatch(t, Without(s.matchers, {g.id}), q), FirstMatch(t, Add(t, s, g).matchers, q);
            if Names(t, g.sourceIp, q.ip) && (before.None? || before.value.priority < 1000)
            then after.Some? && after.value.id == g.id && after.value.action == g.action
            else after == before
  {
    AdditionFrame(t, s.matchers, g.AsRule(), q);
    RemoveIsWithout(t, s.matchers, {g.id});
    MatchesNamed(t, g, q);
  }

  /** With no other call in between, the sweep of a sound state takes exactly the expired rules and their
      deadlines, leaves the others in order, and changes only the verdicts that
      an expired rule had decided. */
  lemma SweepIsExact(t: Texts, s: State, now: int, q: Query)
    requires Sound(t, s)
    ensures var expired, s' := Expired(s.deadlines, now), Sweep(t, s, now);
            && Sound(t, s')
            && s'.matchers == Without(s.matchers, expired)
            && s'.deadlines == s.deadlines - expired
            && Ids(s'.matchers) == Ids(s.matchers) - expired
            && var verdict := FirstMatch(t, s.matchers, q);
               (verdict.None? || verdict.value.id !in expired ==> FirstMatch(t, s'.matchers, q) == verdict)
  {
    var expired := Expired(s.deadlines, now);
    WithoutShorter(s.matchers, expired);
    RemoveIsWithout(t, s.matchers, expired);
    WithoutKeeps(t, s.matchers, expired);
    IdsOfWithout(s.matchers, expired);
    RemovalFrame(t, s.matchers, expired, q);
    assert Ids(s.matchers) * expired == expired;
    if expired == {} {
      assert s.deadlines - expired == s.deadlines;
    }
  }

  /** A permanent rule survives a sweep exactly when its id carries no expired
      deadline from before: adding it permanently does not clear one. */
  lemma PermanentSurvivesIff(t: Texts, s: State, g: GlobalRule, now: int)
    requires Sound(t, s) && !g.Temporary()
    ensures g.id in Ids(Sweep(t, Add(t, s, g), now).matchers) <==> !(g.id in s.deadlines && s.deadlines[g.id] < now)
  {
    AddIsSound(t, s, g);
    SweepIsExact(t, Add(t, s, g), now, Query(V4(0), None));
  }

  /** An added rule survives a sweep exactly when its deadline is not past: its own
      if it is positive, else one that its id had before, and there may be none. */
  lemma SurvivesIff(t: Texts, s: State, g: GlobalRule, now: int)
    requires Sound(t, s)
    ensures var own := g.expiresAt.Some? && g.expiresAt.value > 0;
            g.id in Ids(Sweep(t, Add(t, s, g), now).matchers) <==>
              && (own ==> now <= g.expiresAt.value)
              && (!own && g.id in s.deadlines ==> now <= s.deadlines[g.id])
  {
    AddIsSound(t, s, g);
    SweepIsExact(t, Add(t, s, g), now, Query(V4(0), None));
  }
}
