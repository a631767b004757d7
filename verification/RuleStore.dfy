/**
 Per-proxy rules in memory and in the rule table.

 The table is keyed by rule id alone, whatever proxy a row belongs to; a deletion
 names only the id, and the permanent global rules have their rows there too.
 Memory and table agree as long as no two proxies, and no proxy and the global
 rules, use the same rule id.
 */
module RuleStore {
  import opened Options
  import opened Matching
  import opened RuleEngine

  /** Stands in a row for the proxy of a global rule. */
  const GLOBAL := "GLOBAL"

  datatype Row = Row(proxyId: string, rule: Rule)

  type Table = map<string, Row>

  datatype State = State(engines: map<string, seq<Matcher>>, rows: Table)

  /** What a row keeps of a rule: the rate limit is not a column. */
  function Persisted(rule: Rule): Rule {
    rule.(rateLimit := None)
  }

  function SaveAll(rows: Table, proxyId: string, rules: seq<Rule>): Table {
    if rules == [] then rows else
      var last := rules[|rules| - 1];
      SaveAll(rows, proxyId, rules[..|rules| - 1])[last.id := Row(proxyId, Persisted(last))]
  }

  function RowIds(rows: Table, proxyId: string): set<string> {
    set id | id in rows && rows[id].proxyId == proxyId
  }

  function AddRule(t: Texts, s: State, proxyId: string, rule: Rule): State {
    if proxyId in s.engines
    then State(s.engines[proxyId := AddTo(t, s.engines[proxyId], rule)], s.rows[rule.id := Row(proxyId, Persisted(rule))])
    else s
  }

  function RemoveRule(t: Texts, s: State, proxyId: string, id: string): State {
    if proxyId in s.engines
    then State(s.engines[proxyId := RemoveFrom(t, s.engines[proxyId], {id})], s.rows - {id})
    else s
  }

  function ReloadRules(t: Texts, s: State, proxyId: string, rules: seq<Rule>): State {
    if proxyId in s.engines
    then State(s.engines[proxyId := Build(t, rules)], SaveAll(s.rows - RowIds(s.rows, proxyId), proxyId, rules))
    else s
  }

  /** What a permanent global rule and the removal of a global rule do to the table. */
  function AddGlobalRow(s: State, rule: Rule): State {
    s.(rows := s.rows[rule.id := Row(GLOBAL, Persisted(rule))])
  }

  function RemoveGlobalRow(s: State, id: string): State {
    s.(rows := s.rows - {id})
  }

  // ---- Agreement of memory and table ----

  ghost predicate DistinctIds(ms: seq<Matcher>) {
    forall i, j :: 0 <= i < j < |ms| ==> ms[i].rule.id != ms[j].rule.id
  }

  /** Each rule in memory has its row, each row of the proxy has its rule. */
  ghost predicate Mirrors(rows: Table, proxyId: string, ms: seq<Matcher>) {
    && (forall m :: m in ms ==> m.rule.id in rows && rows[m.rule.id] == Row(proxyId, Persisted(m.rule)))
    && (forall id :: id in rows && rows[id].proxyId == proxyId ==> exists m :: m in ms && m.rule.id == id)
  }

  ghost predicate EngineOk(t: Texts, rows: Table, proxyId: string, ms: seq<Matcher>) {
    Sorted(ms) && Compiled(t, ms) && DistinctIds(ms) && Mirrors(rows, proxyId, ms)
  }

  ghost predicate Consistent(t: Texts, s: State) {
    forall proxyId :: proxyId in s.engines ==> EngineOk(t, s.rows, proxyId, s.engines[proxyId])
  }

  /** The id has no row, or a row of this very proxy or of none that is loaded. */
  predicate FreeFor(s: State, proxyId: string, id: string) {
    id !in s.rows || s.rows[id].proxyId == proxyId || s.rows[id].proxyId !in s.engines
  }

  lemma {:induction false} WithoutDistinct(ms: seq<Matcher>, ids: set<string>)
    requires DistinctIds(ms)
    ensures DistinctIds(Without(ms, ids))
  {
    if ms != [] {
      var rest := Without(ms[1..], ids);
      WithoutDistinct(ms[1..], ids);
      forall i | 0 <= i < |rest|
        ensures rest[i].rule.id != ms[0].rule.id
      {
        WithoutMembers(ms[1..], ids, rest[i]);
        var j :| 0 <= j < |ms[1..]| && ms[1..][j] == rest[i];
        assert ms[j + 1] == rest[i];
      }
    }
  }

  ghost predicate Lacks(ms: seq<Matcher>, id: string) {
    forall x :: x in ms ==> x.rule.id != id
  }

  lemma {:induction false} InsertDistinct(ms: seq<Matcher>, m: Matcher)
    requires Sorted(ms)
    ensures DistinctIds(Insert(ms, m)) <==> DistinctIds(ms) && Lacks(ms, m.rule.id)
  {
    if ms == [] {
    } else if ms[|ms| - 1].rule.priority >= m.rule.priority {
      DistinctEnd(ms, m);
    } else {
      var n := |ms| - 1;
      InsertDistinct(ms[..n], m);
      InsertSorted(ms[..n], m);
      DistinctEnd(Insert(ms[..n], m), ms[n]);
      DistinctEnd(ms[..n], ms[n]);
      assert ms == ms[..n] + [ms[n]];
    }
  }

  lemma DistinctEnd(ms: seq<Matcher>, m: Matcher)
    ensures DistinctIds(ms + [m]) <==> DistinctIds(ms) && Lacks(ms, m.rule.id)
  {
    var all := ms + [m];
    assert forall i :: 0 <= i < |ms| ==> all[i] == ms[i] && ms[i] in ms;
    if DistinctIds(all) {
      assert forall i :: 0 <= i < |ms| ==> all[i].rule.id != all[|ms|].rule.id;
    }
  }

  lemma {:induction false} SortMember(ms: seq<Matcher>, m: Matcher)
    ensures m in Sort(ms) <==> m in ms
  {
    if ms != [] {
      var n := |ms| - 1;
      SortMember(ms[..n], m);
      InsertMember(Sort(ms[..n]), ms[n], m);
      assert ms == ms[..n] + [ms[n]];
    }
  }

  lemma {:induction false} SortDistinct(ms: seq<Matcher>)
    ensures DistinctIds(Sort(ms)) <==> DistinctIds(ms)
  {
    if ms != [] {
      var n := |ms| - 1;
      var front, m := ms[..n], ms[n];
      assert DistinctIds(Insert(Sort(front), m)) <==> DistinctIds(front + [m]) by {
        SortDistinct(front);
        InsertIntoSorted(front, m);
      }
      assert front + [m] == ms;
    }
  }

  lemma InsertIntoSorted(ms: seq<Matcher>, m: Matcher)
    requires DistinctIds(Sort(ms)) <==> DistinctIds(ms)
    ensures DistinctIds(Insert(Sort(ms), m)) <==> DistinctIds(ms + [m])
  {
    SortIsStable(ms, 0);
    InsertDistinct(Sort(ms), m);
    SortLacks(ms, m.rule.id);
    DistinctEnd(ms, m);
  }

  lemma SortLacks(ms: seq<Matcher>, id: string)
    ensures Lacks(Sort(ms), id) <==> Lacks(ms, id)
  {
    forall m
      ensures m in Sort(ms) <==> m in ms
    {
      SortMember(ms, m);
    }
  }

  /** Another proxy's engine does not notice a change to rows that are not its own. */
  lemma OtherRows(t: Texts, rows: Table, rows': Table, proxyId: string, ms: seq<Matcher>)
    requires EngineOk(t, rows, proxyId, ms)
    requires forall id :: id in rows && rows[id].proxyId == proxyId ==> id in rows' && rows'[id] == rows[id]
    requires forall id :: id in rows' && rows'[id].proxyId == proxyId ==> id in rows && rows[id] == rows'[id]
    ensures EngineOk(t, rows', proxyId, ms)
  {
  }

  /** Losing or losing hold of a row of a loaded proxy is noticed. */
  lemma LostRow(t: Texts, rows: Table, rows': Table, proxyId: string, ms: seq<Matcher>, id: string)
    requires EngineOk(t, rows, proxyId, ms) && id in rows && rows[id].proxyId == proxyId
    requires id !in rows' || rows'[id].proxyId != proxyId
    ensures !EngineOk(t, rows', proxyId, ms)
  {
    var m :| m in ms && m.rule.id == id;
  }

  lemma RemoveKeepsOwn(t: Texts, rows: Table, proxyId: string, ms: seq<Matcher>, id: string)
    requires EngineOk(t, rows, proxyId, ms)
    ensures EngineOk(t, rows - {id}, proxyId, RemoveFrom(t, ms, {id}))
  {
    RemoveIsWithout(t, ms, {id});
    WithoutKeeps(t, ms, {id});
    WithoutDistinct(ms, {id});
    forall m
      ensures m in Without(ms, {id}) <==> m in ms && m.rule.id != id
    {
      WithoutMembers(ms, {id}, m);
    }
  }

  lemma MirrorsAfterAdd(rows: Table, proxyId: string, ms: seq<Matcher>, after: seq<Matcher>, added: Matcher)
    requires Mirrors(rows, proxyId, ms)
    requires forall m :: m in after <==> (m in ms && m.rule.id != added.rule.id) || m == added
    ensures Mirrors(rows[added.rule.id := Row(proxyId, Persisted(added.rule))], proxyId, after)
  {
    var rows' := rows[added.rule.id := Row(proxyId, Persisted(added.rule))];
    assert added in after;
    forall id | id in rows' && rows'[id].proxyId == proxyId
      ensures exists m :: m in after && m.rule.id == id
    {
      if id != added.rule.id {
        assert id in rows && rows[id].proxyId == proxyId;
        var m :| m in ms && m.rule.id == id;
        assert m in after;
      }
    }
  }

  lemma AddKeepsOwn(t: Texts, rows: Table, proxyId: string, ms: seq<Matcher>, rule: Rule)
    requires EngineOk(t, rows, proxyId, ms)
    ensures EngineOk(t, rows[rule.id := Row(proxyId, Persisted(rule))], proxyId, AddTo(t, ms, rule))
  {
    var kept, added := Without(ms, {rule.id}), Compile(t, rule);
    var after := Insert(kept, added);
    AddIsInsert(t, ms, rule);
    WithoutKeeps(t, ms, {rule.id});
    WithoutDistinct(ms, {rule.id});
    forall m
      ensures m in kept <==> m in ms && m.rule.id != rule.id
      ensures m in after <==> (m in ms && m.rule.id != rule.id) || m == added
    {
      WithoutMembers(ms, {rule.id}, m);
      InsertMember(kept, added, m);
    }
    InsertOrder(kept, added);
    InsertDistinct(kept, added);
    MirrorsAfterAdd(rows, proxyId, ms, after, added);
    SortCompiled(t, CompileAll(t, RulesOf(kept) + [rule]));
  }

  /** The other engines agree with the new rows exactly when none of them lost a row. */
  lemma OthersConsistent(t: Texts, s: State, s': State, proxyId: string, ids: set<string>)
    requires Consistent(t, s) && proxyId in s.engines
    requires s'.engines.Keys == s.engines.Keys && forall p :: p in s.engines && p != proxyId ==> s'.engines[p] == s.engines[p]
    requires forall id :: id in ids ==> id !in s'.rows || s'.rows[id].proxyId == proxyId
    requires forall id :: id !in ids && (id in s.rows && s.rows[id].proxyId != proxyId) ==> id in s'.rows && s'.rows[id] == s.rows[id]
    requires forall id :: id !in ids && (id in s'.rows && s'.rows[id].proxyId != proxyId) ==> id in s.rows && s'.rows[id] == s.rows[id]
    ensures Consistent(t, s') <==>
              EngineOk(t, s'.rows, proxyId, s'.engines[proxyId]) && forall id :: id in ids ==> FreeFor(s, proxyId, id)
  {
    if forall id :: id in ids ==> FreeFor(s, proxyId, id) {
      forall p | p in s'.engines && p != proxyId
        ensures EngineOk(t, s'.rows, p, s'.engines[p])
      {
        assert EngineOk(t, s.rows, p, s.engines[p]);
        OtherRows(t, s.rows, s'.rows, p, s.engines[p]);
      }
    } else {
      var id :| id in ids && !FreeFor(s, proxyId, id);
      var p := s.rows[id].proxyId;
      assert EngineOk(t, s.rows, p, s.engines[p]);
      LostRow(t, s.rows, s'.rows, p, s.engines[p], id);
      assert !EngineOk(t, s'.rows, p, s'.engines[p]);
    }
  }

  /** A removal keeps memory and table in agreement exactly when the id is not the
      rule of another loaded proxy: the deletion does not look at the proxy. */
  lemma RemoveConsistentIff(t: Texts, s: State, proxyId: string, id: string)
    requires Consistent(t, s) && proxyId in s.engines
    ensures Consistent(t, RemoveRule(t, s, proxyId, id)) <==> FreeFor(s, proxyId, id)
  {
    assert EngineOk(t, s.rows, proxyId, s.engines[proxyId]);
    RemoveKeepsOwn(t, s.rows, proxyId, s.engines[proxyId], id);
    OthersConsistent(t, s, RemoveRule(t, s, proxyId, id), proxyId, {id});
  }

  /** An addition does so exactly when the id is not the rule of another loaded proxy. */
  lemma AddConsistentIff(t: Texts, s: State, proxyId: string, rule: Rule)
    requires Consistent(t, s) && proxyId in s.engines
    ensures Consistent(t, AddRule(t, s, proxyId, rule)) <==> FreeFor(s, proxyId, rule.id)
  {
    assert EngineOk(t, s.rows, proxyId, s.engines[proxyId]);
    AddKeepsOwn(t, s.rows, proxyId, s.engines[proxyId], rule);
    OthersConsistent(t, s, AddRule(t, s, proxyId, rule), proxyId, {rule.id});
  }

  function IdsOf(rules: seq<Rule>): set<string> {
    set i | 0 <= i < |rules| :: rules[i].id
  }

  ghost predicate DistinctRuleIds(rules: seq<Rule>) {
    forall i, j :: 0 <= i < j < |rules| ==> rules[i].id != rules[j].id
  }

  lemma {:induction false} SavedRows(rows: Table, proxyId: string, rules: seq<Rule>, id: string)
    ensures var saved := SaveAll(rows, proxyId, rules);
            && (id in IdsOf(rules) ==> id in saved && saved[id].proxyId == proxyId)
            && (id !in IdsOf(rules) ==> (id in saved <==> id in rows) && (id in rows ==> saved[id] == rows[id]))
  {
    if rules != [] {
      var n := |rules| - 1;
      SavedRows(rows, proxyId, rules[..n], id);
      assert IdsOf(rules) == IdsOf(rules[..n]) + {rules[n].id} by {
        assert forall i :: 0 <= i < n ==> rules[..n][i] == rules[i];
      }
    }
  }

  lemma {:induction false} SavedDistinct(rows: Table, proxyId: string, rules: seq<Rule>, i: nat)
    requires i < |rules| && DistinctRuleIds(rules)
    ensures var saved := SaveAll(rows, proxyId, rules);
            rules[i].id in saved && saved[rules[i].id] == Row(proxyId, Persisted(rules[i]))
  {
    var n := |rules| - 1;
    if i < n {
      SavedDistinct(rows, proxyId, rules[..n], i);
    }
  }

  lemma ReloadMirrors(t: Texts, rows: Table, proxyId: string, rules: seq<Rule>, ms: seq<Matcher>)
    requires DistinctRuleIds(rules) && forall id :: id in rows ==> rows[id].proxyId != proxyId
    requires forall m :: m in ms <==> m in CompileAll(t, rules)
    ensures Mirrors(SaveAll(rows, proxyId, rules), proxyId, ms)
  {
    var compiled, saved := CompileAll(t, rules), SaveAll(rows, proxyId, rules);
    forall m | m in ms
      ensures m.rule.id in saved && saved[m.rule.id] == Row(proxyId, Persisted(m.rule))
    {
      var i :| 0 <= i < |compiled| && compiled[i] == m;
      SavedDistinct(rows, proxyId, rules, i);
    }
    forall id | id in saved && saved[id].proxyId == proxyId
      ensures exists m :: m in ms && m.rule.id == id
    {
      SavedRows(rows, proxyId, rules, id);
      var i :| 0 <= i < |rules| && rules[i].id == id;
      assert compiled[i] in compiled;
    }
  }

  lemma ReloadKeepsOwn(t: Texts, rows: Table, proxyId: string, rules: seq<Rule>)
    requires forall id :: id in rows ==> rows[id].proxyId != proxyId
    ensures EngineOk(t, SaveAll(rows, proxyId, rules), proxyId, Build(t, rules)) <==> DistinctRuleIds(rules)
  {
    var compiled := CompileAll(t, rules);
    SortDistinct(compiled);
    forall m
      ensures m in Build(t, rules) <==> m in compiled
    {
      SortMember(compiled, m);
    }
    SortCompiled(t, compiled);
    assert DistinctIds(compiled) <==> DistinctRuleIds(rules);
    if DistinctRuleIds(rules) {
      ReloadMirrors(t, rows, proxyId, rules, Build(t, rules));
    }
  }

  /** A reload does so exactly when the new list repeats no id and uses none of
      another loaded proxy. */
  lemma ReloadConsistentIff(t: Texts, s: State, proxyId: string, rules: seq<Rule>)
    requires Consistent(t, s) && proxyId in s.engines
    ensures Consistent(t, ReloadRules(t, s, proxyId, rules)) <==>
              DistinctRuleIds(rules) && forall id :: id in IdsOf(rules) ==> FreeFor(s, proxyId, id)
  {
    var kept := s.rows - RowIds(s.rows, proxyId);
    ReloadKeepsOwn(t, kept, proxyId, rules);
    forall id
      ensures var saved := SaveAll(kept, proxyId, rules);
            && (id in IdsOf(rules) ==> id in saved && saved[id].proxyId == proxyId)
            && (id !in IdsOf(rules) ==> (id in saved <==> id in kept) && (id in kept ==> saved[id] == kept[id]))
    {
      SavedRows(kept, proxyId, rules, id);
    }
    OthersConsistent(t, s, ReloadRules(t, s, proxyId, rules), proxyId, IdsOf(rules));
  }

  /** No loaded proxy has a rule of this id. */
  predicate Unclaimed(s: State, id: string) {
    id !in s.rows || s.rows[id].proxyId !in s.engines
  }

  /** A row that is lost or given to nobody loaded is noticed exactly if a loaded
      proxy had it. */
  lemma RowConsistentIff(t: Texts, s: State, s': State, id: string)
    requires Consistent(t, s) && s'.engines == s.engines
    requires id !in s'.rows || s'.rows[id].proxyId !in s.engines
    requires forall k :: k != id ==> (k in s'.rows <==> k in s.rows) && (k in s.rows ==> s'.rows[k] == s.rows[k])
    ensures Consistent(t, s') <==> Unclaimed(s, id)
  {
    if Unclaimed(s, id) {
      forall p | p in s'.engines
        ensures EngineOk(t, s'.rows, p, s'.engines[p])
      {
        assert EngineOk(t, s.rows, p, s.engines[p]);
        OtherRows(t, s.rows, s'.rows, p, s.engines[p]);
      }
    } else {
      var p := s.rows[id].proxyId;
      assert EngineOk(t, s.rows, p, s.engines[p]);
      LostRow(t, s.rows, s'.rows, p, s.engines[p], id);
      assert !EngineOk(t, s'.rows, p, s'.engines[p]);
    }
  }

  /** A permanent global rule keeps memory and table of the proxies in agreement
      exactly when its id is not the rule of a loaded proxy. */
  lemma AddGlobalConsistentIff(t: Texts, s: State, rule: Rule)
    requires Consistent(t, s) && GLOBAL !in s.engines
    ensures Consistent(t, AddGlobalRow(s, rule)) <==> Unclaimed(s, rule.id)
  {
    RowConsistentIff(t, s, AddGlobalRow(s, rule), rule.id);
  }

  /** So does the removal of a global rule, whether there was such a rule or not. */
  lemma RemoveGlobalConsistentIff(t: Texts, s: State, id: string)
    requires Consistent(t, s)
    ensures Consistent(t, RemoveGlobalRow(s, id)) <==> Unclaimed(s, id)
  {
    RowConsistentIff(t, s, RemoveGlobalRow(s, id), id);
  }

  // ---- Runs of calls ----

  datatype Call =
    | Added(proxyId: string, rule: Rule)
    | Removed(proxyId: string, id: string)
    | Reloaded(proxyId: string, rules: seq<Rule>)
    | GlobalAdded(rule: Rule)
    | GlobalRemoved(id: string)

  function Apply(t: Texts, s: State, call: Call): State {
    match call
    case Added(proxyId, rule) => AddRule(t, s, proxyId, rule)
    case Removed(proxyId, id) => RemoveRule(t, s, proxyId, id)
    case Reloaded(proxyId, rules) => ReloadRules(t, s, proxyId, rules)
    case GlobalAdded(rule) => AddGlobalRow(s, rule)
    case GlobalRemoved(id) => RemoveGlobalRow(s, id)
  }

  function Exec(t: Texts, proxies: set<string>, calls: seq<Call>): State {
    if calls == [] then State(map p | p in proxies :: [], map[])
    else Apply(t, Exec(t, proxies, calls[..|calls| - 1]), calls[|calls| - 1])
  }

  /** Each rule id has one home, a proxy or the global rules, and a reload repeats
      no id. */
  ghost predicate KeepsHome(home: string -> string, call: Call) {
    match call
    case Added(proxyId, rule) => home(rule.id) == proxyId
    case Removed(proxyId, id) => home(id) == proxyId
    case Reloaded(proxyId, rules) => DistinctRuleIds(rules) && forall i :: 0 <= i < |rules| ==> home(rules[i].id) == proxyId
    case GlobalAdded(rule) => home(rule.id) == GLOBAL
    case GlobalRemoved(id) => home(id) == GLOBAL
  }

  ghost predicate RowsAtHome(home: string -> string, rows: Table) {
    forall id :: id in rows ==> rows[id].proxyId == home(id)
  }

  /** With each rule id used in one place only, the rows of every proxy are its
      rules in memory after any calls. */
  lemma {:induction false} AlwaysConsistent(t: Texts, proxies: set<string>, calls: seq<Call>, home: string -> string)
    requires GLOBAL !in proxies && forall i :: 0 <= i < |calls| ==> KeepsHome(home, calls[i])
    ensures var s := Exec(t, proxies, calls);
            s.engines.Keys == proxies && Consistent(t, s) && RowsAtHome(home, s.rows)
  {
    if calls != [] {
      var n := |calls| - 1;
      AlwaysConsistent(t, proxies, calls[..n], home);
      assert KeepsHome(home, calls[n]);
      CallConsistent(t, Exec(t, proxies, calls[..n]), calls[n], home);
    }
  }

  lemma CallConsistent(t: Texts, s: State, call: Call, home: string -> string)
    requires Consistent(t, s) && RowsAtHome(home, s.rows) && KeepsHome(home, call) && GLOBAL !in s.engines
    ensures Consistent(t, Apply(t, s, call)) && RowsAtHome(home, Apply(t, s, call).rows)
    ensures Apply(t, s, call).engines.Keys == s.engines.Keys
  {
    match call
    case Added(proxyId, rule) =>
      if proxyId in s.engines {
        AddConsistentIff(t, s, proxyId, rule);
      }
    case Removed(proxyId, id) =>
      if proxyId in s.engines {
        RemoveConsistentIff(t, s, proxyId, id);
      }
    case Reloaded(proxyId, rules) =>
      if proxyId in s.engines {
        ReloadConsistentIff(t, s, proxyId, rules);
        ReloadAtHome(s, proxyId, rules, home);
      }
    case GlobalAdded(rule) => AddGlobalConsistentIff(t, s, rule);
    case GlobalRemoved(id) => RemoveGlobalConsistentIff(t, s, id);
  }

  lemma ReloadAtHome(s: State, proxyId: string, rules: seq<Rule>, home: string -> string)
    requires RowsAtHome(home, s.rows) && forall i :: 0 <= i < |rules| ==> home(rules[i].id) == proxyId
    ensures RowsAtHome(home, SaveAll(s.rows - RowIds(s.rows, proxyId), proxyId, rules))
  {
    var kept := s.rows - RowIds(s.rows, proxyId);
    forall id
      ensures id in SaveAll(kept, proxyId, rules) ==> SaveAll(kept, proxyId, rules)[id].proxyId == home(id)
    {
      SavedRows(kept, proxyId, rules, id);
    }
  }

  // ---- After a restart ----

  /** The rows of a proxy in some order: the query sorts by priority and leaves
      the order of ties open. */
  ghost predicate Lists(rows: Table, proxyId: string, rules: seq<Rule>) {
    && (forall i :: 0 <= i < |rules| ==> rules[i].id in rows && rows[rules[i].id] == Row(proxyId, rules[i]))
    && (forall id :: id in rows && rows[id].proxyId == proxyId ==> exists i :: 0 <= i < |rules| && rules[i].id == id)
  }

  /** The same rule in all its columns; the limit is lost. */
  predicate SameButLimit(loaded: Rule, rule: Rule) {
    && loaded.id == rule.id && loaded.name == rule.name && loaded.priority == rule.priority
    && loaded.enabled == rule.enabled && loaded.conditions == rule.conditions
    && loaded.action == rule.action && loaded.targetBackend == rule.targetBackend
    && loaded.rateLimit.None?
  }

  lemma PersistedMatches(t: Texts, rule: Rule, q: Query)
    ensures Matches(t, Compile(t, Persisted(rule)), q) <==> Matches(t, Compile(t, rule), q)
  {
    forall i | 0 <= i < |rule.conditions|
      ensures CheckCondition(t, Compile(t, Persisted(rule)), rule.conditions[i], q)
         <==> CheckCondition(t, Compile(t, rule), rule.conditions[i], q)
    {
    }
  }

  lemma {:induction false} VerdictIsTop(t: Texts, ms: seq<Matcher>, q: Query)
    requires Sorted(ms)
    ensures var r := FirstMatch(t, ms, q);
            forall m :: m in ms && Matches(t, m, q) ==> r.Some? && m.rule.priority <= r.value.priority
  {
    if ms != [] {
      VerdictIsTop(t, ms[1..], q);
      forall m | m in ms && Matches(t, m, q)
        ensures FirstMatch(t, ms, q).Some? && m.rule.priority <= FirstMatch(t, ms, q).value.priority
      {
        assert m == ms[0] || m in ms[1..];
      }
    }
  }

  /** No other rule that matches has the priority of the verdict. */
  ghost predicate Untied(t: Texts, ms: seq<Matcher>, q: Query) {
    forall a, b :: a in ms && b in ms && Matches(t, a, q) && Matches(t, b, q) && a.rule.priority == b.rule.priority ==> a == b
  }

  /** An engine rebuilt from the rows decides the same: with the same rule, up to
      its rate limit, wherever no tie leaves the choice to the row order. */
  lemma RestartKeepsVerdicts(t: Texts, rows: Table, proxyId: string, ms: seq<Matcher>, rules: seq<Rule>, q: Query)
    requires EngineOk(t, rows, proxyId, ms) && Lists(rows, proxyId, rules)
    ensures var before, after := FirstMatch(t, ms, q), FirstMatch(t, Build(t, rules), q);
            && (before.None? <==> after.None?)
            && (before.Some? ==> after.value.priority == before.value.priority)
            && (before.Some? && Untied(t, ms, q) ==> SameButLimit(after.value, before.value))
  {
    var before, after := FirstMatch(t, ms, q), FirstMatch(t, Build(t, rules), q);
    var best := VerdictIsBest(t, rules, q);
    FirstMatchIsMember(t, ms, q);
    VerdictIsTop(t, ms, q);
    if after.Some? {
      var twin := TwinInMemory(t, rows, proxyId, ms, rules, best, q);
    }
    if before.Some? {
      var k :| 0 <= k < |ms| && ms[k].rule == before.value && Matches(t, ms[k], q);
      var j := TwinInRows(t, rows, proxyId, ms, rules, k, q);
      assert rules[j].priority <= rules[best].priority;
      var twin := TwinInMemory(t, rows, proxyId, ms, rules, best, q);
      assert twin in ms && ms[k] in ms;
    }
  }

  lemma TwinInMemory(t: Texts, rows: Table, proxyId: string, ms: seq<Matcher>, rules: seq<Rule>, i: nat, q: Query)
    returns (m: Matcher)
    requires EngineOk(t, rows, proxyId, ms) && Lists(rows, proxyId, rules) && i < |rules|
    ensures m in ms && Persisted(m.rule) == rules[i] && (Matches(t, m, q) <==> Matches(t, Compile(t, rules[i]), q))
  {
    assert rows[rules[i].id].proxyId == proxyId;
    m :| m in ms && m.rule.id == rules[i].id;
    PersistedMatches(t, m.rule, q);
  }

  lemma TwinInRows(t: Texts, rows: Table, proxyId: string, ms: seq<Matcher>, rules: seq<Rule>, k: nat, q: Query)
    returns (j: nat)
    requires EngineOk(t, rows, proxyId, ms) && Lists(rows, proxyId, rules) && k < |ms|
    ensures j < |rules| && rules[j] == Persisted(ms[k].rule) && (Matches(t, Compile(t, rules[j]), q) <==> Matches(t, ms[k], q))
  {
    assert ms[k] in ms;
    j :| 0 <= j < |rules| && rules[j].id == ms[k].rule.id;
    PersistedMatches(t, ms[k].rule, q);
  }
}
