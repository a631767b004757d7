/**
 Calls on the rules of proxies that overlap.

 A call changes the engine of a proxy under its lock, and the table afterwards by
 one statement or, for a reload, by several: it lists the rows of the proxy,
 deletes them one by one, and saves the new rules one by one. Other calls may come
 in between any two of these. Each change of an engine and each statement is a
 step, and a run is any interleaving of the steps of any calls.
 */
module RuleRuns {
  import opened Options
  import opened Matching
  import opened RuleEngine
  import opened RuleStore

  datatype Statement =
    | Load(proxyId: string, rules: seq<Rule>)   // to be followed by the deletions and by the savings of the rules
    | Delete(id: string)
    | Save(proxyId: string, rule: Rule)

  /** A call under way, with the statements still to come. */
  datatype Job = Job(call: Call, todo: seq<Statement>)

  datatype Run = Run(engines: map<string, seq<Matcher>>, rows: Table, flight: map<nat, Job>)

  /** `order` is the order in which a listing returns the rows. */
  datatype Step = Begin(number: nat, call: Call) | Execute(number: nat, order: seq<string>)

  /** A call on a proxy that is not loaded fails and issues no statement. */
  predicate Loaded(engines: map<string, seq<Matcher>>, c: Call) {
    c.GlobalAdded? || c.GlobalRemoved? || c.proxyId in engines
  }

  predicate Listing(rows: Table, p: string, order: seq<string>) {
    (set id | id in order) == RowIds(rows, p)
  }

  predicate Enabled(s: Run, step: Step) {
    match step
    case Begin(k, c) => k !in s.flight && Loaded(s.engines, c)
    case Execute(k, order) =>
      && k in s.flight && s.flight[k].todo != []
      && (s.flight[k].todo[0].Load? ==> Listing(s.rows, s.flight[k].todo[0].proxyId, order))
  }

  function EnginesAfter(t: Texts, engines: map<string, seq<Matcher>>, c: Call): map<string, seq<Matcher>>
    requires Loaded(engines, c)
  {
    match c
    case Added(p, rule) => engines[p := AddTo(t, engines[p], rule)]
    case Removed(p, id) => engines[p := RemoveFrom(t, engines[p], {id})]
    case Reloaded(p, rules) => engines[p := Build(t, rules)]
    case _ => engines
  }

  /** The statements of a call. */
  function Work(c: Call): seq<Statement> {
    match c
    case Added(p, rule) => [Save(p, rule)]
    case Removed(_, id) => [Delete(id)]
    case Reloaded(p, rules) => [Load(p, rules)]
    case GlobalAdded(rule) => [Save(GLOBAL, rule)]
    case GlobalRemoved(id) => [Delete(id)]
  }

  function Deletes(ids: seq<string>): (w: seq<Statement>)
    ensures |w| == |ids| && forall i :: 0 <= i < |w| ==> w[i] == Delete(ids[i])
  {
    seq(|ids|, i requires 0 <= i < |ids| => Delete(ids[i]))
  }

  function Saves(p: string, rules: seq<Rule>): (w: seq<Statement>)
    ensures |w| == |rules| && forall i :: 0 <= i < |w| ==> w[i] == Save(p, rules[i])
  {
    seq(|rules|, i requires 0 <= i < |rules| => Save(p, rules[i]))
  }

  function TodoAfter(todo: seq<Statement>, order: seq<string>): seq<Statement>
    requires todo != []
  {
    if todo[0].Load? then Deletes(order) + Saves(todo[0].proxyId, todo[0].rules) + todo[1..] else todo[1..]
  }

  function RowsAfter(rows: Table, st: Statement): Table {
    match st
    case Load(_, _) => rows
    case Delete(id) => rows - {id}
    case Save(p, rule) => rows[rule.id := Row(p, Persisted(rule))]
  }

  /** A call ends with its last statement. */
  function FlightAfter(flight: map<nat, Job>, k: nat, todo: seq<Statement>): map<nat, Job>
    requires k in flight
  {
    if todo == [] then flight - {k} else flight[k := flight[k].(todo := todo)]
  }

  function Next(t: Texts, s: Run, step: Step): Run {
    if !Enabled(s, step) then s
    else match step
      case Begin(k, c) => Run(EnginesAfter(t, s.engines, c), s.rows, s.flight[k := Job(c, Work(c))])
      case Execute(k, order) =>
        var todo := s.flight[k].todo;
        Run(s.engines, RowsAfter(s.rows, todo[0]), FlightAfter(s.flight, k, TodoAfter(todo, order)))
  }

  function Exec(t: Texts, proxies: set<string>, steps: seq<Step>): Run {
    if steps == [] then Run(map p | p in proxies :: [], map[], map[])
    else Next(t, Exec(t, proxies, steps[..|steps| - 1]), steps[|steps| - 1])
  }

  // ---- One rule id at a time ----

  function Find(ms: seq<Matcher>, id: string): Option<Rule> {
    if ms == [] then None else if ms[0].rule.id == id then Some(ms[0].rule) else Find(ms[1..], id)
  }

  lemma {:induction false} FindIsMember(ms: seq<Matcher>, id: string)
    ensures Find(ms, id).Some? ==> exists m :: m in ms && m.rule == Find(ms, id).value && m.rule.id == id
    ensures Find(ms, id).None? <==> Lacks(ms, id)
  {
    if ms != [] {
      FindIsMember(ms[1..], id);
      assert ms == [ms[0]] + ms[1..];
      if ms[0].rule.id == id {
        assert ms[0] in ms;
      }
    }
  }

  lemma MemberIsFound(ms: seq<Matcher>, m: Matcher)
    requires DistinctIds(ms) && m in ms
    ensures Find(ms, m.rule.id) == Some(m.rule)
  {
    FindIsMember(ms, m.rule.id);
    assert !Lacks(ms, m.rule.id);
    var x :| x in ms && x.rule == Find(ms, m.rule.id).value && x.rule.id == m.rule.id;
    var i :| 0 <= i < |ms| && ms[i] == m;
    var j :| 0 <= j < |ms| && ms[j] == x;
  }

  /** Lists that agree on the members of one id agree on what is found under it. */
  lemma SameFind(ms: seq<Matcher>, ms': seq<Matcher>, id: string)
    requires DistinctIds(ms) && DistinctIds(ms')
    requires forall m: Matcher :: m.rule.id == id ==> (m in ms <==> m in ms')
    ensures Find(ms, id) == Find(ms', id)
  {
    FindIsMember(ms, id);
    FindIsMember(ms', id);
    if Find(ms, id).Some? {
      var m :| m in ms && m.rule == Find(ms, id).value && m.rule.id == id;
      MemberIsFound(ms', m);
    }
  }

  /** What memory, and what the table, holds under an id. */
  function InMemory(engines: map<string, seq<Matcher>>, home: string -> string, id: string): Option<Row> {
    var p := home(id);
    if p in engines && Find(engines[p], id).Some? then Some(Row(p, Persisted(Find(engines[p], id).value))) else None
  }

  function InTable(rows: Table, id: string): Option<Row> {
    if id in rows then Some(rows[id]) else None
  }

  /** A sorted, compiled list without repeats, of rules at home here. */
  ghost predicate Tidy(t: Texts, home: string -> string, p: string, ms: seq<Matcher>) {
    Sorted(ms) && Compiled(t, ms) && DistinctIds(ms) && forall m :: m in ms ==> home(m.rule.id) == p
  }

  ghost predicate AllTidy(t: Texts, home: string -> string, engines: map<string, seq<Matcher>>) {
    forall p :: p in engines ==> Tidy(t, home, p, engines[p])
  }

  /** Memory and table agree exactly when they hold the same under every id. */
  lemma ConsistentByIds(t: Texts, home: string -> string, engines: map<string, seq<Matcher>>, rows: Table)
    requires AllTidy(t, home, engines) && RowsAtHome(home, rows)
    ensures Consistent(t, State(engines, rows)) <==>
              forall id :: home(id) in engines ==> InTable(rows, id) == InMemory(engines, home, id)
  {
    var s := State(engines, rows);
    if Consistent(t, s) {
      forall id | home(id) in engines
        ensures InTable(rows, id) == InMemory(engines, home, id)
      {
        assert EngineOk(t, rows, home(id), engines[home(id)]);
        AgreesAtId(t, home, engines, rows, id);
      }
    }
    if forall id :: home(id) in engines ==> InTable(rows, id) == InMemory(engines, home, id) {
      forall p | p in engines
        ensures EngineOk(t, rows, p, engines[p])
      {
        assert Tidy(t, home, p, engines[p]);
        MirrorsByIds(home, engines, rows, p);
      }
    }
  }

  lemma AgreesAtId(t: Texts, home: string -> string, engines: map<string, seq<Matcher>>, rows: Table, id: string)
    requires RowsAtHome(home, rows) && home(id) in engines && EngineOk(t, rows, home(id), engines[home(id)])
    ensures InTable(rows, id) == InMemory(engines, home, id)
  {
    var ms := engines[home(id)];
    FindIsMember(ms, id);
    if id in rows {
      assert rows[id].proxyId == home(id);
      var m :| m in ms && m.rule.id == id;
      MemberIsFound(ms, m);
    }
  }

  lemma MirrorsByIds(home: string -> string, engines: map<string, seq<Matcher>>, rows: Table, p: string)
    requires p in engines && DistinctIds(engines[p]) && RowsAtHome(home, rows)
    requires forall m :: m in engines[p] ==> home(m.rule.id) == p
    requires forall id :: home(id) in engines ==> InTable(rows, id) == InMemory(engines, home, id)
    ensures Mirrors(rows, p, engines[p])
  {
    var ms := engines[p];
    forall m | m in ms
      ensures m.rule.id in rows && rows[m.rule.id] == Row(p, Persisted(m.rule))
    {
      MemberIsFound(ms, m);
      assert InTable(rows, m.rule.id) == InMemory(engines, home, m.rule.id);
    }
    forall id | id in rows && rows[id].proxyId == p
      ensures exists m :: m in ms && m.rule.id == id
    {
      assert home(id) == p;
      assert InTable(rows, id) == InMemory(engines, home, id);
      FindIsMember(ms, id);
    }
  }

  // ---- What the halves of a call do to one id ----

  predicate Touches(home: string -> string, c: Call, id: string) {
    match c
    case Added(_, rule) => rule.id == id
    case Removed(_, x) => x == id
    case Reloaded(p, _) => home(id) == p
    case GlobalAdded(rule) => rule.id == id
    case GlobalRemoved(x) => x == id
  }

  function RuleWith(rules: seq<Rule>, id: string): Option<Rule> {
    if rules == [] then None
    else if rules[|rules| - 1].id == id then Some(rules[|rules| - 1])
    else RuleWith(rules[..|rules| - 1], id)
  }

  /** What a call leaves under an id that it touches. */
  function Effect(c: Call, id: string): Option<Row> {
    match c
    case Added(p, rule) => Some(Row(p, Persisted(rule)))
    case Removed(_, _) => None
    case Reloaded(p, rules) => if RuleWith(rules, id).Some? then Some(Row(p, Persisted(RuleWith(rules, id).value))) else None
    case GlobalAdded(rule) => Some(Row(GLOBAL, Persisted(rule)))
    case GlobalRemoved(_) => None
  }

  // ---- Statements, one rule id at a time ----

  predicate StatementTouches(st: Statement, id: string) {
    (st.Delete? && st.id == id) || (st.Save? && st.rule.id == id)
  }

  function StatementEffect(st: Statement): Option<Row> {
    if st.Save? then Some(Row(st.proxyId, Persisted(st.rule))) else None
  }

  lemma StatementOnId(rows: Table, st: Statement, id: string)
    ensures InTable(RowsAfter(rows, st), id) == if StatementTouches(st, id) then StatementEffect(st) else InTable(rows, id)
  {
  }

  /** What a list of statements leaves under an id. */
  function RunOn(todo: seq<Statement>, id: string, row: Option<Row>): Option<Row> {
    if todo == [] then row
    else RunOn(todo[1..], id, if StatementTouches(todo[0], id) then StatementEffect(todo[0]) else row)
  }

  lemma {:induction false} RunOnJoin(a: seq<Statement>, b: seq<Statement>, id: string, row: Option<Row>)
    ensures RunOn(a + b, id, row) == RunOn(b, id, RunOn(a, id, row))
    decreases |a|
  {
    if a == [] {
      assert a + b == b;
    } else {
      assert (a + b)[1..] == a[1..] + b;
      RunOnJoin(a[1..], b, id, if StatementTouches(a[0], id) then StatementEffect(a[0]) else row);
    }
  }

  lemma {:induction false} RunDeletes(ids: seq<string>, id: string, row: Option<Row>)
    ensures RunOn(Deletes(ids), id, row) == if id in ids then None else row
    decreases |ids|
  {
    if ids != [] {
      assert Deletes(ids)[1..] == Deletes(ids[1..]);
      RunDeletes(ids[1..], id, if ids[0] == id then None else row);
      assert ids == [ids[0]] + ids[1..];
    }
  }

  lemma {:induction false} RunSaves(p: string, rules: seq<Rule>, id: string, row: Option<Row>)
    ensures RunOn(Saves(p, rules), id, row) ==
              if RuleWith(rules, id).Some? then Some(Row(p, Persisted(RuleWith(rules, id).value))) else row
    decreases |rules|
  {
    if rules != [] {
      var n := |rules| - 1;
      var last := Save(p, rules[n]);
      assert Saves(p, rules) == Saves(p, rules[..n]) + [last];
      RunSaves(p, rules[..n], id, row);
      RunOnJoin(Saves(p, rules[..n]), [last], id, row);
      assert [last][1..] == [];
    }
  }

  /** The statements of a reload whose rows were just listed. */
  lemma ReloadLeaves(home: string -> string, rows: Table, p: string, rules: seq<Rule>, order: seq<string>, id: string)
    requires RowsAtHome(home, rows) && Listing(rows, p, order) && home(id) == p
    ensures RunOn(Deletes(order) + Saves(p, rules), id, InTable(rows, id)) == Effect(Reloaded(p, rules), id)
  {
    var row := InTable(rows, id);
    RunOnJoin(Deletes(order), Saves(p, rules), id, row);
    RunDeletes(order, id, row);
    RunSaves(p, rules, id, RunOn(Deletes(order), id, row));
    assert id in (set x | x in order) <==> id in RowIds(rows, p);
  }

  lemma {:induction false} RuleWithIsMember(rules: seq<Rule>, id: string)
    ensures RuleWith(rules, id).Some? ==> exists i :: 0 <= i < |rules| && rules[i] == RuleWith(rules, id).value && rules[i].id == id
    ensures RuleWith(rules, id).None? ==> forall i :: 0 <= i < |rules| ==> rules[i].id != id
  {
    if rules != [] {
      var n := |rules| - 1;
      RuleWithIsMember(rules[..n], id);
      if RuleWith(rules, id).Some? && rules[n].id != id {
        var i :| 0 <= i < n && rules[..n][i] == RuleWith(rules, id).value && rules[..n][i].id == id;
        assert rules[i] == RuleWith(rules, id).value;
      }
    }
  }

  /** The statements still to come touch ids of the call only, and save each rule
      under its home; a listing is a reload's first statement. */
  ghost predicate StatementAtHome(home: string -> string, c: Call, st: Statement) {
    match st
    case Load(p, rules) => c == Reloaded(p, rules)
    case Delete(id) => Touches(home, c, id)
    case Save(p, rule) => Touches(home, c, rule.id) && home(rule.id) == p
  }

  ghost predicate JobOk(home: string -> string, job: Job) {
    && KeepsHome(home, job.call) && job.todo != []
    && (forall i :: 0 <= i < |job.todo| ==> StatementAtHome(home, job.call, job.todo[i]))
    && (forall i :: 0 <= i < |job.todo| && job.todo[i].Load? ==> |job.todo| == 1)
  }

  ghost predicate JobsOk(home: string -> string, flight: map<nat, Job>) {
    forall k :: k in flight ==> JobOk(home, flight[k])
  }

  lemma WorkIsOk(home: string -> string, c: Call)
    requires KeepsHome(home, c)
    ensures JobOk(home, Job(c, Work(c)))
  {
  }

  lemma ExecuteKeepsJob(home: string -> string, rows: Table, job: Job, order: seq<string>)
    requires JobOk(home, job) && RowsAtHome(home, rows)
    requires job.todo[0].Load? ==> Listing(rows, job.todo[0].proxyId, order)
    ensures var todo := TodoAfter(job.todo, order); todo == [] || JobOk(home, Job(job.call, todo))
  {
    var todo := TodoAfter(job.todo, order);
    if job.todo[0].Load? {
      var p, rules := job.todo[0].proxyId, job.todo[0].rules;
      assert job.call == Reloaded(p, rules);
      forall i | 0 <= i < |todo|
        ensures StatementAtHome(home, job.call, todo[i]) && !todo[i].Load?
      {
        if i < |order| {
          assert todo[i] == Delete(order[i]) && order[i] in (set id | id in order);
          assert order[i] in RowIds(rows, p);
        } else {
          assert todo[i] == Save(p, rules[i - |order|]);
        }
      }
    }
  }

  lemma TableKeepsHome(home: string -> string, rows: Table, job: Job)
    requires RowsAtHome(home, rows) && JobOk(home, job)
    ensures RowsAtHome(home, RowsAfter(rows, job.todo[0]))
  {
    assert StatementAtHome(home, job.call, job.todo[0]);
  }

  // ---- The memory half ----

  lemma AddedMember(t: Texts, ms: seq<Matcher>, rule: Rule, m: Matcher)
    requires Sorted(ms) && Compiled(t, ms)
    ensures m in AddTo(t, ms, rule) <==> (m in ms && m.rule.id != rule.id) || m == Compile(t, rule)
  {
    AddIsInsert(t, ms, rule);
    WithoutMembers(ms, {rule.id}, m);
    InsertMember(Without(ms, {rule.id}), Compile(t, rule), m);
  }

  lemma AddedTidy(t: Texts, home: string -> string, p: string, ms: seq<Matcher>, rule: Rule)
    requires Tidy(t, home, p, ms) && home(rule.id) == p
    ensures Tidy(t, home, p, AddTo(t, ms, rule))
  {
    var kept := Without(ms, {rule.id});
    AddIsInsert(t, ms, rule);
    WithoutKeeps(t, ms, {rule.id});
    WithoutDistinct(ms, {rule.id});
    forall m
      ensures m in kept <==> m in ms && m.rule.id != rule.id
      ensures m in AddTo(t, ms, rule) <==> (m in ms && m.rule.id != rule.id) || m == Compile(t, rule)
    {
      WithoutMembers(ms, {rule.id}, m);
      AddedMember(t, ms, rule, m);
    }
    InsertOrder(kept, Compile(t, rule));
    InsertDistinct(kept, Compile(t, rule));
    SortCompiled(t, CompileAll(t, RulesOf(kept) + [rule]));
  }

  lemma RemovedTidy(t: Texts, home: string -> string, p: string, ms: seq<Matcher>, id: string)
    requires Tidy(t, home, p, ms)
    ensures Tidy(t, home, p, RemoveFrom(t, ms, {id}))
    ensures forall m :: m in RemoveFrom(t, ms, {id}) <==> m in ms && m.rule.id != id
  {
    RemoveIsWithout(t, ms, {id});
    WithoutKeeps(t, ms, {id});
    WithoutDistinct(ms, {id});
    forall m
      ensures m in Without(ms, {id}) <==> m in ms && m.rule.id != id
    {
      WithoutMembers(ms, {id}, m);
    }
  }

  lemma BuiltTidy(t: Texts, home: string -> string, p: string, rules: seq<Rule>)
    requires DistinctRuleIds(rules) && forall i :: 0 <= i < |rules| ==> home(rules[i].id) == p
    ensures Tidy(t, home, p, Build(t, rules))
    ensures forall m :: m in Build(t, rules) <==> m in CompileAll(t, rules)
  {
    var compiled := CompileAll(t, rules);
    SortDistinct(compiled);
    SortCompiled(t, compiled);
    forall m
      ensures m in Build(t, rules) <==> m in compiled
    {
      SortMember(compiled, m);
    }
  }

  lemma MemoryTidy(t: Texts, home: string -> string, engines: map<string, seq<Matcher>>, c: Call)
    requires AllTidy(t, home, engines) && KeepsHome(home, c) && Loaded(engines, c)
    ensures AllTidy(t, home, EnginesAfter(t, engines, c))
  {
    if c.Added? {
      AddedTidy(t, home, c.proxyId, engines[c.proxyId], c.rule);
    } else if c.Removed? {
      RemovedTidy(t, home, c.proxyId, engines[c.proxyId], c.id);
    } else if c.Reloaded? {
      BuiltTidy(t, home, c.proxyId, c.rules);
    }
  }

  lemma AddedFind(t: Texts, home: string -> string, p: string, ms: seq<Matcher>, rule: Rule, id: string)
    requires Tidy(t, home, p, ms) && home(rule.id) == p
    ensures Find(AddTo(t, ms, rule), id) == if id == rule.id then Some(rule) else Find(ms, id)
  {
    AddedTidy(t, home, p, ms, rule);
    var after := AddTo(t, ms, rule);
    if id == rule.id {
      AddedMember(t, ms, rule, Compile(t, rule));
      MemberIsFound(after, Compile(t, rule));
    } else {
      forall m: Matcher | m.rule.id == id
        ensures m in ms <==> m in after
      {
        AddedMember(t, ms, rule, m);
      }
      SameFind(ms, after, id);
    }
  }

  lemma RemovedFind(t: Texts, home: string -> string, p: string, ms: seq<Matcher>, x: string, id: string)
    requires Tidy(t, home, p, ms)
    ensures Find(RemoveFrom(t, ms, {x}), id) == if id == x then None else Find(ms, id)
  {
    RemovedTidy(t, home, p, ms, x);
    if id == x {
      FindIsMember(RemoveFrom(t, ms, {x}), id);
    } else {
      SameFind(ms, RemoveFrom(t, ms, {x}), id);
    }
  }

  lemma BuiltFind(t: Texts, home: string -> string, p: string, rules: seq<Rule>, id: string)
    requires DistinctRuleIds(rules) && forall i :: 0 <= i < |rules| ==> home(rules[i].id) == p
    ensures Find(Build(t, rules), id) == RuleWith(rules, id)
  {
    var ms, compiled := Build(t, rules), CompileAll(t, rules);
    BuiltTidy(t, home, p, rules);
    RuleWithIsMember(rules, id);
    if RuleWith(rules, id).Some? {
      var i :| 0 <= i < |rules| && rules[i] == RuleWith(rules, id).value && rules[i].id == id;
      assert compiled[i] in compiled;
      MemberIsFound(ms, compiled[i]);
    } else {
      FindIsMember(ms, id);
      assert Lacks(ms, id);
    }
  }

  lemma MemoryHalf(t: Texts, home: string -> string, engines: map<string, seq<Matcher>>, c: Call, id: string)
    requires AllTidy(t, home, engines) && KeepsHome(home, c) && Loaded(engines, c) && home(id) in engines && GLOBAL !in engines
    ensures InMemory(EnginesAfter(t, engines, c), home, id) == if Touches(home, c, id) then Effect(c, id) else InMemory(engines, home, id)
  {
    if c.Added? {
      AddedFind(t, home, c.proxyId, engines[c.proxyId], c.rule, id);
    } else if c.Removed? {
      RemovedFind(t, home, c.proxyId, engines[c.proxyId], c.id, id);
    } else if c.Reloaded? {
      BuiltFind(t, home, c.proxyId, c.rules, id);
    }
  }

  // ---- Runs ----

  ghost predicate StepAtHome(home: string -> string, step: Step) {
    step.Begin? ==> KeepsHome(home, step.call)
  }

  ghost predicate AtHome(home: string -> string, steps: seq<Step>) {
    forall i :: 0 <= i < |steps| ==> StepAtHome(home, steps[i])
  }

  /** Holds in every state of a run in which each rule id has one home. */
  ghost predicate RunOk(t: Texts, home: string -> string, proxies: set<string>, s: Run) {
    && s.engines.Keys == proxies && AllTidy(t, home, s.engines) && RowsAtHome(home, s.rows)
    && JobsOk(home, s.flight)
  }

  lemma {:induction false} AlwaysRunOk(t: Texts, home: string -> string, proxies: set<string>, steps: seq<Step>)
    requires AtHome(home, steps)
    ensures RunOk(t, home, proxies, Exec(t, proxies, steps))
  {
    if steps != [] {
      var n := |steps| - 1;
      var s, step := Exec(t, proxies, steps[..n]), steps[n];
      AlwaysRunOk(t, home, proxies, steps[..n]);
      assert StepAtHome(home, step);
      if Enabled(s, step) {
        if step.Begin? {
          MemoryTidy(t, home, s.engines, step.call);
          WorkIsOk(home, step.call);
        } else {
          TableKeepsHome(home, s.rows, s.flight[step.number]);
          ExecuteKeepsJob(home, s.rows, s.flight[step.number], step.order);
        }
      }
    }
  }

  /** The effect of the last call whose memory half touched the id. */
  function LastInMemory(t: Texts, home: string -> string, proxies: set<string>, steps: seq<Step>, id: string): Option<Row> {
    if steps == [] then None else
      var n := |steps| - 1;
      var s, step := Exec(t, proxies, steps[..n]), steps[n];
      if step.Begin? && Enabled(s, step) && Touches(home, step.call, id) then Effect(step.call, id)
      else LastInMemory(t, home, proxies, steps[..n], id)
  }

  /** The effect of the last statement that touched the id. */
  function LastInTable(t: Texts, proxies: set<string>, steps: seq<Step>, id: string): Option<Row> {
    if steps == [] then None else
      var n := |steps| - 1;
      var s, step := Exec(t, proxies, steps[..n]), steps[n];
      if step.Execute? && Enabled(s, step) && StatementTouches(s.flight[step.number].todo[0], id)
      then StatementEffect(s.flight[step.number].todo[0])
      else LastInTable(t, proxies, steps[..n], id)
  }

  lemma {:induction false} MemoryIsLast(t: Texts, home: string -> string, proxies: set<string>, steps: seq<Step>, id: string)
    requires AtHome(home, steps) && home(id) in proxies && GLOBAL !in proxies
    ensures InMemory(Exec(t, proxies, steps).engines, home, id) == LastInMemory(t, home, proxies, steps, id)
  {
    if steps != [] {
      var n := |steps| - 1;
      var s, step := Exec(t, proxies, steps[..n]), steps[n];
      MemoryIsLast(t, home, proxies, steps[..n], id);
      AlwaysRunOk(t, home, proxies, steps[..n]);
      assert StepAtHome(home, step);
      if step.Begin? && Enabled(s, step) {
        MemoryHalf(t, home, s.engines, step.call, id);
      }
    }
  }

  lemma {:induction false} TableIsLast(t: Texts, proxies: set<string>, steps: seq<Step>, id: string)
    ensures InTable(Exec(t, proxies, steps).rows, id) == LastInTable(t, proxies, steps, id)
  {
    if steps != [] {
      var n := |steps| - 1;
      var s, step := Exec(t, proxies, steps[..n]), steps[n];
      TableIsLast(t, proxies, steps[..n], id);
      if step.Execute? && Enabled(s, step) {
        StatementOnId(s.rows, s.flight[step.number].todo[0], id);
      }
    }
  }

  /** On every interleaving: memory and table agree exactly when, for every rule
      id, the last change of an engine and the last statement to touch it leave the
      same. */
  lemma AgreeIff(t: Texts, home: string -> string, proxies: set<string>, steps: seq<Step>)
    requires AtHome(home, steps) && GLOBAL !in proxies
    ensures var s := Exec(t, proxies, steps);
            Consistent(t, State(s.engines, s.rows)) <==>
              forall id :: home(id) in proxies ==>
                LastInMemory(t, home, proxies, steps, id) == LastInTable(t, proxies, steps, id)
  {
    var s := Exec(t, proxies, steps);
    AlwaysRunOk(t, home, proxies, steps);
    ConsistentByIds(t, home, s.engines, s.rows);
    forall id | home(id) in proxies
      ensures InMemory(s.engines, home, id) == LastInMemory(t, home, proxies, steps, id)
      ensures InTable(s.rows, id) == LastInTable(t, proxies, steps, id)
    {
      MemoryIsLast(t, home, proxies, steps, id);
      TableIsLast(t, proxies, steps, id);
    }
  }

  // ---- Calls that nothing overlaps ----

  lemma {:induction false} SavedUnder(rows: Table, p: string, rules: seq<Rule>, id: string)
    ensures InTable(SaveAll(rows, p, rules), id) ==
              if RuleWith(rules, id).Some? then Some(Row(p, Persisted(RuleWith(rules, id).value))) else InTable(rows, id)
  {
    if rules != [] {
      SavedUnder(rows, p, rules[..|rules| - 1], id);
    }
  }

  function Tabled(rows: Table, todo: seq<Statement>): Table
    decreases |todo|
  {
    if todo == [] then rows else Tabled(RowsAfter(rows, todo[0]), todo[1..])
  }

  lemma {:induction false} TabledOnId(rows: Table, todo: seq<Statement>, id: string)
    ensures InTable(Tabled(rows, todo), id) == RunOn(todo, id, InTable(rows, id))
    decreases |todo|
  {
    if todo != [] {
      StatementOnId(rows, todo[0], id);
      TabledOnId(RowsAfter(rows, todo[0]), todo[1..], id);
    }
  }

  lemma SameTable(a: Table, b: Table)
    requires forall id :: InTable(a, id) == InTable(b, id)
    ensures a == b
  {
    forall id
      ensures id in a <==> id in b
      ensures id in a ==> a[id] == b[id]
    {
      assert InTable(a, id) == InTable(b, id);
    }
  }

  lemma ReloadTabled(rows: Table, p: string, rules: seq<Rule>, order: seq<string>)
    requires Listing(rows, p, order)
    ensures Tabled(rows, Deletes(order) + Saves(p, rules)) == SaveAll(rows - RowIds(rows, p), p, rules)
  {
    var todo := Deletes(order) + Saves(p, rules);
    forall id
      ensures InTable(Tabled(rows, todo), id) == InTable(SaveAll(rows - RowIds(rows, p), p, rules), id)
    {
      var row := InTable(rows, id);
      TabledOnId(rows, todo, id);
      RunOnJoin(Deletes(order), Saves(p, rules), id, row);
      RunDeletes(order, id, row);
      RunSaves(p, rules, id, RunOn(Deletes(order), id, row));
      SavedUnder(rows - RowIds(rows, p), p, rules, id);
      assert id in order <==> id in RowIds(rows, p);
    }
    SameTable(Tabled(rows, todo), SaveAll(rows - RowIds(rows, p), p, rules));
  }

  /** Executes what is left of a call, up to a listing. */
  function Finish(t: Texts, s: Run, k: nat): Run
    decreases if k in s.flight then |s.flight[k].todo| else 0
  {
    if k in s.flight && s.flight[k].todo != [] && !s.flight[k].todo[0].Load? then
      var s' := Next(t, s, Execute(k, []));
      assert TodoAfter(s.flight[k].todo, []) == s.flight[k].todo[1..];
      assert k in s'.flight ==> s'.flight[k].todo == s.flight[k].todo[1..];
      Finish(t, s', k)
    else s
  }

  lemma {:induction false} FinishRuns(t: Texts, s: Run, k: nat)
    requires k in s.flight && s.flight[k].todo != []
    requires forall i :: 0 <= i < |s.flight[k].todo| ==> !s.flight[k].todo[i].Load?
    ensures Finish(t, s, k) == Run(s.engines, Tabled(s.rows, s.flight[k].todo), s.flight - {k})
    decreases |s.flight[k].todo|
  {
    var todo := s.flight[k].todo;
    var s' := Next(t, s, Execute(k, []));
    assert s'.rows == RowsAfter(s.rows, todo[0]) && s'.engines == s.engines;
    if todo[1..] == [] {
      assert s'.flight == s.flight - {k};
      assert Finish(t, s', k) == s';
    } else {
      assert s'.flight == s.flight[k := s.flight[k].(todo := todo[1..])];
      FinishRuns(t, s', k);
      assert s'.flight - {k} == s.flight - {k};
    }
  }

  /** A call that nothing overlaps is one step of its own. */
  lemma CallAlone(t: Texts, s: Run, k: nat, c: Call, order: seq<string>)
    requires Enabled(s, Begin(k, c)) && (c.Reloaded? ==> Listing(s.rows, c.proxyId, order))
    ensures var begun := Next(t, s, Begin(k, c));
            var s' := Finish(t, if c.Reloaded? then Next(t, begun, Execute(k, order)) else begun, k);
            State(s'.engines, s'.rows) == RuleStore.Apply(t, State(s.engines, s.rows), c) && s'.flight == s.flight
  {
    var begun := Next(t, s, Begin(k, c));
    assert begun.flight - {k} == s.flight;
    if c.Reloaded? {
      var todo := Deletes(order) + Saves(c.proxyId, c.rules);
      var listed := Next(t, begun, Execute(k, order));
      ReloadTabled(s.rows, c.proxyId, c.rules, order);
      assert todo + [] == todo && TodoAfter(begun.flight[k].todo, order) == todo;
      if todo != [] {
        assert listed.flight - {k} == s.flight;
        FinishRuns(t, listed, k);
      }
    } else {
      FinishRuns(t, begun, k);
    }
  }

  // ---- Calls that keep apart ----

  /** A call begins only when no call in flight touches a rule id that it touches. */
  ghost predicate BeginsApart(home: string -> string, s: Run, step: Step) {
    step.Begin? && Enabled(s, step) ==>
      forall k, id :: k in s.flight && Touches(home, s.flight[k].call, id) ==> !Touches(home, step.call, id)
  }

  ghost predicate Apart(t: Texts, home: string -> string, proxies: set<string>, steps: seq<Step>) {
    forall i :: 0 <= i < |steps| ==> BeginsApart(home, Exec(t, proxies, steps[..i]), steps[i])
  }

  /** What is under an id once a call has run to its end. */
  function FinalOf(job: Job, id: string, row: Option<Row>): Option<Row> {
    if job.todo != [] && job.todo[0].Load? then Effect(job.call, id) else RunOn(job.todo, id, row)
  }

  lemma WorkLeaves(home: string -> string, c: Call, id: string, row: Option<Row>)
    requires Touches(home, c, id)
    ensures FinalOf(Job(c, Work(c)), id, row) == Effect(c, id)
  {
    if !c.Reloaded? {
      var st := Work(c)[0];
      assert Work(c) == [st] && [st][1..] == [];
      assert StatementTouches(st, id) && StatementEffect(st) == Effect(c, id);
      assert RunOn([], id, StatementEffect(st)) == StatementEffect(st);
    }
  }

  /** Memory and table agree on the id, or one call in flight will see to it. */
  ghost predicate Balanced(home: string -> string, flight: map<nat, Job>, id: string, inMemory: Option<Row>, inTable: Option<Row>) {
    && (forall k :: k in flight && Touches(home, flight[k].call, id) ==> FinalOf(flight[k], id, inTable) == inMemory)
    && (forall k, l :: k in flight && l in flight && Touches(home, flight[k].call, id) && Touches(home, flight[l].call, id) ==> k == l)
    && (inTable == inMemory || exists k :: k in flight && Touches(home, flight[k].call, id))
  }

  lemma BeginBalanced(home: string -> string, flight: map<nat, Job>, number: nat, c: Call, id: string,
                      inMemory: Option<Row>, inTable: Option<Row>)
    requires Balanced(home, flight, id, inMemory, inTable) && number !in flight
    requires forall k :: k in flight && Touches(home, flight[k].call, id) ==> !Touches(home, c, id)
    ensures Balanced(home, flight[number := Job(c, Work(c))], id, if Touches(home, c, id) then Effect(c, id) else inMemory, inTable)
  {
    var after := flight[number := Job(c, Work(c))];
    assert after[number].call == c && forall k :: k in flight ==> k in after && after[k] == flight[k];
    if Touches(home, c, id) {
      WorkLeaves(home, c, id, inTable);
    }
  }

  /** The next statement of a call brings it on its way. */
  lemma StatementLeads(home: string -> string, rows: Table, job: Job, order: seq<string>, id: string)
    requires JobOk(home, job) && RowsAtHome(home, rows)
    requires job.todo[0].Load? ==> Listing(rows, job.todo[0].proxyId, order)
    ensures Touches(home, job.call, id) ==>
              RunOn(TodoAfter(job.todo, order), id, InTable(RowsAfter(rows, job.todo[0]), id)) == FinalOf(job, id, InTable(rows, id))
    ensures !Touches(home, job.call, id) ==> InTable(RowsAfter(rows, job.todo[0]), id) == InTable(rows, id)
  {
    var st := job.todo[0];
    StatementOnId(rows, st, id);
    assert StatementAtHome(home, job.call, st);
    if st.Load? && Touches(home, job.call, id) {
      var todo := Deletes(order) + Saves(st.proxyId, st.rules);
      assert todo + [] == todo && TodoAfter(job.todo, order) == todo;
      ReloadLeaves(home, rows, st.proxyId, st.rules, order, id);
    }
  }

  lemma NoListingAhead(home: string -> string, job: Job, order: seq<string>)
    requires JobOk(home, job)
    ensures var todo := TodoAfter(job.todo, order); todo == [] || !todo[0].Load?
  {
    if |job.todo| > 1 {
      assert !job.todo[0].Load? && !job.todo[1].Load?;
    }
  }

  lemma ExecuteBalanced(home: string -> string, rows: Table, flight: map<nat, Job>, number: nat, order: seq<string>, id: string,
                        inMemory: Option<Row>)
    requires Balanced(home, flight, id, inMemory, InTable(rows, id)) && number in flight && JobsOk(home, flight) && RowsAtHome(home, rows)
    requires flight[number].todo[0].Load? ==> Listing(rows, flight[number].todo[0].proxyId, order)
    ensures Balanced(home, FlightAfter(flight, number, TodoAfter(flight[number].todo, order)), id, inMemory,
                     InTable(RowsAfter(rows, flight[number].todo[0]), id))
  {
    var job := flight[number];
    var todo := TodoAfter(job.todo, order);
    var row, row' := InTable(rows, id), InTable(RowsAfter(rows, job.todo[0]), id);
    StatementLeads(home, rows, job, order, id);
    NoListingAhead(home, job, order);
    if todo == [] {
      EndBalanced(home, flight, number, id, inMemory, row, row');
    } else {
      ChangeBalanced(home, flight, number, job.(todo := todo), id, inMemory, row, row');
    }
  }

  lemma EndBalanced(home: string -> string, flight: map<nat, Job>, number: nat, id: string,
                    inMemory: Option<Row>, inTable: Option<Row>, inTable': Option<Row>)
    requires Balanced(home, flight, id, inMemory, inTable) && number in flight
    requires if Touches(home, flight[number].call, id) then inTable' == inMemory else inTable' == inTable
    ensures Balanced(home, flight - {number}, id, inMemory, inTable')
  {
    var after := flight - {number};
    if k :| k in flight && Touches(home, flight[k].call, id) {
      assert k != number ==> k in after && after[k] == flight[k];
    }
  }

  lemma ChangeBalanced(home: string -> string, flight: map<nat, Job>, number: nat, job: Job, id: string,
                       inMemory: Option<Row>, inTable: Option<Row>, inTable': Option<Row>)
    requires Balanced(home, flight, id, inMemory, inTable) && number in flight && job.call == flight[number].call
    requires if Touches(home, job.call, id) then FinalOf(job, id, inTable') == inMemory else inTable' == inTable
    ensures Balanced(home, flight[number := job], id, inMemory, inTable')
  {
    var after := flight[number := job];
    assert forall k :: k in flight ==> k in after && after[k].call == flight[k].call;
    if k :| k in flight && Touches(home, flight[k].call, id) {
      assert k in after && Touches(home, after[k].call, id);
    }
  }

  ghost predicate Settled(home: string -> string, s: Run, id: string) {
    Balanced(home, s.flight, id, InMemory(s.engines, home, id), InTable(s.rows, id))
  }

  lemma NextSettled(t: Texts, home: string -> string, proxies: set<string>, s: Run, step: Step, id: string)
    requires RunOk(t, home, proxies, s) && Enabled(s, step) && StepAtHome(home, step) && BeginsApart(home, s, step)
    requires home(id) in proxies && GLOBAL !in proxies && Settled(home, s, id)
    ensures Settled(home, Next(t, s, step), id)
  {
    var inMemory := InMemory(s.engines, home, id);
    if step.Begin? {
      MemoryHalf(t, home, s.engines, step.call, id);
      BeginBalanced(home, s.flight, step.number, step.call, id, inMemory, InTable(s.rows, id));
    } else {
      ExecuteBalanced(home, s.rows, s.flight, step.number, step.order, id, inMemory);
    }
  }

  lemma {:induction false} AlwaysSettled(t: Texts, home: string -> string, proxies: set<string>, steps: seq<Step>, id: string)
    requires AtHome(home, steps) && Apart(t, home, proxies, steps) && home(id) in proxies && GLOBAL !in proxies
    ensures Settled(home, Exec(t, proxies, steps), id)
  {
    if steps != [] {
      var n := |steps| - 1;
      var s, step := Exec(t, proxies, steps[..n]), steps[n];
      forall i | 0 <= i < n
        ensures BeginsApart(home, Exec(t, proxies, steps[..n][..i]), steps[..n][i])
      {
        assert steps[..n][..i] == steps[..i];
        assert BeginsApart(home, Exec(t, proxies, steps[..i]), steps[i]);
      }
      AlwaysSettled(t, home, proxies, steps[..n], id);
      AlwaysRunOk(t, home, proxies, steps[..n]);
      assert StepAtHome(home, step) && BeginsApart(home, Exec(t, proxies, steps[..n]), step);
      if Enabled(s, step) {
        NextSettled(t, home, proxies, s, step, id);
      }
    }
  }

  /** If overlapping calls never touch the same rule id, memory and table agree
      whenever no call is under way. */
  lemma ApartIsConsistent(t: Texts, home: string -> string, proxies: set<string>, steps: seq<Step>)
    requires AtHome(home, steps) && Apart(t, home, proxies, steps) && GLOBAL !in proxies
    requires Exec(t, proxies, steps).flight == map[]
    ensures var s := Exec(t, proxies, steps); Consistent(t, State(s.engines, s.rows))
  {
    var s := Exec(t, proxies, steps);
    AlwaysRunOk(t, home, proxies, steps);
    ConsistentByIds(t, home, s.engines, s.rows);
    forall id | home(id) in proxies
      ensures InTable(s.rows, id) == InMemory(s.engines, home, id)
    {
      AlwaysSettled(t, home, proxies, steps, id);
    }
  }

  // ---- What goes wrong otherwise ----

  /** Two calls of one statement each, the second within the first. */
  lemma Nested(t: Texts, s: Run, c: Call, d: Call, a: nat, b: nat)
    requires s.flight == map[] && a != b && Loaded(s.engines, c) && !c.Reloaded? && !d.Reloaded?
    requires Loaded(EnginesAfter(t, s.engines, c), d)
    ensures Next(t, Next(t, Next(t, Next(t, s, Begin(a, c)), Begin(b, d)), Execute(b, [])), Execute(a, []))
         == Run(EnginesAfter(t, EnginesAfter(t, s.engines, c), d), RowsAfter(RowsAfter(s.rows, Work(d)[0]), Work(c)[0]), map[])
  {
    var one := Next(t, s, Begin(a, c));
    var two := Next(t, one, Begin(b, d));
    var three := Next(t, two, Execute(b, []));
    assert two.flight[a] == Job(c, Work(c)) && two.flight[b] == Job(d, Work(d));
    assert three.flight == map[a := Job(c, Work(c))];
  }

  /** A removal within an addition of the same rule leaves a row without a rule,
      which a restart brings back. */
  lemma OverlapBreaks(t: Texts, home: string -> string, proxies: set<string>, s: Run, rule: Rule, a: nat, b: nat)
    requires RunOk(t, home, proxies, s) && s.flight == map[] && a != b
    requires home(rule.id) in proxies && GLOBAL !in proxies
    ensures var p := home(rule.id);
            var begun := Next(t, Next(t, s, Begin(a, Added(p, rule))), Begin(b, Removed(p, rule.id)));
            var s' := Next(t, Next(t, begun, Execute(b, [])), Execute(a, []));
            && s'.flight == map[] && InMemory(s'.engines, home, rule.id) == None
            && InTable(s'.rows, rule.id) == Some(Row(p, Persisted(rule)))
            && !Consistent(t, State(s'.engines, s'.rows))
  {
    var p := home(rule.id);
    var c, d := Added(p, rule), Removed(p, rule.id);
    Nested(t, s, c, d, a, b);
    RowWithoutRule(t, home, proxies, s, rule);
  }

  lemma RowWithoutRule(t: Texts, home: string -> string, proxies: set<string>, s: Run, rule: Rule)
    requires RunOk(t, home, proxies, s) && home(rule.id) in proxies && GLOBAL !in proxies
    ensures var p := home(rule.id);
            var engines := EnginesAfter(t, EnginesAfter(t, s.engines, Added(p, rule)), Removed(p, rule.id));
            var rows := RowsAfter(RowsAfter(s.rows, Delete(rule.id)), Save(p, rule));
            InMemory(engines, home, rule.id) == None && !Consistent(t, State(engines, rows))
  {
    var p := home(rule.id);
    var one := EnginesAfter(t, s.engines, Added(p, rule));
    var two := EnginesAfter(t, one, Removed(p, rule.id));
    var rows := RowsAfter(RowsAfter(s.rows, Delete(rule.id)), Save(p, rule));
    MemoryTidy(t, home, s.engines, Added(p, rule));
    MemoryTidy(t, home, one, Removed(p, rule.id));
    MemoryHalf(t, home, one, Removed(p, rule.id), rule.id);
    assert RowsAtHome(home, rows);
    ConsistentByIds(t, home, two, rows);
    assert home(rule.id) in two && InTable(rows, rule.id).Some?;
  }

  /** Two reloads of one proxy, each with one rule, whose listings both come before
      either has saved anything. */
  lemma NestedReloads(t: Texts, s: Run, p: string, x: Rule, y: Rule, a: nat, b: nat)
    requires s.flight == map[] && a != b && p in s.engines && RowIds(s.rows, p) == {}
    ensures var begun := Next(t, Next(t, s, Begin(a, Reloaded(p, [x]))), Begin(b, Reloaded(p, [y])));
            var listed := Next(t, Next(t, begun, Execute(a, [])), Execute(b, []));
            var s' := Next(t, Next(t, listed, Execute(a, [])), Execute(b, []));
            s' == Run(s.engines[p := Build(t, [y])], s.rows[x.id := Row(p, Persisted(x))][y.id := Row(p, Persisted(y))], map[])
  {
    var c, d := Reloaded(p, [x]), Reloaded(p, [y]);
    var begun := Next(t, Next(t, s, Begin(a, c)), Begin(b, d));
    assert begun == Run(s.engines[p := Build(t, [y])], s.rows, map[a := Job(c, [Load(p, [x])]), b := Job(d, [Load(p, [y])])]);
    assert Listing(s.rows, p, []);
    ListedReload(t, begun, a, p, x);
    var one := Next(t, begun, Execute(a, []));
    ListedReload(t, one, b, p, y);
    var listed := Next(t, one, Execute(b, []));
    LastSave(t, listed, a, p, x);
    LastSave(t, Next(t, listed, Execute(a, [])), b, p, y);
    assert listed.flight - {a} - {b} == map[];
  }

  lemma LastSave(t: Texts, s: Run, k: nat, p: string, x: Rule)
    requires k in s.flight && s.flight[k].todo == [Save(p, x)]
    ensures Next(t, s, Execute(k, [])) == Run(s.engines, s.rows[x.id := Row(p, Persisted(x))], s.flight - {k})
  {
    assert TodoAfter([Save(p, x)], []) == [];
  }

  lemma ListedReload(t: Texts, s: Run, k: nat, p: string, x: Rule)
    requires k in s.flight && s.flight[k] == Job(Reloaded(p, [x]), [Load(p, [x])]) && Listing(s.rows, p, [])
    ensures Next(t, s, Execute(k, [])) == s.(flight := s.flight[k := Job(Reloaded(p, [x]), [Save(p, x)])])
  {
    assert TodoAfter([Load(p, [x])], []) == [Save(p, x)] by {
      assert Deletes([]) + Saves(p, [x]) + [Load(p, [x])][1..] == [Save(p, x)];
    }
  }

  /** They leave the rules of both in the table and those of one in memory. */
  lemma ReloadsOverlap(t: Texts, home: string -> string, proxies: set<string>, s: Run, p: string, x: Rule, y: Rule, a: nat, b: nat)
    requires RunOk(t, home, proxies, s) && s.flight == map[] && a != b && RowIds(s.rows, p) == {}
    requires p in proxies && GLOBAL !in proxies && home(x.id) == p && home(y.id) == p && x.id != y.id
    ensures var begun := Next(t, Next(t, s, Begin(a, Reloaded(p, [x]))), Begin(b, Reloaded(p, [y])));
            var listed := Next(t, Next(t, begun, Execute(a, [])), Execute(b, []));
            var s' := Next(t, Next(t, listed, Execute(a, [])), Execute(b, []));
            && s'.flight == map[] && InTable(s'.rows, x.id).Some? && InMemory(s'.engines, home, x.id) == None
            && !Consistent(t, State(s'.engines, s'.rows))
  {
    NestedReloads(t, s, p, x, y, a, b);
    var engines := s.engines[p := Build(t, [y])];
    var rows := s.rows[x.id := Row(p, Persisted(x))][y.id := Row(p, Persisted(y))];
    MemoryTidy(t, home, s.engines, Reloaded(p, [y]));
    MemoryHalf(t, home, s.engines, Reloaded(p, [y]), x.id);
    assert RuleWith([y], x.id) == None;
    assert engines == EnginesAfter(t, s.engines, Reloaded(p, [y])) && RowsAtHome(home, rows);
    ConsistentByIds(t, home, engines, rows);
    assert home(x.id) in engines && InTable(rows, x.id).Some?;
  }
}
