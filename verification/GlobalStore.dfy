/**
 Global rules and their rows: a permanent rule is written to the table and read
 back at the next start, a temporary one is not.
 */
module GlobalStore {
  import opened Options
  import opened Matching
  import opened RuleEngine
  import opened RuleStore
  import opened RuleRuns
  import GlobalRules

  type GlobalRule = GlobalRules.GlobalRule

  /** `rules` is history: the rule that the engine holds under each id. */
  datatype Store = Store(core: GlobalRules.State, rows: Table, rules: map<string, GlobalRule>)

  function RowOf(g: GlobalRule): Row {
    Row(GLOBAL, Persisted(g.AsRule()))
  }

  function Add(t: Texts, s: Store, g: GlobalRule): Store {
    Store(GlobalRules.Add(t, s.core, g), if g.Temporary() then s.rows else s.rows[g.id := RowOf(g)], s.rules[g.id := g])
  }

  function Remove(t: Texts, s: Store, id: string): Store {
    Store(GlobalRules.Remove(t, s.core, id), s.rows - {id}, s.rules - {id})
  }

  function Sweep(t: Texts, s: Store, now: int): Store {
    Store(GlobalRules.Sweep(t, s.core, now), s.rows, s.rules - GlobalRules.Expired(s.core.deadlines, now))
  }

  // ---- The engine by ids ----

  /** One home for all ids. */
  function Anywhere(): string -> string {
    id => GLOBAL
  }

  ghost predicate InStep(t: Texts, s: Store) {
    && GlobalRules.Sound(t, s.core) && Tidy(t, Anywhere(), GLOBAL, s.core.matchers)
    && (forall id :: id in s.rules ==> s.rules[id].id == id)
    && (forall id :: Find(s.core.matchers, id) == if id in s.rules then Some(s.rules[id].AsRule()) else None)
  }

  lemma {:induction false} WithoutFind(ms: seq<Matcher>, ids: set<string>, id: string)
    ensures Find(Without(ms, ids), id) == if id in ids then None else Find(ms, id)
  {
    if ms != [] {
      WithoutFind(ms[1..], ids, id);
      var rest := Without(ms[1..], ids);
      assert ([ms[0]] + rest)[1..] == rest;
    }
  }

  lemma WithoutTidy(t: Texts, ms: seq<Matcher>, ids: set<string>)
    requires Tidy(t, Anywhere(), GLOBAL, ms)
    ensures Tidy(t, Anywhere(), GLOBAL, Without(ms, ids))
  {
    WithoutKeeps(t, ms, ids);
    WithoutDistinct(ms, ids);
  }

  lemma AddInStep(t: Texts, s: Store, g: GlobalRule)
    requires InStep(t, s)
    ensures InStep(t, Add(t, s, g))
  {
    GlobalRules.AddIsSound(t, s.core, g);
    AddedTidy(t, Anywhere(), GLOBAL, s.core.matchers, g.AsRule());
    forall id
      ensures Find(AddTo(t, s.core.matchers, g.AsRule()), id) == if id == g.id then Some(g.AsRule()) else Find(s.core.matchers, id)
    {
      AddedFind(t, Anywhere(), GLOBAL, s.core.matchers, g.AsRule(), id);
    }
  }

  lemma RemoveInStep(t: Texts, s: Store, id: string)
    requires InStep(t, s)
    ensures InStep(t, Remove(t, s, id))
  {
    GlobalRules.RemoveIsSound(t, s.core, id);
    RemovedTidy(t, Anywhere(), GLOBAL, s.core.matchers, id);
    forall x
      ensures Find(RemoveFrom(t, s.core.matchers, {id}), x) == if x == id then None else Find(s.core.matchers, x)
    {
      RemovedFind(t, Anywhere(), GLOBAL, s.core.matchers, id, x);
    }
  }

  lemma SweepInStep(t: Texts, s: Store, now: int)
    requires InStep(t, s)
    ensures InStep(t, Sweep(t, s, now))
  {
    var expired := GlobalRules.Expired(s.core.deadlines, now);
    GlobalRules.SweepIsExact(t, s.core, now, Query(V4(0), None));
    WithoutTidy(t, s.core.matchers, expired);
    forall id
      ensures Find(Without(s.core.matchers, expired), id) == if id in expired then None else Find(s.core.matchers, id)
    {
      WithoutFind(s.core.matchers, expired, id);
    }
  }

  // ---- Agreement of the rows with the permanent rules ----

  function GlobalRow(rows: Table, id: string): Option<Row> {
    if id in rows && rows[id].proxyId == GLOBAL then Some(rows[id]) else None
  }

  predicate Lasting(s: Store, id: string) {
    id in s.rules && !s.rules[id].Temporary()
  }

  predicate AgreesAt(s: Store, id: string) {
    GlobalRow(s.rows, id) == if Lasting(s, id) then Some(RowOf(s.rules[id])) else None
  }

  /** The rows of the global rules are the permanent rules of the engine. */
  ghost predicate Agrees(s: Store) {
    forall id :: AgreesAt(s, id)
  }

  /** An addition keeps this exactly unless it is a temporary one over a permanent
      rule, whose row it leaves. */
  lemma AddAgreesIff(t: Texts, s: Store, g: GlobalRule)
    requires Agrees(s)
    ensures Agrees(Add(t, s, g)) <==> !(g.Temporary() && Lasting(s, g.id))
  {
    var s' := Add(t, s, g);
    assert AgreesAt(s, g.id);
    assert AgreesAt(s', g.id) <==> !(g.Temporary() && Lasting(s, g.id));
    forall id | id != g.id
      ensures AgreesAt(s', id)
    {
      assert AgreesAt(s, id);
    }
  }

  lemma RemoveAgrees(t: Texts, s: Store, id: string)
    requires Agrees(s)
    ensures Agrees(Remove(t, s, id))
  {
    var s' := Remove(t, s, id);
    forall x
      ensures AgreesAt(s', x)
    {
      assert AgreesAt(s, x);
    }
  }

  /** A sweep keeps it exactly when it takes no permanent rule, which it does if the
      rule was temporary before: it leaves the row. */
  lemma SweepAgreesIff(t: Texts, s: Store, now: int)
    requires Agrees(s)
    ensures Agrees(Sweep(t, s, now)) <==> forall id :: id in GlobalRules.Expired(s.core.deadlines, now) ==> !Lasting(s, id)
  {
    var s', expired := Sweep(t, s, now), GlobalRules.Expired(s.core.deadlines, now);
    forall id
      ensures AgreesAt(s', id) <==> !(id in expired && Lasting(s, id))
    {
      assert AgreesAt(s, id);
    }
  }

  // ---- Runs of calls ----

  datatype GlobalCall = Put(rule: GlobalRule) | Take(id: string) | Swept(now: int)

  function Perform(t: Texts, s: Store, call: GlobalCall): Store {
    match call
    case Put(g) => Add(t, s, g)
    case Take(id) => Remove(t, s, id)
    case Swept(now) => Sweep(t, s, now)
  }

  function After(t: Texts, calls: seq<GlobalCall>): Store {
    if calls == [] then Store(GlobalRules.State([], map[]), map[], map[])
    else Perform(t, After(t, calls[..|calls| - 1]), calls[|calls| - 1])
  }

  /** Every id is used for permanent rules only, or for temporary ones only. */
  ghost predicate KeepsKind(lasting: string -> bool, call: GlobalCall) {
    call.Put? ==> (lasting(call.rule.id) <==> !call.rule.Temporary())
  }

  ghost predicate OfKind(lasting: string -> bool, s: Store) {
    && (forall id :: id in s.rules ==> (lasting(id) <==> !s.rules[id].Temporary()))
    && (forall id :: id in s.core.deadlines ==> !lasting(id))
  }

  /** Then the rows are the permanent rules after any calls. */
  lemma {:induction false} AlwaysAgrees(t: Texts, lasting: string -> bool, calls: seq<GlobalCall>)
    requires forall i :: 0 <= i < |calls| ==> KeepsKind(lasting, calls[i])
    ensures var s := After(t, calls); InStep(t, s) && Agrees(s) && OfKind(lasting, s)
  {
    if calls != [] {
      var n := |calls| - 1;
      var s := After(t, calls[..n]);
      AlwaysAgrees(t, lasting, calls[..n]);
      assert KeepsKind(lasting, calls[n]);
      match calls[n]
      case Put(g) =>
        AddInStep(t, s, g);
        AddAgreesIff(t, s, g);
      case Take(id) =>
        RemoveInStep(t, s, id);
        RemoveAgrees(t, s, id);
      case Swept(now) =>
        SweepInStep(t, s, now);
        SweepAgreesIff(t, s, now);
    }
  }

  // ---- Which runs leave rows behind ----

  /** The addition that wrote the row of an id, if no removal followed. */
  function LastWrite(calls: seq<GlobalCall>, id: string): (p: Option<nat>)
    ensures p.Some? ==> p.value < |calls| && calls[p.value].Put?
  {
    if calls == [] then None else
      var n := |calls| - 1;
      if calls[n].Put? && calls[n].rule.id == id && !calls[n].rule.Temporary() then Some(n)
      else if calls[n].Take? && calls[n].id == id then None
      else LastWrite(calls[..n], id)
  }

  /** A call that ends a rule and leaves its row: a temporary addition over it, or a
      sweep to which a deadline of its id is past. */
  predicate Undoes(t: Texts, calls: seq<GlobalCall>, i: nat, id: string)
    requires i < |calls|
  {
    match calls[i]
    case Put(g) => g.id == id && g.Temporary()
    case Take(_) => false
    case Swept(now) => id in GlobalRules.Expired(After(t, calls[..i]).core.deadlines, now)
  }

  predicate UndoneSince(t: Texts, calls: seq<GlobalCall>, p: nat, id: string) {
    exists i :: p < i < |calls| && Undoes(t, calls, i, id)
  }

  lemma UndoneSinceMore(t: Texts, calls: seq<GlobalCall>, p: nat, id: string)
    requires p < |calls| - 1
    ensures var n := |calls| - 1; UndoneSince(t, calls, p, id) <==> UndoneSince(t, calls[..n], p, id) || Undoes(t, calls, n, id)
  {
    var n := |calls| - 1;
    assert forall i :: 0 <= i < n ==> calls[..n][i] == calls[i] && calls[..n][..i] == calls[..i];
    if i :| p < i < |calls| && Undoes(t, calls, i, id) {
      assert i < n ==> Undoes(t, calls[..n], i, id);
    }
    if i :| p < i < n && Undoes(t, calls[..n], i, id) {
      assert Undoes(t, calls, i, id);
    }
  }

  ghost predicate Traced(t: Texts, calls: seq<GlobalCall>, id: string) {
    var s, p := After(t, calls), LastWrite(calls, id);
    if p.None? then GlobalRow(s.rows, id) == None && !Lasting(s, id)
    else
      var g := calls[p.value].rule;
      && GlobalRow(s.rows, id) == Some(RowOf(g))
      && (Lasting(s, id) <==> !UndoneSince(t, calls, p.value, id))
      && (Lasting(s, id) ==> s.rules[id] == g)
  }

  /** A call that neither writes the row nor removes the rule. */
  predicate Passes(call: GlobalCall, id: string) {
    match call
    case Put(g) => g.id != id || g.Temporary()
    case Take(x) => x != id
    case Swept(_) => true
  }

  lemma PassedOver(t: Texts, calls: seq<GlobalCall>, id: string)
    requires calls != [] && Passes(calls[|calls| - 1], id)
    ensures var n := |calls| - 1;
            var s, s' := After(t, calls[..n]), After(t, calls);
            && GlobalRow(s'.rows, id) == GlobalRow(s.rows, id)
            && (Lasting(s', id) <==> Lasting(s, id) && !Undoes(t, calls, n, id))
            && (Lasting(s', id) ==> s'.rules[id] == s.rules[id])
  {
  }

  /** Row and rule of an id, from the calls. */
  lemma {:induction false} AlwaysTraced(t: Texts, calls: seq<GlobalCall>, id: string)
    ensures Traced(t, calls, id)
  {
    if calls != [] && Passes(calls[|calls| - 1], id) {
      var n := |calls| - 1;
      var p := LastWrite(calls, id);
      AlwaysTraced(t, calls[..n], id);
      PassedOver(t, calls, id);
      if p.Some? {
        assert p == LastWrite(calls[..n], id) && calls[..n][p.value] == calls[p.value];
        UndoneSinceMore(t, calls, p.value, id);
      }
    }
  }

  /** A rule of this id was undone since the addition that wrote its row. */
  predicate LeftBehind(t: Texts, calls: seq<GlobalCall>, id: string) {
    LastWrite(calls, id).Some? && UndoneSince(t, calls, LastWrite(calls, id).value, id)
  }

  /** After any calls the rows are the permanent rules exactly when no row is left
      behind. */
  lemma AgreesIff(t: Texts, calls: seq<GlobalCall>)
    ensures Agrees(After(t, calls)) <==> forall id :: !LeftBehind(t, calls, id)
  {
    var s := After(t, calls);
    forall id
      ensures AgreesAt(s, id) <==> !LeftBehind(t, calls, id)
    {
      AlwaysTraced(t, calls, id);
    }
  }

  // ---- What a start brings back otherwise ----

  /** A temporary rule over a permanent one: the engine holds the new rule, the table
      still the old one. */
  lemma ReplacedComesBack(t: Texts, s: Store, g: GlobalRule, h: GlobalRule)
    requires InStep(t, s) && !g.Temporary() && h.Temporary() && g.id == h.id
    ensures var s' := Add(t, Add(t, s, g), h);
            Find(s'.core.matchers, g.id) == Some(h.AsRule()) && GlobalRow(s'.rows, g.id) == Some(RowOf(g)) && !Agrees(s')
  {
    AddInStep(t, s, g);
    AddInStep(t, Add(t, s, g), h);
    assert !AgreesAt(Add(t, Add(t, s, g), h), g.id);
  }

  /** A rule made permanent and swept by its older deadline: the engine has none, the
      table still holds it. */
  lemma SweptComesBack(t: Texts, s: Store, g: GlobalRule, h: GlobalRule, now: int)
    requires InStep(t, s) && g.Temporary() && !h.Temporary() && g.id == h.id && g.expiresAt.value < now
    ensures var s' := Sweep(t, Add(t, Add(t, s, g), h), now);
            Find(s'.core.matchers, g.id) == None && GlobalRow(s'.rows, g.id) == Some(RowOf(h)) && !Agrees(s')
  {
    AddInStep(t, s, g);
    AddInStep(t, Add(t, s, g), h);
    var two := Add(t, Add(t, s, g), h);
    assert g.id in GlobalRules.Expired(two.core.deadlines, now);
    SweepInStep(t, two, now);
    assert !AgreesAt(Sweep(t, two, now), g.id);
  }

  // ---- After a restart ----

  function TemporaryIds(s: Store): set<string> {
    set id | id in s.rules && s.rules[id].Temporary()
  }

  /** The engine without its temporary rules. */
  function LastingEngine(s: Store): seq<Matcher> {
    Without(s.core.matchers, TemporaryIds(s))
  }

  lemma LastingIsMirrored(t: Texts, s: Store)
    requires InStep(t, s) && Agrees(s)
    ensures EngineOk(t, s.rows, GLOBAL, LastingEngine(s))
  {
    var ms := LastingEngine(s);
    WithoutTidy(t, s.core.matchers, TemporaryIds(s));
    forall m | m in ms
      ensures m.rule.id in s.rows && s.rows[m.rule.id] == Row(GLOBAL, Persisted(m.rule))
    {
      MemberIsFound(ms, m);
      WithoutFind(s.core.matchers, TemporaryIds(s), m.rule.id);
      assert AgreesAt(s, m.rule.id) && Lasting(s, m.rule.id);
    }
    forall id | id in s.rows && s.rows[id].proxyId == GLOBAL
      ensures exists m :: m in ms && m.rule.id == id
    {
      assert AgreesAt(s, id) && Lasting(s, id);
      WithoutFind(s.core.matchers, TemporaryIds(s), id);
      FindIsMember(ms, id);
    }
  }

  /** Where rows and permanent rules agree, an engine rebuilt from the rows decides
      as the old one did without its temporary rules; and that is as the old one
      did, wherever no temporary rule had decided. */
  lemma RestartKeepsLasting(t: Texts, s: Store, rules: seq<Rule>, q: Query)
    requires InStep(t, s) && Agrees(s) && Lists(s.rows, GLOBAL, rules)
    ensures var verdict, before, after := FirstMatch(t, s.core.matchers, q), FirstMatch(t, LastingEngine(s), q), FirstMatch(t, Build(t, rules), q);
            && (before.None? <==> after.None?)
            && (before.Some? && Untied(t, LastingEngine(s), q) ==> SameButLimit(after.value, before.value))
            && (verdict.None? || verdict.value.id !in TemporaryIds(s) ==> before == verdict)
  {
    LastingIsMirrored(t, s);
    RestartKeepsVerdicts(t, s.rows, GLOBAL, LastingEngine(s), rules, q);
    RemovalFrame(t, s.core.matchers, TemporaryIds(s), q);
  }
}
