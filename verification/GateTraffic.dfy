/**
 Traffic accounting across the two services: what a cache entry reports is what
 the statistics service counted for every connection ever attached to the entry.
 */
module GateTraffic {
  import opened Tallies
  import opened DecisionCache
  import opened Gate
  import Stats

  // ---- Registration ----

  /** The connection holds a place in the list of active connections. */
  predicate OnBooks(p: Phase) {
    p.Registered? || p.Serving?
  }

  predicate EverOnBooks(p: Phase) {
    OnBooks(p) || p.Closing? || p.Ended?
  }

  ghost predicate BooksAt(stats: Stats.State, number: map<string, nat>, conns: map<string, Conn>, conn: string) {
    && (conn in stats.active <==> conn in conns && OnBooks(conns[conn].phase))
    && (conn in number <==> conn in conns && EverOnBooks(conns[conn].phase))
    && (conn in stats.active ==> conn in number && stats.active[conn] == number[conn])
    && (conn in number ==> number[conn] < |stats.records|)
  }

  ghost predicate NumbersDiffer(number: map<string, nat>) {
    forall a, b :: a in number && b in number && a != b ==> number[a] != number[b]
  }

  ghost predicate BooksOk(stats: Stats.State, number: map<string, nat>, conns: map<string, Conn>) {
    NumbersDiffer(number) && forall conn :: BooksAt(stats, number, conns, conn)
  }

  function NumberAfter(s: State, step: Step): map<string, nat> {
    if step.Register? then s.number[step.conn := |s.stats.records|] else s.number
  }

  lemma NextKeepsBook(s: State, step: Step, conn: string)
    requires BooksAt(s.stats, s.number, s.conns, conn) && Enabled(s, step)
    ensures BooksAt(StatsAfter(s, step), NumberAfter(s, step), ConnsAfter(s, step), conn)
  {
  }

  lemma NextKeepsBooks(s: State, step: Step)
    requires BooksOk(s.stats, s.number, s.conns) && Enabled(s, step)
    ensures BooksOk(StatsAfter(s, step), NumberAfter(s, step), ConnsAfter(s, step))
  {
    forall conn
      ensures BooksAt(StatsAfter(s, step), NumberAfter(s, step), ConnsAfter(s, step), conn)
    {
      assert BooksAt(s.stats, s.number, s.conns, conn);
      NextKeepsBook(s, step, conn);
    }
    if step.Register? {
      assert forall conn :: conn in s.number ==> BooksAt(s.stats, s.number, s.conns, conn);
    }
  }

  // ---- Traffic of one connection ----

  /** Only a transfer on a connection changes its traffic, and only while it is on the books. */
  lemma TrafficFrame(s: State, step: Step, conn: string)
    requires BooksOk(s.stats, s.number, s.conns) && Enabled(s, step)
    ensures var before := Traffic(s.stats, s.number, conn);
            Traffic(StatsAfter(s, step), NumberAfter(s, step), conn) ==
              if step.Transfer? && step.conn == conn then before.Plus(Bytes(step.bytesIn, step.bytesOut)) else before
  {
    assert BooksAt(s.stats, s.number, s.conns, conn);
    if step.Transfer? {
      assert BooksAt(s.stats, s.number, s.conns, step.conn);
    }
  }

  // ---- Entries ----

  ghost function TrafficOf(stats: Stats.State, number: map<string, nat>, conns: set<string>): map<string, Tally> {
    map conn | conn in conns :: Traffic(stats, number, conn)
  }

  /** What a listing shows for the entry: ended connections plus the counters of live ones. */
  ghost function Reported(e: Entry<nat>, stats: Stats.State): Tally {
    e.closed.Plus(Sum(LiveTraffic(e, stats)))
  }

  ghost function LiveTraffic(e: Entry<nat>, stats: Stats.State): map<string, Tally> {
    map conn | conn in e.live :: if e.live[conn] < |stats.records| then stats.records[e.live[conn]].traffic else ZERO
  }

  /** An attached connection is live in the entry until it has ended. */
  ghost predicate AttachedAt(e: Entry<nat>, key: string, conns: map<string, Conn>, number: map<string, nat>, conn: string) {
    && conn in conns && conn in number && BuildKey(conns[conn].ip, conns[conn].rule) == key
    && (conn in e.live ==> (conns[conn].phase.Serving? || conns[conn].phase.Closing?) && e.live[conn] == number[conn])
    && (conn !in e.live ==> conns[conn].phase.Ended?)
  }

  ghost predicate LiveOk(e: Entry<nat>, attached: set<string>, key: string, conns: map<string, Conn>, number: map<string, nat>) {
    && |e.live| <= MAX_CONN_IDS_PER_APPROVAL
    && e.live.Keys <= attached
    && (forall conn :: conn in attached ==> AttachedAt(e, key, conns, number, conn))
  }

  /** The four things a step can do to an entry that is there afterwards. */
  datatype Change = Same | Fresh | Joined(conn: string) | Left(conn: string)

  ghost predicate Changes(s: State, step: Step, key: string, change: Change)
    requires Enabled(s, step) && key in CacheAfter(s, step)
  {
    var e' := CacheAfter(s, step)[key];
    match change
    case Fresh =>
      && step.StoreRuling? && e'.live == map[] && e'.closed == ZERO
      && key in AttachedAfter(s, step) && AttachedAfter(s, step)[key] == {}
    case Same =>
      && key in s.cache && e' == s.cache[key]
      && (key in s.attached ==> key in AttachedAfter(s, step) && AttachedAfter(s, step)[key] == s.attached[key])
      && !(step.RemoveConnId? && KeyOf(s, step.conn) == key && step.conn in s.cache[key].live)
    case Joined(conn) =>
      && step == SetConnId(conn) && KeyOf(s, conn) == key
      && key in s.cache && |s.cache[key].live| < MAX_CONN_IDS_PER_APPROVAL
      && e' == s.cache[key].(live := s.cache[key].live[conn := s.number[conn]])
      && (key in s.attached ==> key in AttachedAfter(s, step) && AttachedAfter(s, step)[key] == s.attached[key] + {conn})
    case Left(conn) =>
      && step == RemoveConnId(conn) && KeyOf(s, conn) == key
      && key in s.cache && conn in s.cache[key].live
      && e' == s.cache[key].(live := s.cache[key].live - {conn}, closed := s.cache[key].closed.Plus(Traffic(s.stats, s.number, conn)))
      && (key in s.attached ==> key in AttachedAfter(s, step) && AttachedAfter(s, step)[key] == s.attached[key])
  }

  lemma HowEntryChanges(s: State, step: Step, key: string) returns (change: Change)
    requires Enabled(s, step) && key in CacheAfter(s, step)
    ensures Changes(s, step, key, change)
  {
    if step.StoreRuling? && key == BuildKey(s.desk.rulings[step.req].ip, s.desk.rulings[step.req].rule) {
      change := Fresh;
    } else if step.SetConnId? && Attaches(s, step) && KeyOf(s, step.conn) == key {
      change := Joined(step.conn);
    } else if step.RemoveConnId? && KeyOf(s, step.conn) == key && step.conn in s.cache[key].live {
      change := Left(step.conn);
    } else {
      change := Same;
    }
  }

  /** How a connection goes on once it is registered. */
  lemma LatePhases(s: State, step: Step, conn: string)
    requires Enabled(s, step) && conn in s.conns
    ensures conn in ConnsAfter(s, step)
    ensures var c, c' := s.conns[conn], ConnsAfter(s, step)[conn];
            && c'.ip == c.ip && c'.rule == c.rule && c'.action == c.action
            && (c.phase.Registered? ==> c'.phase == c.phase || (step == SetConnId(conn) && c'.phase.Serving?))
            && (c.phase.Serving? ==> c'.phase.Serving? || c'.phase.Closing?)
            && (c.phase.Closing? ==> c'.phase.Closing? || (step == RemoveConnId(conn) && c'.phase.Ended?))
            && (c.phase.Ended? ==> c'.phase.Ended?)
            && (step == SetConnId(conn) ==> c.phase.Registered? && c'.phase.Serving?)
            && (step == RemoveConnId(conn) ==> c.phase.Closing? && c'.phase.Ended?)
  {
  }

  lemma NextKeepsAttached(s: State, step: Step, key: string, change: Change, conn: string)
    requires BooksOk(s.stats, s.number, s.conns) && Enabled(s, step)
    requires key in CacheAfter(s, step) && Changes(s, step, key, change) && !change.Fresh?
    requires key in s.attached && conn in AttachedAfter(s, step)[key]
    requires conn in s.attached[key] ==> AttachedAt(s.cache[key], key, s.conns, s.number, conn)
    ensures AttachedAt(CacheAfter(s, step)[key], key, ConnsAfter(s, step), NumberAfter(s, step), conn)
  {
    assert conn in s.conns && conn in s.number;
    LatePhases(s, step, conn);
    assert NumberAfter(s, step)[conn] == s.number[conn] by {
      assert BooksAt(s.stats, s.number, s.conns, conn);
    }
  }

  lemma NextKeepsLive(s: State, step: Step, key: string, change: Change)
    requires BooksOk(s.stats, s.number, s.conns) && Enabled(s, step)
    requires key in CacheAfter(s, step) && Changes(s, step, key, change)
    requires key in s.cache ==> key in s.attached && LiveOk(s.cache[key], s.attached[key], key, s.conns, s.number)
    ensures key in AttachedAfter(s, step)
    ensures LiveOk(CacheAfter(s, step)[key], AttachedAfter(s, step)[key], key, ConnsAfter(s, step), NumberAfter(s, step))
  {
    if !change.Fresh? {
      forall conn | conn in AttachedAfter(s, step)[key]
        ensures AttachedAt(CacheAfter(s, step)[key], key, ConnsAfter(s, step), NumberAfter(s, step), conn)
      {
        NextKeepsAttached(s, step, key, change, conn);
      }
    }
  }

  // ---- Conservation ----

  lemma ReportedByConnection(e: Entry<nat>, attached: set<string>, key: string, s: State)
    requires LiveOk(e, attached, key, s.conns, s.number)
    ensures Reported(e, s.stats) == e.closed.Plus(Sum(TrafficOf(s.stats, s.number, e.live.Keys)))
  {
    assert LiveTraffic(e, s.stats) == TrafficOf(s.stats, s.number, e.live.Keys) by {
      assert forall conn :: conn in e.live ==> AttachedAt(e, key, s.conns, s.number, conn);
    }
  }

  lemma TrafficOfNext(s: State, step: Step, conns: set<string>)
    requires BooksOk(s.stats, s.number, s.conns) && Enabled(s, step)
    ensures var before, after := TrafficOf(s.stats, s.number, conns), TrafficOf(StatsAfter(s, step), NumberAfter(s, step), conns);
            && (step.Transfer? && step.conn in conns ==> after == Bump(before, step.conn, Bytes(step.bytesIn, step.bytesOut)))
            && (!(step.Transfer? && step.conn in conns) ==> after == before)
  {
    forall conn | conn in conns
      ensures var before := Traffic(s.stats, s.number, conn);
              Traffic(StatsAfter(s, step), NumberAfter(s, step), conn) ==
                if step.Transfer? && step.conn == conn then before.Plus(Bytes(step.bytesIn, step.bytesOut)) else before
    {
      TrafficFrame(s, step, conn);
    }
  }

  /** A step changes the traffic of a set of connections by what it transfers. */
  lemma SetTrafficFrame(s: State, step: Step, conns: set<string>)
    requires BooksOk(s.stats, s.number, s.conns) && Enabled(s, step)
    ensures var before, after := Sum(TrafficOf(s.stats, s.number, conns)), Sum(TrafficOf(StatsAfter(s, step), NumberAfter(s, step), conns));
            && (step.Transfer? && step.conn in conns ==> after == before.Plus(Bytes(step.bytesIn, step.bytesOut)))
            && (!(step.Transfer? && step.conn in conns) ==> after == before)
  {
    TrafficOfNext(s, step, conns);
    if step.Transfer? && step.conn in conns {
      SumBump(TrafficOf(s.stats, s.number, conns), step.conn, Bytes(step.bytesIn, step.bytesOut));
    }
  }

  lemma TrafficOfOneMore(stats: Stats.State, number: map<string, nat>, conns: set<string>, conn: string)
    ensures TrafficOf(stats, number, conns + {conn}) == TrafficOf(stats, number, conns)[conn := Traffic(stats, number, conn)]
  {
  }

  lemma SumOfOneMore(stats: Stats.State, number: map<string, nat>, conns: set<string>, conn: string)
    requires conn !in conns
    ensures Sum(TrafficOf(stats, number, conns + {conn})) == Sum(TrafficOf(stats, number, conns)).Plus(Traffic(stats, number, conn))
  {
    TrafficOfOneMore(stats, number, conns, conn);
    SumInsert(TrafficOf(stats, number, conns), conn, Traffic(stats, number, conn));
  }

  /** The report, by connection: closed traffic plus that of the live set equals that of the attached set. */
  ghost predicate Conserved(e: Entry<nat>, attached: set<string>, stats: Stats.State, number: map<string, nat>) {
    e.closed.Plus(Sum(TrafficOf(stats, number, e.live.Keys))) == Sum(TrafficOf(stats, number, attached))
  }

  lemma JoiningConserves(e: Entry<nat>, attached: set<string>, stats: Stats.State, number: map<string, nat>, conn: string, n: nat)
    requires Conserved(e, attached, stats, number) && conn !in attached && conn !in e.live
    ensures Conserved(e.(live := e.live[conn := n]), attached + {conn}, stats, number)
  {
    var e' := e.(live := e.live[conn := n]);
    var t, live := Traffic(stats, number, conn), Sum(TrafficOf(stats, number, e.live.Keys));
    assert Sum(TrafficOf(stats, number, e'.live.Keys)) == live.Plus(t) by {
      assert e'.live.Keys == e.live.Keys + {conn};
      SumOfOneMore(stats, number, e.live.Keys, conn);
    }
    assert Sum(TrafficOf(stats, number, attached + {conn})) == e.closed.Plus(live).Plus(t) by {
      SumOfOneMore(stats, number, attached, conn);
    }
    Regroup(e.closed, live, t);
  }

  lemma LeavingConserves(e: Entry<nat>, attached: set<string>, stats: Stats.State, number: map<string, nat>, conn: string)
    requires Conserved(e, attached, stats, number) && conn in e.live
    ensures Conserved(e.(live := e.live - {conn}, closed := e.closed.Plus(Traffic(stats, number, conn))), attached, stats, number)
  {
    var e' := e.(live := e.live - {conn}, closed := e.closed.Plus(Traffic(stats, number, conn)));
    var t, live' := Traffic(stats, number, conn), Sum(TrafficOf(stats, number, e'.live.Keys));
    assert Sum(TrafficOf(stats, number, e.live.Keys)) == live'.Plus(t) by {
      assert e.live.Keys == e'.live.Keys + {conn};
      SumOfOneMore(stats, number, e'.live.Keys, conn);
    }
    Regroup(e.closed, live', t);
  }

  lemma TransferConserves(s: State, step: Step, e: Entry<nat>, attached: set<string>)
    requires BooksOk(s.stats, s.number, s.conns) && Enabled(s, step)
    requires Conserved(e, attached, s.stats, s.number)
    requires attached <= s.number.Keys && e.live.Keys <= attached
    requires step.Transfer? && step.conn in attached ==> step.conn in e.live
    ensures Conserved(e, attached, StatsAfter(s, step), NumberAfter(s, step))
  {
    SetTrafficFrame(s, step, attached);
    SetTrafficFrame(s, step, e.live.Keys);
    if step.Transfer? && step.conn in attached {
      Regroup(e.closed, Sum(TrafficOf(s.stats, s.number, e.live.Keys)), Bytes(step.bytesIn, step.bytesOut));
    }
  }

  lemma NextConserves(s: State, step: Step, key: string, change: Change)
    requires BooksOk(s.stats, s.number, s.conns) && Enabled(s, step)
    requires key in CacheAfter(s, step) && Changes(s, step, key, change) && !change.Fresh?
    requires key in s.cache && key in s.attached && LiveOk(s.cache[key], s.attached[key], key, s.conns, s.number)
    requires Conserved(s.cache[key], s.attached[key], s.stats, s.number)
    ensures Conserved(CacheAfter(s, step)[key], AttachedAfter(s, step)[key], StatsAfter(s, step), NumberAfter(s, step))
  {
    var e, attached := s.cache[key], s.attached[key];
    assert forall conn :: conn in attached ==> AttachedAt(e, key, s.conns, s.number, conn);
    match change
    case Same => TransferConserves(s, step, e, attached);
    case Joined(conn) => JoiningConserves(e, attached, s.stats, s.number, conn, s.number[conn]);
    case Left(conn) => LeavingConserves(e, attached, s.stats, s.number, conn);
  }

  lemma FreshIsConserved(e: Entry<nat>, stats: Stats.State, number: map<string, nat>)
    requires e.live == map[] && e.closed == ZERO
    ensures Conserved(e, {}, stats, number)
  {
    assert e.live.Keys == {};
    assert TrafficOf(stats, number, {}) == map[];
  }

  ghost predicate AccountAt(s: State, key: string) {
    key in s.cache ==>
      && key in s.attached
      && LiveOk(s.cache[key], s.attached[key], key, s.conns, s.number)
      && Conserved(s.cache[key], s.attached[key], s.stats, s.number)
  }

  lemma NextKeepsAccount(s: State, step: Step, key: string)
    requires BooksOk(s.stats, s.number, s.conns) && Enabled(s, step) && AccountAt(s, key)
    ensures AccountAt(Next(s, step), key)
  {
    if key in CacheAfter(s, step) {
      var change := HowEntryChanges(s, step, key);
      NextKeepsLive(s, step, key, change);
      if change.Fresh? {
        FreshIsConserved(CacheAfter(s, step)[key], StatsAfter(s, step), NumberAfter(s, step));
      } else {
        NextConserves(s, step, key, change);
      }
    }
  }

  lemma {:induction false} AccountsAlwaysOk(steps: seq<Step>)
    ensures var s := Gate.Exec(steps);
            BooksOk(s.stats, s.number, s.conns) && forall key :: AccountAt(s, key)
  {
    if steps != [] {
      var n := |steps| - 1;
      var s, step := Gate.Exec(steps[..n]), steps[n];
      AccountsAlwaysOk(steps[..n]);
      if Enabled(s, step) {
        NextKeepsBooks(s, step);
        forall key
          ensures AccountAt(Next(s, step), key)
        {
          NextKeepsAccount(s, step, key);
        }
      }
    }
  }

  /** On every run, during one entry's lifetime: it reports exactly the traffic
      counted for every distinct connection ever attached to it, live or ended,
      and never tracks more than 1000 live ones. */
  lemma ReportIsTrafficOfAttached(steps: seq<Step>, key: string)
    requires key in Gate.Exec(steps).cache
    ensures var s := Gate.Exec(steps);
            && key in s.attached
            && Reported(s.cache[key], s.stats) == Sum(TrafficOf(s.stats, s.number, s.attached[key]))
            && |s.cache[key].live| <= MAX_CONN_IDS_PER_APPROVAL
  {
    AccountsAlwaysOk(steps);
    var s := Gate.Exec(steps);
    assert AccountAt(s, key);
    ReportedByConnection(s.cache[key], s.attached[key], key, s);
  }

  // ---- Traffic, by the steps ----

  /** Step `i` transfers bytes on one of these connections. */
  predicate CarriesAt(steps: seq<Step>, i: nat, conns: set<string>)
    requires i < |steps|
  {
    steps[i].Transfer? && steps[i].conn in conns && Enabled(Gate.Exec(steps[..i]), steps[i])
  }

  function CarriedIn(steps: seq<Step>, conns: set<string>): nat {
    if steps == [] then 0 else
      var n := |steps| - 1;
      CarriedIn(steps[..n], conns) + if CarriesAt(steps, n, conns) then steps[n].bytesIn else 0
  }

  function CarriedOut(steps: seq<Step>, conns: set<string>): nat {
    if steps == [] then 0 else
      var n := |steps| - 1;
      CarriedOut(steps[..n], conns) + if CarriesAt(steps, n, conns) then steps[n].bytesOut else 0
  }

  lemma {:induction false} NoTrafficYet(conns: set<string>)
    ensures Sum(TrafficOf(Stats.EMPTY, map[], conns)) == ZERO
    decreases |conns|
  {
    if conns == {} {
      assert TrafficOf(Stats.EMPTY, map[], conns) == map[];
    } else {
      var conn :| conn in conns;
      NoTrafficYet(conns - {conn});
      SumOfOneMore(Stats.EMPTY, map[], conns - {conn}, conn);
      assert conns - {conn} + {conn} == conns;
    }
  }

  ghost function TotalOf(s: State, conns: set<string>): Tally {
    Sum(TrafficOf(s.stats, s.number, conns))
  }

  lemma NextCarries(s: State, step: Step, conns: set<string>)
    requires BooksOk(s.stats, s.number, s.conns)
    ensures var t, t' := TotalOf(s, conns), TotalOf(Next(s, step), conns);
            if step.Transfer? && step.conn in conns && Enabled(s, step)
            then t' == t.(bytesIn := t.bytesIn + step.bytesIn, bytesOut := t.bytesOut + step.bytesOut)
            else t' == t
  {
    if Enabled(s, step) {
      SetTrafficFrame(s, step, conns);
    }
  }

  /** On every run the traffic of connections is what the steps transferred on them. */
  lemma {:induction false} TrafficIsCarried(steps: seq<Step>, conns: set<string>)
    ensures TotalOf(Gate.Exec(steps), conns) == Tally(0, 0, CarriedIn(steps, conns), CarriedOut(steps, conns))
  {
    if steps == [] {
      NoTrafficYet(conns);
    } else {
      var n := |steps| - 1;
      var s := Gate.Exec(steps[..n]);
      TrafficIsCarried(steps[..n], conns);
      assert BooksOk(s.stats, s.number, s.conns) by {
        AccountsAlwaysOk(steps[..n]);
      }
      NextCarries(s, steps[n], conns);
    }
  }

  /** Nothing is forwarded for a blocked or mocked connection. */
  lemma {:induction false} NothingForBlocked(steps: seq<Step>, conn: string)
    requires var conns := Gate.Exec(steps).conns; conn in conns ==> conns[conn].action.Block? || conns[conn].action.Mock?
    ensures CarriedIn(steps, {conn}) == 0 && CarriedOut(steps, {conn}) == 0
  {
    if steps != [] {
      var n := |steps| - 1;
      var s := Gate.Exec(steps[..n]);
      if conn in s.conns && Enabled(s, steps[n]) {
        LatePhases(s, steps[n], conn);
      }
      NothingForBlocked(steps[..n], conn);
    }
  }

  /** For any other that is served, what comes is forwarded and counted. */
  lemma OthersAreForwarded(s: State, conn: string, bytesIn: nat, bytesOut: nat)
    requires BooksOk(s.stats, s.number, s.conns)
    requires conn in s.conns && s.conns[conn].phase.Serving? && !s.conns[conn].action.Block? && !s.conns[conn].action.Mock?
    ensures var t, t' := TotalOf(s, {conn}), TotalOf(Next(s, Transfer(conn, bytesIn, bytesOut)), {conn});
            t'.bytesIn == t.bytesIn + bytesIn && t'.bytesOut == t.bytesOut + bytesOut
  {
    NextCarries(s, Transfer(conn, bytesIn, bytesOut), {conn});
  }

  /** On every run an entry reports the bytes, in and out, that the steps transferred
      on the connections attached to it. */
  lemma ReportIsCarried(steps: seq<Step>, key: string)
    requires key in Gate.Exec(steps).cache
    ensures var s := Gate.Exec(steps);
            && key in s.attached
            && Reported(s.cache[key], s.stats) == Tally(0, 0, CarriedIn(steps, s.attached[key]), CarriedOut(steps, s.attached[key]))
            && |s.cache[key].live| <= 1000
  {
    ReportIsTrafficOfAttached(steps, key);
    TrafficIsCarried(steps, Gate.Exec(steps).attached[key]);
  }

  /** Ending a connection, in either of its two steps, changes no entry's report. */
  lemma ClosingKeepsReports(steps: seq<Step>, step: Step, key: string)
    requires step.Unregister? || step.RemoveConnId?
    requires key in Gate.Exec(steps).cache && key in Gate.Exec(steps + [step]).cache
    ensures var s, s' := Gate.Exec(steps), Gate.Exec(steps + [step]);
            Reported(s'.cache[key], s'.stats) == Reported(s.cache[key], s.stats)
  {
    var s, s' := Gate.Exec(steps), Gate.Exec(steps + [step]);
    assert (steps + [step])[..|steps|] == steps;
    AccountsAlwaysOk(steps);
    assert AccountAt(s, key);
    ReportIsTrafficOfAttached(steps, key);
    ReportIsTrafficOfAttached(steps + [step], key);
    if Enabled(s, step) {
      SetTrafficFrame(s, step, s.attached[key]);
    }
  }

  /** Once unregistered, a connection's counters are frozen. */
  lemma {:induction false} FrozenOnceUnregistered(steps: seq<Step>, i: nat, conn: string)
    requires i <= |steps| && conn in Gate.Exec(steps[..i]).conns
    requires var p := Gate.Exec(steps[..i]).conns[conn].phase; p.Closing? || p.Ended?
    ensures var s, s' := Gate.Exec(steps[..i]), Gate.Exec(steps);
            && conn in s'.conns && (s'.conns[conn].phase.Closing? || s'.conns[conn].phase.Ended?)
            && Traffic(s'.stats, s'.number, conn) == Traffic(s.stats, s.number, conn)
    decreases |steps|
  {
    if i == |steps| {
      assert steps[..i] == steps;
    } else {
      var n := |steps| - 1;
      var s := Gate.Exec(steps[..n]);
      assert steps[..n][..i] == steps[..i];
      FrozenOnceUnregistered(steps[..n], i, conn);
      if Enabled(s, steps[n]) {
        AccountsAlwaysOk(steps[..n]);
        assert BooksAt(s.stats, s.number, s.conns, conn);
        LatePhases(s, steps[n], conn);
        TrafficFrame(s, steps[n], conn);
      }
    }
  }
}
