/**
 The connection gate as a state machine.

 Every section of code that runs under one lock is a step, and steps of different
 connections, decisions and background tasks interleave freely: a connection is
 checked against the decision cache, may ask for approval, waits, is woken or
 times out, cleans up, is registered, attached to the cache entry that let it
 through, served, unregistered and detached; a decision takes its request out of
 the desk, wakes the waiter and only then writes the cache.

 A step that is not enabled leaves the state as it is, so a run is any sequence of
 steps. Request and connection ids are fresh, as random UUIDs are.
 */
module Gate {
  import opened Options
  import opened Tallies
  import opened Pending
  import opened DecisionCache
  import Stats

  datatype Action = Unspecified | Allow | Block | Mock | RequireApproval

  datatype Phase =
    | Arrived                                   // rule matched, approval needed
    | Missed                                    // no cached decision
    | Waiting(req: string)
    | Woken(req: string, granted: bool, caches: bool)
    | Cleared(tracked: bool)                    // may be registered
    | Registered(tracked: bool)
    | Serving
    | Closing                                   // unregistered, detaching still to come
    | Ended
    | Refused
  {
    /** The connection got past the gate. */
    predicate Passed() {
      Cleared? || Registered? || Serving? || Closing? || Ended?
    }
  }

  datatype Conn = Conn(ip: string, rule: string, proxy: string, action: Action, phase: Phase)

  /** A decision that found its request pending, with the time it was made. */
  datatype Ruling = Ruling(ip: string, rule: string, allowed: bool, seconds: int, caches: bool, at: int)

  /** Requests from admission to decision; `owner` and `freed` are history. */
  datatype Desk = Desk(
    pending: Requests,
    byIp: map<string, nat>,
    byProxy: map<string, nat>,
    rulings: map<string, Ruling>,
    sent: set<string>,            // rulings whose waiter has been woken
    stored: set<string>,          // rulings written to the cache
    owner: map<string, string>,   // the connection of each admitted request
    freed: seq<string>)           // requests in the order their slots were freed

  datatype State = State(
    now: int,
    desk: Desk,
    cache: Cache<nat>,
    attached: map<string, set<string>>,   // history: every connection attached to an entry so far
    stats: Stats.State,
    number: map<string, nat>,     // registration number of each connection ever registered
    conns: map<string, Conn>)

  const INITIAL := State(0, Desk(map[], map[], map[], map[], {}, {}, map[], []), map[], map[], Stats.EMPTY, map[], map[])

  datatype Step =
    | Tick(elapsed: nat)
    | Arrive(conn: string, ip: string, rule: string, proxy: string, action: Action)
    | CheckCache(conn: string)
    | Ask(conn: string, req: string)
    | Resolve(req: string, allowed: bool, seconds: int, caches: bool)
    | Send(req: string)
    | StoreRuling(req: string, readAt: int)
    | Wake(conn: string)
    | TimeOut(conn: string)
    | CleanUp(conn: string)
    | Register(conn: string)
    | SetConnId(conn: string)
    | Transfer(conn: string, bytesIn: nat, bytesOut: nat)
    | Unregister(conn: string)
    | RemoveConnId(conn: string)
    | SweepCache(readAt: int)
    | CancelApproval(key: string)

  // ---- When a step can happen ----

  predicate Enabled(s: State, step: Step) {
    match step
    case Tick(_) => true
    case Arrive(conn, ip, _, _, _) => conn !in s.conns && '\0' !in ip
    case CheckCache(conn) => conn in s.conns && s.conns[conn].phase.Arrived?
    case Ask(conn, req) => conn in s.conns && s.conns[conn].phase.Missed? && req !in s.desk.owner
    case Resolve(req, _, _, _) => req in s.desk.pending
    case Send(req) => req in s.desk.rulings
    // The cache is written only after the waiter has been woken, with a deadline
    // that counts from a clock read at some moment before.
    case StoreRuling(req, readAt) =>
      && req in s.desk.rulings && req in s.desk.sent && req !in s.desk.stored && s.desk.rulings[req].caches
      && s.desk.rulings[req].at <= readAt <= s.now
    case Wake(conn) =>
      conn in s.conns && s.conns[conn].phase.Waiting? && s.conns[conn].phase.req in s.desk.sent * s.desk.rulings.Keys
    case TimeOut(conn) => conn in s.conns && s.conns[conn].phase.Waiting?
    case CleanUp(conn) => conn in s.conns && s.conns[conn].phase.Woken?
    case Register(conn) => conn in s.conns && s.conns[conn].phase.Cleared?
    case SetConnId(conn) => conn in s.conns && s.conns[conn].phase.Registered? && conn in s.number
    // Blocked and mocked connections are registered, but nothing is forwarded for them.
    case Transfer(conn, _, _) =>
      conn in s.conns && s.conns[conn].phase.Serving? && !s.conns[conn].action.Block? && !s.conns[conn].action.Mock?
    case Unregister(conn) => conn in s.conns && s.conns[conn].phase.Serving?
    case RemoveConnId(conn) => conn in s.conns && s.conns[conn].phase.Closing?
    // The sweep reads the clock before it takes the lock.
    case SweepCache(readAt) => readAt <= s.now
    case CancelApproval(_) => true
  }

  /** Steps that move one connection on. */
  predicate Moves(step: Step) {
    step.CheckCache? || step.Ask? || step.Wake? || step.TimeOut? || step.CleanUp? || step.Register?
    || step.SetConnId? || step.Unregister? || step.RemoveConnId?
  }

  // ---- What a step does, part by part ----

  /** The cached decision for a connection; only a positive one lets it through. */
  function CachedFor(s: State, conn: string): Option<Decision>
    requires conn in s.conns
  {
    Check(s.cache, s.conns[conn].ip, s.conns[conn].rule, s.now)
  }

  function RequestOf(s: State, conn: string, req: string): Request
    requires conn in s.conns
  {
    Request(req, s.conns[conn].proxy, s.conns[conn].ip, s.conns[conn].rule)
  }

  function KeyOf(s: State, conn: string): string
    requires conn in s.conns
  {
    BuildKey(s.conns[conn].ip, s.conns[conn].rule)
  }

  function PhaseAfter(s: State, step: Step): Phase
    requires Enabled(s, step) && Moves(step)
  {
    var phase := s.conns[step.conn].phase;
    match step
    case CheckCache(conn) =>
      var cached := CachedFor(s, conn);
      if cached.None? then Missed else if cached.value.allowed then Cleared(true) else Refused
    case Ask(conn, req) => if Admits(s.desk, RequestOf(s, conn, req)) then Waiting(req) else Refused
    case Wake(_) => Woken(phase.req, s.desk.rulings[phase.req].allowed, s.desk.rulings[phase.req].caches)
    case TimeOut(_) => Woken(phase.req, false, false)
    case CleanUp(_) => if phase.granted then Cleared(phase.caches) else Refused
    case Register(_) => Registered(phase.tracked)
    case SetConnId(_) => Serving
    case Unregister(_) => Closing
    case RemoveConnId(_) => Ended
  }

  function ConnsAfter(s: State, step: Step): map<string, Conn>
    requires Enabled(s, step)
  {
    if step.Arrive? then
      var phase := if step.action.RequireApproval? then Arrived else Cleared(false);
      s.conns[step.conn := Conn(step.ip, step.rule, step.proxy, step.action, phase)]
    else if Moves(step) then
      s.conns[step.conn := s.conns[step.conn].(phase := PhaseAfter(s, step))]
    else s.conns
  }

  /** Whether the desk admits a request, going by its counters. */
  predicate Admits(desk: Desk, r: Request) {
    Fits(desk.pending, desk.byIp, desk.byProxy, r)
  }

  function Lower(counters: map<string, nat>, key: string): map<string, nat> {
    if key in counters then Decrement(counters, key) else counters
  }

  /** Takes a request off the desk, whoever does it, and notes the freed slot. */
  function Free(desk: Desk, req: string): Desk {
    if req in desk.pending then
      var r := desk.pending[req];
      desk.(pending := Release(desk.pending, req),
            byIp := Lower(desk.byIp, r.sourceIp),
            byProxy := if r.proxyId != "" then Lower(desk.byProxy, r.proxyId) else desk.byProxy,
            freed := desk.freed + [req])
    else desk
  }

  function DeskAfter(s: State, step: Step): Desk
    requires Enabled(s, step)
  {
    match step
    case Ask(conn, req) =>
      var r := RequestOf(s, conn, req);
      if Admits(s.desk, r) then
        s.desk.(pending := s.desk.pending[req := r],
                byIp := Increment(s.desk.byIp, r.sourceIp),
                byProxy := if r.proxyId != "" then Increment(s.desk.byProxy, r.proxyId) else s.desk.byProxy,
                owner := s.desk.owner[req := conn])
      else s.desk
    case Resolve(req, allowed, seconds, caches) =>
      var r := s.desk.pending[req];
      Free(s.desk, req).(rulings := s.desk.rulings[req := Ruling(r.sourceIp, r.ruleId, allowed, seconds, caches, s.now)])
    case Send(req) => s.desk.(sent := s.desk.sent + {req})
    case StoreRuling(req, _) => s.desk.(stored := s.desk.stored + {req})
    case CleanUp(conn) => Free(s.desk, s.conns[conn].phase.req)
    case _ => s.desk
  }

  /** The connection takes part in an entry's traffic. */
  predicate Attaches(s: State, step: Step)
    requires Enabled(s, step)
  {
    step.SetConnId? && s.conns[step.conn].phase.tracked && CanAttach(s.cache, s.conns[step.conn].ip, s.conns[step.conn].rule)
  }

  /** The traffic counted for a connection so far. */
  function Traffic(stats: Stats.State, number: map<string, nat>, conn: string): Tally {
    if conn in number && number[conn] < |stats.records| then stats.records[number[conn]].traffic else ZERO
  }

  function CacheAfter(s: State, step: Step): Cache<nat>
    requires Enabled(s, step)
  {
    match step
    case StoreRuling(req, readAt) =>
      var r := s.desk.rulings[req];
      Store(s.cache, r.ip, r.rule, r.allowed, r.seconds, readAt)
    case SetConnId(conn) =>
      if Attaches(s, step) then Attach(s.cache, s.conns[conn].ip, s.conns[conn].rule, conn, s.number[conn]) else s.cache
    case RemoveConnId(conn) =>
      Detach(s.cache, s.conns[conn].ip, s.conns[conn].rule, conn, Traffic(s.stats, s.number, conn))
    case SweepCache(readAt) => Sweep(s.cache, readAt)
    case CancelApproval(key) => Cancel(s.cache, key)
    case _ => s.cache
  }

  function AttachedAfter(s: State, step: Step): map<string, set<string>>
    requires Enabled(s, step)
  {
    match step
    case StoreRuling(req, _) => s.attached[BuildKey(s.desk.rulings[req].ip, s.desk.rulings[req].rule) := {}]
    case SetConnId(conn) =>
      var key := KeyOf(s, conn);
      if Attaches(s, step) && key in s.attached then s.attached[key := s.attached[key] + {conn}] else s.attached
    case _ => s.attached
  }

  function StatsAfter(s: State, step: Step): Stats.State
    requires Enabled(s, step)
  {
    match step
    case Register(conn) => Stats.Register(s.stats, conn, s.conns[conn].proxy)
    case Transfer(conn, bytesIn, bytesOut) => Stats.Update(s.stats, conn, Bytes(bytesIn, bytesOut))
    case Unregister(conn) => Stats.Unregister(s.stats, conn)
    case _ => s.stats
  }

  function Next(s: State, step: Step): State {
    if Enabled(s, step) then
      State(
        if step.Tick? then s.now + step.elapsed else s.now,
        DeskAfter(s, step),
        CacheAfter(s, step),
        AttachedAfter(s, step),
        StatsAfter(s, step),
        if step.Register? then s.number[step.conn := |s.stats.records|] else s.number,
        ConnsAfter(s, step))
    else s
  }

  function Exec(steps: seq<Step>): State {
    if steps == [] then INITIAL else Next(Exec(steps[..|steps| - 1]), steps[|steps| - 1])
  }
}
