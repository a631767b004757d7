/**
 Where the gate leads: on every run, what becomes of a connection that is checked
 against the cache, asks, is decided on or times out, and which connections take
 part in the traffic of a cached decision.
 */
module GateOutcome {
  import opened Options
  import opened Pending
  import opened DecisionCache
  import opened Gate
  import opened GateDesk
  import opened GateCache
  import opened GateSafety
  import GateTraffic
  import opened Tallies

  /** The phase of a connection before step `j`. */
  function PhaseAt(steps: seq<Step>, j: nat, conn: string): Option<Phase>
    requires j <= |steps|
  {
    var s := Gate.Exec(steps[..j]);
    if conn in s.conns then Some(s.conns[conn].phase) else None
  }

  // ---- Writes ----

  /** Step `m` wakes the waiter of a request. */
  predicate TellsAt(steps: seq<Step>, m: nat, req: string) {
    EnabledAt(steps, m, Send(req))
  }

  lemma {:induction false} SentHasStep(steps: seq<Step>, req: string) returns (m: nat)
    requires req in Gate.Exec(steps).desk.sent
    ensures TellsAt(steps, m, req)
    decreases |steps|
  {
    var n := |steps| - 1;
    if req in Gate.Exec(steps[..n]).desk.sent {
      m := SentHasStep(steps[..n], req);
      assert steps[..n][..m] == steps[..m];
    } else {
      m := n;
    }
  }

  /** On every run the cache is written once the decision was made and its waiter
      told, and the deadline counts from a time between decision and write. */
  lemma WriteFollowsDecision(steps: seq<Step>, k: nat, ip: string, rule: string) returns (i: nat, m: nat)
    requires StoresAt(steps, k, ip, rule)
    ensures i < m < k && Decides(steps, i, steps[k].req) && TellsAt(steps, m, steps[k].req)
    ensures Gate.Exec(steps[..i]).now <= steps[k].readAt <= Gate.Exec(steps[..k]).now
  {
    var req := steps[k].req;
    i := RulingHasStep(steps[..k], req);
    m := SentHasStep(steps[..k], req);
    assert steps[..k][..i] == steps[..i] && steps[..k][..m] == steps[..m];
    ToldAfterwards(steps, i, m, req);
  }

  lemma ToldAfterwards(steps: seq<Step>, i: nat, m: nat, req: string)
    requires Decides(steps, i, req) && TellsAt(steps, m, req)
    ensures i < m
  {
    var e := RulingHasStep(steps[..m], req);
    assert steps[..m][..e] == steps[..e];
    if e < i {
      OneDecisionEach(steps, e, i, req);
    }
  }

  /** A decision is written once. */
  lemma {:induction false} WrittenStays(steps: seq<Step>, k: nat, j: nat, req: string)
    requires k < j <= |steps| && steps[k].StoreRuling? && steps[k].req == req && Enabled(Gate.Exec(steps[..k]), steps[k])
    ensures req in Gate.Exec(steps[..j]).desk.stored
    decreases j
  {
    assert steps[..j][..j - 1] == steps[..j - 1];
    if k < j - 1 {
      WrittenStays(steps, k, j - 1, req);
    }
  }

  lemma OneWriteEach(steps: seq<Step>, k: nat, j: nat, ip: string, rule: string)
    requires k < j && StoresAt(steps, k, ip, rule) && StoresAt(steps, j, ip, rule)
    ensures steps[k].req != steps[j].req
  {
    if steps[k].req == steps[j].req {
      WrittenStays(steps, k, j, steps[k].req);
    }
  }

  // ---- Checks ----

  /** Before step `j` a decision for this address and rule stands in the cache: step
      `i` made it, step `k` wrote it, nothing wrote or cancelled one since, and it
      lasts for its seconds, or for 300 when it names none. */
  ghost predicate StandsAt(steps: seq<Step>, i: nat, k: nat, j: nat, ip: string, rule: string) {
    && i < k < j <= |steps| && StoresAt(steps, k, ip, rule)
    && Decides(steps, i, steps[k].req) && steps[i].caches
    && QuietSince(steps[..j], k, ip, rule)
    && Gate.Exec(steps[..j]).now < steps[k].readAt + (if steps[i].seconds > 0 then steps[i].seconds else 300)
  }

  /** What was written is what was decided. */
  lemma WrittenIsDecided(steps: seq<Step>, i: nat, k: nat, ip: string, rule: string)
    requires i < k && StoresAt(steps, k, ip, rule) && Decides(steps, i, steps[k].req)
    ensures WrittenAt(steps, k) == (steps[i].allowed, steps[k].readAt + if steps[i].seconds > 0 then steps[i].seconds else 300)
    ensures steps[i].caches
  {
    var m := RulingHasStep(steps[..k], steps[k].req);
    assert steps[..k][..m] == steps[..m] && steps[..k][..i] == steps[..i];
    if m < i {
      OneDecisionEach(steps, m, i, steps[k].req);
    } else if i < m {
      OneDecisionEach(steps, i, m, steps[k].req);
    }
  }

  lemma StandingIsCached(steps: seq<Step>, i: nat, k: nat, j: nat, conn: string)
    requires j <= |steps| && conn in Gate.Exec(steps[..j]).conns
    requires var c := Gate.Exec(steps[..j]).conns[conn]; StandsAt(steps, i, k, j, c.ip, c.rule)
    ensures var cached := CachedFor(Gate.Exec(steps[..j]), conn); cached.Some? && cached.value.allowed == steps[i].allowed
  {
    var c := Gate.Exec(steps[..j]).conns[conn];
    SameInPrefix(steps, j, k, c.ip, c.rule);
    LatestWriteDecides(steps[..j], k, conn);
    WrittenIsDecided(steps, i, k, c.ip, c.rule);
  }

  lemma CachedIsStanding(steps: seq<Step>, j: nat, conn: string) returns (i: nat, k: nat)
    requires j <= |steps| && conn in Gate.Exec(steps[..j]).conns && CachedFor(Gate.Exec(steps[..j]), conn).Some?
    ensures var c := Gate.Exec(steps[..j]).conns[conn]; StandsAt(steps, i, k, j, c.ip, c.rule)
  {
    var before := steps[..j];
    var c := Gate.Exec(before).conns[conn];
    assert Latest(Events(before), c.ip, c.rule).Some? by {
      GateCheckIsLatest(before, conn);
    }
    k := LatestIsStore(before, c.ip, c.rule);
    SameInPrefix(steps, j, k, c.ip, c.rule);
    var m;
    i, m := WriteFollowsDecision(steps, k, c.ip, c.rule);
    WrittenIsDecided(steps, i, k, c.ip, c.rule);
    assert Gate.Exec(before).now < WrittenAt(steps, k).1 by {
      GateCheckIsLatest(before, conn);
    }
  }

  /** Such a decision stands, to this effect. */
  ghost predicate DecisionStands(steps: seq<Step>, j: nat, ip: string, rule: string, allowed: bool) {
    exists i: nat, k: nat :: StandsAt(steps, i, k, j, ip, rule) && steps[i].allowed == allowed
  }

  /** A check on every run: while an allowing decision for its address and rule
      stands, the connection goes on and is tracked; while a denying one stands it
      is refused; and it has to ask exactly when none stands. */
  lemma CheckLeads(steps: seq<Step>, j: nat, conn: string)
    requires EnabledAt(steps, j, CheckCache(conn))
    ensures var c, phase := Gate.Exec(steps[..j]).conns[conn], PhaseAt(steps, j + 1, conn);
            var allow, deny := DecisionStands(steps, j, c.ip, c.rule, true), DecisionStands(steps, j, c.ip, c.rule, false);
            && (phase == Some(Cleared(true)) <==> allow)
            && (phase == Some(Refused) <==> deny)
            && (phase == Some(Missed) <==> !allow && !deny)
  {
    var s := Gate.Exec(steps[..j]);
    var c := s.conns[conn];
    assert steps[..j + 1][..j] == steps[..j];
    forall allowed | DecisionStands(steps, j, c.ip, c.rule, allowed)
      ensures CachedFor(s, conn).Some? && CachedFor(s, conn).value.allowed == allowed
    {
      var i: nat, k: nat :| StandsAt(steps, i, k, j, c.ip, c.rule) && steps[i].allowed == allowed;
      StandingIsCached(steps, i, k, j, conn);
    }
    if CachedFor(s, conn).Some? {
      var i, k := CachedIsStanding(steps, j, conn);
      StandingIsCached(steps, i, k, j, conn);
      assert DecisionStands(steps, j, c.ip, c.rule, steps[i].allowed);
    }
  }

  // ---- Phases follow one another ----

  function Rank(p: Phase): nat {
    match p
    case Arrived => 0
    case Missed => 1
    case Waiting(_) => 2
    case Woken(_, _, _) => 3
    case Cleared(_) => 4
    case Registered(_) => 5
    case Serving => 6
    case Closing => 7
    case Ended => 8
    case Refused => 9
  }

  lemma PhaseMovesOn(s: State, step: Step, conn: string)
    requires conn in s.conns
    ensures conn in Next(s, step).conns
    ensures var p, p' := s.conns[conn].phase, Next(s, step).conns[conn].phase;
            p' == p || (Enabled(s, step) && Moves(step) && step.conn == conn && p' == PhaseAfter(s, step) && Rank(p) < Rank(p'))
  {
  }

  lemma {:induction false} RankGrows(steps: seq<Step>, i: nat, j: nat, conn: string)
    requires i <= j <= |steps| && PhaseAt(steps, i, conn).Some?
    ensures PhaseAt(steps, j, conn).Some? && Rank(PhaseAt(steps, i, conn).value) <= Rank(PhaseAt(steps, j, conn).value)
    ensures Rank(PhaseAt(steps, i, conn).value) == Rank(PhaseAt(steps, j, conn).value) ==> PhaseAt(steps, i, conn) == PhaseAt(steps, j, conn)
    decreases j
  {
    if i < j {
      RankGrows(steps, i, j - 1, conn);
      assert steps[..j][..j - 1] == steps[..j - 1];
      PhaseMovesOn(Gate.Exec(steps[..j - 1]), steps[j - 1], conn);
    }
  }

  // ---- Decisions ----

  /** Before step `c` the connection was woken, at step `w`, by the decision of step
      `i` on its request. */
  ghost predicate WokenBy(steps: seq<Step>, i: nat, w: nat, c: nat, conn: string) {
    && i < w < c && EnabledAt(steps, w, Wake(conn))
    && Decides(steps, i, Gate.Exec(steps[..w]).conns[conn].phase.req)
  }

  ghost predicate DecidedFor(steps: seq<Step>, c: nat, conn: string, allowed: bool, caches: bool) {
    exists i: nat, w: nat :: WokenBy(steps, i, w, c, conn) && steps[i].allowed == allowed && steps[i].caches == caches
  }

  ghost predicate TimedOut(steps: seq<Step>, c: nat, conn: string) {
    exists w: nat :: w < c && EnabledAt(steps, w, TimeOut(conn))
  }

  lemma WokenIsDecided(steps: seq<Step>, i: nat, w: nat, c: nat, conn: string)
    requires c <= |steps| && WokenBy(steps, i, w, c, conn)
    ensures PhaseAt(steps, w + 1, conn) == Some(Woken(Gate.Exec(steps[..w]).conns[conn].phase.req, steps[i].allowed, steps[i].caches))
  {
    var s := Gate.Exec(steps[..w]);
    var req := s.conns[conn].phase.req;
    var m := RulingHasStep(steps[..w], req);
    assert steps[..w][..m] == steps[..m] && steps[..w + 1][..w] == steps[..w];
    if m < i {
      OneDecisionEach(steps, m, i, req);
    } else if i < m {
      OneDecisionEach(steps, i, m, req);
    }
  }

  lemma {:induction false} WokenHasStep(steps: seq<Step>, c: nat, conn: string) returns (w: nat)
    requires c <= |steps| && PhaseAt(steps, c, conn).Some? && PhaseAt(steps, c, conn).value.Woken?
    ensures w < c && PhaseAt(steps, w + 1, conn) == PhaseAt(steps, c, conn)
    ensures EnabledAt(steps, w, Wake(conn)) || EnabledAt(steps, w, TimeOut(conn))
    decreases c
  {
    assert c > 0;
    var s, step := Gate.Exec(steps[..c - 1]), steps[c - 1];
    assert steps[..c][..c - 1] == steps[..c - 1];
    assert conn in s.conns;
    PhaseMovesOn(s, step, conn);
    if PhaseAt(steps, c - 1, conn) == PhaseAt(steps, c, conn) {
      w := WokenHasStep(steps, c - 1, conn);
    } else {
      w := c - 1;
    }
  }

  lemma DecidedIs(steps: seq<Step>, c: nat, conn: string, allowed: bool, caches: bool)
    requires EnabledAt(steps, c, CleanUp(conn)) && DecidedFor(steps, c, conn, allowed, caches)
    ensures var p := PhaseAt(steps, c, conn).value; p.Woken? && p.granted == allowed && p.caches == caches
  {
    var i: nat, w: nat :| WokenBy(steps, i, w, c, conn) && steps[i].allowed == allowed && steps[i].caches == caches;
    WokenIsDecided(steps, i, w, c, conn);
    RankGrows(steps, w + 1, c, conn);
  }

  lemma TimedOutIs(steps: seq<Step>, c: nat, conn: string)
    requires EnabledAt(steps, c, CleanUp(conn)) && TimedOut(steps, c, conn)
    ensures var p := PhaseAt(steps, c, conn).value; p.Woken? && !p.granted
  {
    var w: nat :| w < c && EnabledAt(steps, w, TimeOut(conn));
    assert steps[..w + 1][..w] == steps[..w];
    RankGrows(steps, w + 1, c, conn);
  }

  lemma CleanedUpIs(steps: seq<Step>, c: nat, conn: string)
    requires EnabledAt(steps, c, CleanUp(conn))
    ensures PhaseAt(steps, c, conn).Some? && PhaseAt(steps, c, conn).value.Woken?
    ensures var p := PhaseAt(steps, c, conn).value;
            PhaseAt(steps, c + 1, conn) == Some(if p.granted then Cleared(p.caches) else Refused)
  {
    assert steps[..c + 1][..c] == steps[..c];
  }

  /** A clean-up on every run: the connection goes on, tracked or not, exactly if it
      was woken by a decision that allowed its request and is cached or not; it is
      refused exactly if the decision denied it or the wait timed out. */
  lemma CleanUpLeads(steps: seq<Step>, c: nat, conn: string)
    requires EnabledAt(steps, c, CleanUp(conn))
    ensures var phase := PhaseAt(steps, c + 1, conn);
            && (phase == Some(Cleared(true)) <==> DecidedFor(steps, c, conn, true, true))
            && (phase == Some(Cleared(false)) <==> DecidedFor(steps, c, conn, true, false))
            && (phase == Some(Refused) <==>
                  TimedOut(steps, c, conn) || DecidedFor(steps, c, conn, false, true) || DecidedFor(steps, c, conn, false, false))
  {
    CleanedUpIs(steps, c, conn);
    forall allowed, caches | DecidedFor(steps, c, conn, allowed, caches)
      ensures var p := PhaseAt(steps, c, conn).value; p.granted == allowed && p.caches == caches
    {
      DecidedIs(steps, c, conn, allowed, caches);
    }
    if TimedOut(steps, c, conn) {
      TimedOutIs(steps, c, conn);
    }
    WokenSomehow(steps, c, conn);
  }

  lemma WokenSomehow(steps: seq<Step>, c: nat, conn: string)
    requires EnabledAt(steps, c, CleanUp(conn))
    ensures var p := PhaseAt(steps, c, conn).value;
            TimedOut(steps, c, conn) || exists caches :: DecidedFor(steps, c, conn, p.granted, caches) && (p.granted ==> caches == p.caches)
  {
    var w := WokenHasStep(steps, c, conn);
    if EnabledAt(steps, w, Wake(conn)) {
      var req := Gate.Exec(steps[..w]).conns[conn].phase.req;
      var i := RulingHasStep(steps[..w], req);
      assert steps[..w][..i] == steps[..i];
      assert WokenBy(steps, i, w, c, conn);
      WokenIsDecided(steps, i, w, c, conn);
      assert DecidedFor(steps, c, conn, steps[i].allowed, steps[i].caches);
    }
  }

  // ---- Who is tracked ----

  /** The connection was let in on a decision that is cached: one that stood when it
      was checked, or its own. */
  ghost predicate OnCachedDecision(steps: seq<Step>, d: nat, conn: string) {
    exists j: nat :: j < d && LetInBy(steps, j, conn)
  }

  ghost predicate LetInBy(steps: seq<Step>, j: nat, conn: string) {
    || (EnabledAt(steps, j, CheckCache(conn)) &&
        var c := Gate.Exec(steps[..j]).conns[conn]; DecisionStands(steps, j, c.ip, c.rule, true))
    || (EnabledAt(steps, j, CleanUp(conn)) && DecidedFor(steps, j, conn, true, true))
  }

  lemma CheckLetsIn(steps: seq<Step>, j: nat, conn: string)
    requires EnabledAt(steps, j, CheckCache(conn))
    ensures LetInBy(steps, j, conn) <==> PhaseAt(steps, j + 1, conn) == Some(Cleared(true))
    ensures PhaseAt(steps, j, conn) == Some(Arrived)
  {
    CheckLeads(steps, j, conn);
  }

  lemma CleanUpLetsIn(steps: seq<Step>, j: nat, conn: string)
    requires EnabledAt(steps, j, CleanUp(conn))
    ensures LetInBy(steps, j, conn) <==> PhaseAt(steps, j + 1, conn) == Some(Cleared(true))
    ensures PhaseAt(steps, j, conn) != Some(Cleared(true))
  {
    CleanUpLeads(steps, j, conn);
  }

  lemma NothingElseLetsIn(steps: seq<Step>, j: nat, conn: string)
    requires j < |steps| && !EnabledAt(steps, j, CheckCache(conn)) && !EnabledAt(steps, j, CleanUp(conn))
    ensures PhaseAt(steps, j + 1, conn) == Some(Cleared(true)) ==> PhaseAt(steps, j, conn) == Some(Cleared(true))
  {
    var s := Gate.Exec(steps[..j]);
    assert steps[..j + 1][..j] == steps[..j];
    if conn in s.conns {
      PhaseMovesOn(s, steps[j], conn);
    }
  }

  lemma LetInIff(steps: seq<Step>, j: nat, conn: string)
    requires j < |steps|
    ensures LetInBy(steps, j, conn) <==>
              PhaseAt(steps, j + 1, conn) == Some(Cleared(true)) && PhaseAt(steps, j, conn) != Some(Cleared(true))
  {
    if EnabledAt(steps, j, CheckCache(conn)) {
      CheckLetsIn(steps, j, conn);
    } else if EnabledAt(steps, j, CleanUp(conn)) {
      CleanUpLetsIn(steps, j, conn);
    } else {
      NothingElseLetsIn(steps, j, conn);
    }
  }

  /** The flag that a connection is cleared with stays until it is served. */
  lemma {:induction false} FlagStays(steps: seq<Step>, j: nat, d: nat, conn: string, tracked: bool)
    requires j <= d <= |steps| && PhaseAt(steps, j, conn) == Some(Cleared(tracked))
    ensures PhaseAt(steps, d, conn).Some?
    ensures var p := PhaseAt(steps, d, conn).value;
            p == Cleared(tracked) || p == Registered(tracked) || p.Serving? || p.Closing? || p.Ended?
    decreases d
  {
    if j < d {
      FlagStays(steps, j, d - 1, conn, tracked);
      assert steps[..d][..d - 1] == steps[..d - 1];
      PhaseMovesOn(Gate.Exec(steps[..d - 1]), steps[d - 1], conn);
    }
  }

  lemma {:induction false} ClearedAtStep(steps: seq<Step>, d: nat, conn: string) returns (j: nat)
    requires d <= |steps| && PhaseAt(steps, d, conn).Some?
    requires PhaseAt(steps, d, conn).value.Cleared? || PhaseAt(steps, d, conn).value.Registered?
    ensures j < d && PhaseAt(steps, j + 1, conn) == Some(Cleared(PhaseAt(steps, d, conn).value.tracked))
    ensures PhaseAt(steps, j, conn) != PhaseAt(steps, j + 1, conn)
    decreases d
  {
    assert d > 0;
    var s := Gate.Exec(steps[..d - 1]);
    assert steps[..d][..d - 1] == steps[..d - 1];
    if conn in s.conns {
      PhaseMovesOn(s, steps[d - 1], conn);
    }
    if conn in s.conns && (s.conns[conn].phase.Cleared? || s.conns[conn].phase.Registered?) {
      j := ClearedAtStep(steps, d - 1, conn);
    } else {
      j := d - 1;
    }
  }

  lemma LetInIsTracked(steps: seq<Step>, j: nat, d: nat, conn: string)
    requires j < d <= |steps| && LetInBy(steps, j, conn)
    ensures PhaseAt(steps, d, conn) != Some(Registered(false))
  {
    LetInIff(steps, j, conn);
    FlagStays(steps, j + 1, d, conn, true);
  }

  lemma TrackedIsLetIn(steps: seq<Step>, d: nat, conn: string) returns (j: nat)
    requires d <= |steps| && PhaseAt(steps, d, conn) == Some(Registered(true))
    ensures j < d && LetInBy(steps, j, conn)
  {
    j := ClearedAtStep(steps, d, conn);
    LetInIff(steps, j, conn);
  }

  /** On every run a registered connection is tracked exactly when it was let in on
      a decision that is cached. */
  lemma TrackedIff(steps: seq<Step>, d: nat, conn: string)
    requires EnabledAt(steps, d, SetConnId(conn))
    ensures Gate.Exec(steps[..d]).conns[conn].phase.tracked <==> OnCachedDecision(steps, d, conn)
  {
    var tracked := Gate.Exec(steps[..d]).conns[conn].phase.tracked;
    assert PhaseAt(steps, d, conn) == Some(Registered(tracked));
    if OnCachedDecision(steps, d, conn) {
      var j: nat :| j < d && LetInBy(steps, j, conn);
      LetInIsTracked(steps, j, d, conn);
    }
    if tracked {
      var j := TrackedIsLetIn(steps, d, conn);
    }
  }

  // ---- Whose traffic an entry reports ----

  /** At step `d` the connection joins the entry: it was let in on a cached decision,
      the entry is still there, and fewer than 1000 connections are live in it. */
  ghost predicate JoinsAt(steps: seq<Step>, d: nat, conn: string, key: string) {
    && EnabledAt(steps, d, SetConnId(conn)) && OnCachedDecision(steps, d, conn)
    && var s := Gate.Exec(steps[..d]);
       KeyOf(s, conn) == key && key in s.cache && |s.cache[key].live| < 1000
  }

  /** Step `m` writes the entry anew. */
  predicate RenewsAt(steps: seq<Step>, m: nat, key: string) {
    && m < |steps| && steps[m].StoreRuling? && Enabled(Gate.Exec(steps[..m]), steps[m])
    && var r := Gate.Exec(steps[..m]).desk.rulings[steps[m].req]; BuildKey(r.ip, r.rule) == key
  }

  /** The connection joined the entry, which was not written anew since. */
  ghost predicate TakesPart(steps: seq<Step>, conn: string, key: string)
    decreases |steps|
  {
    steps != [] &&
    var n := |steps| - 1;
    JoinsAt(steps, n, conn, key) || (TakesPart(steps[..n], conn, key) && !RenewsAt(steps, n, key))
  }

  ghost predicate Recorded(s: State, conn: string, key: string) {
    key in s.attached && conn in s.attached[key]
  }

  lemma NextRecords(s: State, step: Step, conn: string, key: string)
    requires key in s.cache ==> key in s.attached
    ensures Recorded(Next(s, step), conn, key) <==>
              if Enabled(s, step) && step == SetConnId(conn) && s.conns[conn].phase.tracked && KeyOf(s, conn) == key
                 && key in s.cache && |s.cache[key].live| < 1000
              then true
              else Recorded(s, conn, key) && !(Enabled(s, step) && step.StoreRuling? &&
                   BuildKey(s.desk.rulings[step.req].ip, s.desk.rulings[step.req].rule) == key)
  {
  }

  /** The history of an entry: on every run a connection is recorded with it exactly
      when it joined it since the entry was last written. */
  lemma {:induction false} RecordedIff(steps: seq<Step>, conn: string, key: string)
    ensures Recorded(Gate.Exec(steps), conn, key) <==> TakesPart(steps, conn, key)
  {
    if steps != [] {
      var n := |steps| - 1;
      var s := Gate.Exec(steps[..n]);
      RecordedIff(steps[..n], conn, key);
      assert key in s.cache ==> key in s.attached by {
        GateTraffic.AccountsAlwaysOk(steps[..n]);
        assert GateTraffic.AccountAt(s, key);
      }
      NextRecords(s, steps[n], conn, key);
      if EnabledAt(steps, n, SetConnId(conn)) {
        TrackedIff(steps, n, conn);
      }
    }
  }

  /** On every run an entry reports the bytes in and out that were transferred on
      exactly those connections that joined it since it was written. */
  lemma EntryReports(steps: seq<Step>, key: string) returns (conns: set<string>)
    requires key in Gate.Exec(steps).cache
    ensures forall conn :: conn in conns <==> TakesPart(steps, conn, key)
    ensures var s := Gate.Exec(steps);
            GateTraffic.Reported(s.cache[key], s.stats) == Tally(0, 0, GateTraffic.CarriedIn(steps, conns), GateTraffic.CarriedOut(steps, conns))
  {
    GateTraffic.ReportIsCarried(steps, key);
    conns := Gate.Exec(steps).attached[key];
    forall conn
      ensures conn in conns <==> TakesPart(steps, conn, key)
    {
      RecordedIff(steps, conn, key);
    }
  }

  // ---- Nothing is stuck ----

  /** The state once a request has been decided and its waiter told. */
  function Told(s: State, req: string, allowed: bool, seconds: int, caches: bool): State {
    Next(Next(s, Resolve(req, allowed, seconds, caches)), Send(req))
  }

  lemma ToldIs(s: State, req: string, allowed: bool, seconds: int, caches: bool)
    requires req in s.desk.pending
    ensures var told, r := Told(s, req, allowed, seconds, caches), s.desk.pending[req];
            && told.conns == s.conns && told.cache == s.cache && told.now == s.now
            && req in told.desk.sent && told.desk.stored == s.desk.stored
            && req in told.desk.rulings && told.desk.rulings[req] == Ruling(r.sourceIp, r.ruleId, allowed, seconds, caches, s.now)
  {
  }

  /** In any state a decision on a pending request goes through: the waiting
      connection is woken and goes on, or is refused. */
  lemma DecisionGoesThrough(s: State, conn: string, allowed: bool, seconds: int, caches: bool)
    requires conn in s.conns && s.conns[conn].phase.Waiting? && s.conns[conn].phase.req in s.desk.pending
    ensures var told := Told(s, s.conns[conn].phase.req, allowed, seconds, caches);
            var s' := Next(Next(told, Wake(conn)), CleanUp(conn));
            conn in s'.conns && s'.conns[conn].phase == if allowed then Cleared(caches) else Refused
  {
    var req := s.conns[conn].phase.req;
    ToldIs(s, req, allowed, seconds, caches);
    var told := Told(s, req, allowed, seconds, caches);
    var woken := Next(told, Wake(conn));
    assert woken.conns[conn].phase == Woken(req, allowed, caches);
  }

  /** And if it is to be cached, it is, and answers the checks of its address and
      rule for its seconds, or for 300 when it names none. */
  lemma DecisionIsCached(s: State, req: string, allowed: bool, seconds: int, now: int)
    requires req in s.desk.pending && req !in s.desk.stored
    ensures var stored, r := Next(Told(s, req, allowed, seconds, true), StoreRuling(req, s.now)), s.desk.pending[req];
            var left := s.now + (if seconds > 0 then seconds else 300) - now;
            Check(stored.cache, r.sourceIp, r.ruleId, now) == if left > 0 then Some(Decision(allowed, left)) else None
  {
    ToldIs(s, req, allowed, seconds, true);
  }

  /** A cleared connection is registered and served. */
  lemma ClearedIsServed(s: State, conn: string)
    requires conn in s.conns && s.conns[conn].phase.Cleared?
    ensures var s' := Next(Next(s, Register(conn)), SetConnId(conn));
            conn in s'.conns && s'.conns[conn].phase.Serving? && conn in s'.stats.active
  {
    var registered := Next(s, Register(conn));
    assert conn in registered.conns && registered.conns[conn].phase.Registered? && conn in registered.number;
    assert conn in registered.stats.active;
  }

  /** And a connection that is served can be ended. */
  lemma ServedCanEnd(s: State, conn: string)
    requires conn in s.conns && s.conns[conn].phase.Serving?
    ensures var s' := Next(Next(s, Unregister(conn)), RemoveConnId(conn));
            conn in s'.conns && s'.conns[conn].phase.Ended? && conn !in s'.stats.active
  {
    var closing := Next(s, Unregister(conn));
    assert conn in closing.conns && closing.conns[conn].phase.Closing? && conn !in closing.stats.active;
  }

  /** An arrival is checked; if that finds nothing and there is room for a request,
      the connection waits for it. */
  lemma MissedMayAsk(steps: seq<Step>, conn: string, req: string)
    requires var s := Gate.Exec(steps); conn in s.conns && s.conns[conn].phase.Missed? && req !in s.desk.owner
    ensures var s := Gate.Exec(steps);
            var s' := Next(s, Ask(conn, req));
            && conn in s'.conns
            && (s'.conns[conn].phase == Waiting(req) <==> Room(s.desk.pending, RequestOf(s, conn, req)))
            && (s'.conns[conn].phase == Refused <==> !Room(s.desk.pending, RequestOf(s, conn, req)))
            && (s'.conns[conn].phase == Waiting(req) ==>
                  req in s'.desk.pending && s'.desk.pending[req] == Request(req, s.conns[conn].proxy, s.conns[conn].ip, s.conns[conn].rule))
  {
    var s := Gate.Exec(steps);
    DeskAlwaysOk(steps);
    FitsIffRoom(s.desk.pending, s.desk.byIp, s.desk.byProxy, RequestOf(s, conn, req));
  }

  /** Whoever arrives is checked if its rule asks for approval, and let through
      untracked if not. */
  lemma ArrivalIsMet(s: State, conn: string, ip: string, rule: string, proxy: string, action: Action)
    requires conn !in s.conns && '\0' !in ip
    ensures var s' := Next(s, Arrive(conn, ip, rule, proxy, action));
            && conn in s'.conns && s'.conns[conn].ip == ip && s'.conns[conn].rule == rule
            && (Enabled(s', CheckCache(conn)) <==> action.RequireApproval?)
            && (Enabled(s', Register(conn)) <==> !action.RequireApproval?)
  {
  }
}
