/**
 The decision cache inside the gate: on every run it is the cache of the writes,
 cancellations, attachments and sweeps that the run performed, and so answers
 every check with the latest write that no cancellation followed.
 */
module GateCache {
  import opened Options
  import opened DecisionCache
  import opened Gate
  import opened GateDesk

  // ---- The gate's cache is a run of the cache ----

  function EventsOf(s: State, step: Step): seq<Event<nat>>
    requires Enabled(s, step)
  {
    match step
    case StoreRuling(req, readAt) =>
      var r := s.desk.rulings[req];
      [Stored(r.ip, r.rule, r.allowed, r.seconds, readAt)]
    case SetConnId(conn) =>
      if s.conns[conn].phase.tracked then [Attached(s.conns[conn].ip, s.conns[conn].rule, conn, s.number[conn])] else []
    case RemoveConnId(conn) =>
      [Detached(s.conns[conn].ip, s.conns[conn].rule, conn, Traffic(s.stats, s.number, conn))]
    case SweepCache(readAt) => [Swept(readAt)]
    case CancelApproval(key) => [Cancelled(key)]
    case _ => []
  }

  function EventsAt(s: State, step: Step): seq<Event<nat>> {
    if Enabled(s, step) then EventsOf(s, step) else []
  }

  function Events(steps: seq<Step>): seq<Event<nat>> {
    if steps == [] then [] else
      var n := |steps| - 1;
      Events(steps[..n]) + EventsAt(Gate.Exec(steps[..n]), steps[n])
  }

  ghost predicate PlainConns(conns: map<string, Conn>) {
    forall conn :: conn in conns ==> '\0' !in conns[conn].ip
  }

  lemma {:induction false} AlwaysPlain(steps: seq<Step>)
    ensures PlainConns(Gate.Exec(steps).conns)
  {
    if steps != [] {
      AlwaysPlain(steps[..|steps| - 1]);
    }
  }

  lemma ApplyEvents(s: State, step: Step, events: seq<Event<nat>>)
    requires Enabled(s, step) && s.cache == DecisionCache.Exec(events)
    ensures CacheAfter(s, step) == DecisionCache.Exec(events + EventsOf(s, step))
  {
    if EventsOf(s, step) == [] {
      assert events + [] == events;
    } else {
      assert (events + EventsOf(s, step))[..|events|] == events;
    }
  }

  lemma {:induction false} CacheIsRun(steps: seq<Step>)
    ensures Gate.Exec(steps).cache == DecisionCache.Exec(Events(steps))
  {
    if steps != [] {
      var n := |steps| - 1;
      var s := Gate.Exec(steps[..n]);
      CacheIsRun(steps[..n]);
      if Enabled(s, steps[n]) {
        ApplyEvents(s, steps[n], Events(steps[..n]));
      } else {
        assert Events(steps[..n]) + [] == Events(steps[..n]);
      }
    }
  }

  lemma {:induction false} EventsAreInOrder(steps: seq<Step>)
    ensures SweptBy(Events(steps), Gate.Exec(steps).now) && PlainAddresses(Events(steps))
  {
    if steps != [] {
      var n := |steps| - 1;
      var s, step := Gate.Exec(steps[..n]), steps[n];
      EventsAreInOrder(steps[..n]);
      if Enabled(s, step) && step.StoreRuling? {
        AlwaysPlain(steps[..n]);
        DeskAlwaysOk(steps[..n]);
        assert RulingAt(s.desk, s.conns, step.req);
      }
    }
  }

  /** On every run, a check is answered with the latest uncancelled write for the
      address and rule of the connection, strictly before its deadline. */
  lemma GateCheckIsLatest(steps: seq<Step>, conn: string)
    requires conn in Gate.Exec(steps).conns
    ensures var s := Gate.Exec(steps);
            CachedFor(s, conn) == InForce(Latest(Events(steps), s.conns[conn].ip, s.conns[conn].rule), s.now)
  {
    var s, events := Gate.Exec(steps), Events(steps);
    var c := s.conns[conn];
    assert s.cache == DecisionCache.Exec(events) by {
      CacheIsRun(steps);
    }
    assert SweptBy(events, s.now) && PlainAddresses(events) by {
      EventsAreInOrder(steps);
    }
    assert '\0' !in c.ip by {
      AlwaysPlain(steps);
    }
    CheckIsLatest(events, c.ip, c.rule, s.now);
  }

  // ---- The latest write, found among the steps ----

  /** Step `k` writes a decision for this address and rule. */
  predicate StoresAt(steps: seq<Step>, k: nat, ip: string, rule: string) {
    && k < |steps| && steps[k].StoreRuling? && Enabled(Gate.Exec(steps[..k]), steps[k])
    && var r := Gate.Exec(steps[..k]).desk.rulings[steps[k].req]; r.ip == ip && r.rule == rule
  }

  /** What that step writes: the decision and its deadline. */
  function WrittenAt(steps: seq<Step>, k: nat): (bool, int)
    requires k < |steps| && steps[k].StoreRuling? && Enabled(Gate.Exec(steps[..k]), steps[k])
  {
    var r := Gate.Exec(steps[..k]).desk.rulings[steps[k].req];
    (r.allowed, steps[k].readAt + Lifetime(r.seconds))
  }

  predicate CancelsAt(steps: seq<Step>, k: nat, ip: string, rule: string) {
    k < |steps| && steps[k] == CancelApproval(BuildKey(ip, rule))
  }

  /** Step `k` writes or cancels a decision for this address and rule. */
  predicate TouchesAt(steps: seq<Step>, k: nat, ip: string, rule: string) {
    StoresAt(steps, k, ip, rule) || CancelsAt(steps, k, ip, rule)
  }

  lemma LatestAfter(steps: seq<Step>, ip: string, rule: string)
    requires steps != []
    ensures var n := |steps| - 1;
            Latest(Events(steps), ip, rule) ==
              if StoresAt(steps, n, ip, rule) then Some(WrittenAt(steps, n))
              else if CancelsAt(steps, n, ip, rule) then None
              else Latest(Events(steps[..n]), ip, rule)
  {
    var n := |steps| - 1;
    var s, before := Gate.Exec(steps[..n]), Events(steps[..n]);
    var more := EventsAt(s, steps[n]);
    if more == [] {
      assert before + more == before;
    } else {
      assert (before + more)[..|before|] == before;
    }
  }

  lemma SameInPrefix(steps: seq<Step>, n: nat, k: nat, ip: string, rule: string)
    requires k < n <= |steps|
    ensures StoresAt(steps[..n], k, ip, rule) <==> StoresAt(steps, k, ip, rule)
    ensures CancelsAt(steps[..n], k, ip, rule) <==> CancelsAt(steps, k, ip, rule)
    ensures StoresAt(steps, k, ip, rule) ==> WrittenAt(steps[..n], k) == WrittenAt(steps, k)
  {
    assert steps[..n][..k] == steps[..k];
  }

  /** Nothing after step `k` touches the decision for this address and rule. */
  ghost predicate QuietSince(steps: seq<Step>, k: nat, ip: string, rule: string) {
    forall m :: k < m < |steps| ==> !TouchesAt(steps, m, ip, rule)
  }

  lemma QuietIff(steps: seq<Step>, n: nat, k: nat, ip: string, rule: string)
    requires k < n && |steps| == n + 1
    ensures QuietSince(steps, k, ip, rule) <==> QuietSince(steps[..n], k, ip, rule) && !TouchesAt(steps, n, ip, rule)
  {
    forall m | k < m < n
      ensures TouchesAt(steps[..n], m, ip, rule) <==> TouchesAt(steps, m, ip, rule)
    {
      SameInPrefix(steps, n, m, ip, rule);
    }
  }

  /** The latest write is a step of the run that nothing touched since. */
  lemma {:induction false} LatestIsStore(steps: seq<Step>, ip: string, rule: string) returns (k: nat)
    requires Latest(Events(steps), ip, rule).Some?
    ensures StoresAt(steps, k, ip, rule) && QuietSince(steps, k, ip, rule)
    ensures Latest(Events(steps), ip, rule) == Some(WrittenAt(steps, k))
    decreases |steps|
  {
    var n := |steps| - 1;
    LatestAfter(steps, ip, rule);
    if StoresAt(steps, n, ip, rule) {
      k := n;
    } else {
      k := LatestIsStore(steps[..n], ip, rule);
      SameInPrefix(steps, n, k, ip, rule);
      QuietIff(steps, n, k, ip, rule);
    }
  }

  /** Conversely, a write that nothing touched since is the latest. */
  lemma {:induction false} StoreIsLatest(steps: seq<Step>, k: nat, ip: string, rule: string)
    requires StoresAt(steps, k, ip, rule) && QuietSince(steps, k, ip, rule)
    ensures Latest(Events(steps), ip, rule) == Some(WrittenAt(steps, k))
    decreases |steps|
  {
    var n := |steps| - 1;
    if k == n {
      LatestAfter(steps, ip, rule);
    } else {
      QuietIff(steps, n, k, ip, rule);
      assert Latest(Events(steps), ip, rule) == Latest(Events(steps[..n]), ip, rule) by {
        LatestAfter(steps, ip, rule);
      }
      assert StoresAt(steps[..n], k, ip, rule) && WrittenAt(steps[..n], k) == WrittenAt(steps, k) by {
        SameInPrefix(steps, n, k, ip, rule);
      }
      StoreIsLatest(steps[..n], k, ip, rule);
    }
  }

  /** After a cancellation, and no write since, there is none. */
  lemma NoneAfterCancel(steps: seq<Step>, k: nat, ip: string, rule: string)
    requires CancelsAt(steps, k, ip, rule) && forall m :: k < m < |steps| ==> !StoresAt(steps, m, ip, rule)
    ensures Latest(Events(steps), ip, rule) == None
  {
    if Latest(Events(steps), ip, rule).Some? {
      var w := LatestIsStore(steps, ip, rule);
      assert TouchesAt(steps, k, ip, rule);
    }
  }
}
