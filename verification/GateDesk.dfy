/**
 What every interleaving keeps of the approval desk: the caps, the ownership of
 requests, and that each admitted request frees its slot exactly once.
 */
module GateDesk {
  import opened Pending
  import opened Gate

  predicate AtDesk(p: Phase) {
    p.Waiting? || p.Woken?
  }

  /** A pending request is its waiting connection's own, undecided and unfreed. */
  ghost predicate PendingAt(desk: Desk, conns: map<string, Conn>, req: string) {
    req in desk.pending ==>
      && req in desk.owner && desk.owner[req] in conns
      && req !in desk.rulings && req !in desk.freed
      && var c := conns[desk.owner[req]];
         desk.pending[req] == Request(req, c.proxy, c.ip, c.rule) && AtDesk(c.phase) && c.phase.req == req
  }

  /** A ruling carries the address and rule of the connection that asked. */
  ghost predicate RulingAt(desk: Desk, conns: map<string, Conn>, req: string) {
    && (req in desk.sent || req in desk.stored ==> req in desk.rulings)
    && (req in desk.rulings ==>
          && req in desk.owner && desk.owner[req] in conns && req in desk.freed
          && desk.rulings[req].ip == conns[desk.owner[req]].ip
          && desk.rulings[req].rule == conns[desk.owner[req]].rule)
  }

  /** A connection at the desk owns its request; a grant rests on an allowing ruling. */
  ghost predicate WaiterAt(desk: Desk, conns: map<string, Conn>, conn: string) {
    conn in conns && AtDesk(conns[conn].phase) ==>
      var p := conns[conn].phase;
      && p.req in desk.owner && desk.owner[p.req] == conn
      && (p.Waiting? ==> p.req in desk.pending || p.req in desk.rulings)
      && (p.Woken? && p.granted ==>
            p.req in desk.rulings && desk.rulings[p.req].allowed && desk.rulings[p.req].caches == p.caches)
  }

  /** A slot is held or has been freed, and is freed once. */
  ghost predicate SlotsOk(desk: Desk) {
    && (forall req :: req in desk.owner <==> req in desk.pending || req in desk.freed)
    && (forall i, j :: 0 <= i < j < |desk.freed| ==> desk.freed[i] != desk.freed[j])
  }

  ghost predicate DeskOk(desk: Desk, conns: map<string, Conn>) {
    && (forall req :: PendingAt(desk, conns, req))
    && (forall req :: RulingAt(desk, conns, req))
    && (forall conn :: WaiterAt(desk, conns, conn))
    && SlotsOk(desk)
  }

  /** Connections away from the desk may come and move on without touching it. */
  lemma AwayFromDesk(desk: Desk, conns: map<string, Conn>, conn: string, c: Conn)
    requires DeskOk(desk, conns) && !AtDesk(c.phase)
    requires conn in conns ==> !AtDesk(conns[conn].phase) && conns[conn].(phase := c.phase) == c
    ensures DeskOk(desk, conns[conn := c])
  {
    var after := conns[conn := c];
    forall req
      ensures PendingAt(desk, after, req) && RulingAt(desk, after, req)
    {
      assert PendingAt(desk, conns, req) && RulingAt(desk, conns, req);
    }
    forall k
      ensures WaiterAt(desk, after, k)
    {
      assert WaiterAt(desk, conns, k);
    }
  }

  lemma AdmitKeeps(desk: Desk, desk': Desk, conns: map<string, Conn>, conn: string, req: string)
    requires DeskOk(desk, conns) && conn in conns && !AtDesk(conns[conn].phase) && req !in desk.owner
    requires var c := conns[conn];
             desk' == desk.(pending := desk.pending[req := Request(req, c.proxy, c.ip, c.rule)], owner := desk.owner[req := conn],
                            byIp := desk'.byIp, byProxy := desk'.byProxy)
    ensures DeskOk(desk', conns[conn := conns[conn].(phase := Waiting(req))])
  {
    var c := conns[conn];
    var conns' := conns[conn := c.(phase := Waiting(req))];
    forall k
      ensures PendingAt(desk', conns', k) && RulingAt(desk', conns', k)
    {
      assert PendingAt(desk, conns, k) && RulingAt(desk, conns, k);
    }
    forall k
      ensures WaiterAt(desk', conns', k)
    {
      assert WaiterAt(desk, conns, k);
    }
  }

  /** Taking a request off the desk keeps the books of slots. */
  lemma FreeKeepsSlots(desk: Desk, req: string)
    requires SlotsOk(desk) && (req in desk.pending ==> req !in desk.freed)
    ensures SlotsOk(Free(desk, req))
    ensures forall r :: r in Free(desk, req).freed <==> r in desk.freed || (r == req && req in desk.pending)
  {
    if req in desk.pending {
      var after := Free(desk, req);
      assert after.freed[|desk.freed|] == req;
      assert forall i :: 0 <= i < |desk.freed| ==> after.freed[i] == desk.freed[i];
    }
  }

  lemma RulingKeeps(desk: Desk, conns: map<string, Conn>, req: string, ruling: Ruling)
    requires DeskOk(desk, conns) && req in desk.pending
    requires ruling.ip == desk.pending[req].sourceIp && ruling.rule == desk.pending[req].ruleId
    ensures DeskOk(Free(desk, req).(rulings := desk.rulings[req := ruling]), conns)
  {
    var after := Free(desk, req).(rulings := desk.rulings[req := ruling]);
    assert PendingAt(desk, conns, req);
    FreeKeepsSlots(desk, req);
    forall k
      ensures PendingAt(after, conns, k) && RulingAt(after, conns, k)
    {
      assert PendingAt(desk, conns, k) && RulingAt(desk, conns, k);
    }
    forall k
      ensures WaiterAt(after, conns, k)
    {
      assert WaiterAt(desk, conns, k);
    }
  }

  /** Waking a waiter, by a ruling or by the clock. */
  lemma WakingKeeps(desk: Desk, conns: map<string, Conn>, conn: string, granted: bool, caches: bool)
    requires DeskOk(desk, conns) && conn in conns && conns[conn].phase.Waiting?
    requires var req := conns[conn].phase.req;
             granted ==> req in desk.rulings && desk.rulings[req].allowed && desk.rulings[req].caches == caches
    ensures DeskOk(desk, conns[conn := conns[conn].(phase := Woken(conns[conn].phase.req, granted, caches))])
  {
    var after := conns[conn := conns[conn].(phase := Woken(conns[conn].phase.req, granted, caches))];
    forall k
      ensures PendingAt(desk, after, k) && RulingAt(desk, after, k)
    {
      assert PendingAt(desk, conns, k) && RulingAt(desk, conns, k);
    }
    forall k
      ensures WaiterAt(desk, after, k)
    {
      assert WaiterAt(desk, conns, k);
    }
  }

  /** The woken waiter's own clean-up; the ruling may have freed the slot already. */
  lemma FreeKeeps(desk: Desk, conns: map<string, Conn>, conn: string)
    requires DeskOk(desk, conns) && conn in conns && conns[conn].phase.Woken?
    ensures DeskOk(Free(desk, conns[conn].phase.req), conns)
    ensures conns[conn].phase.req !in Free(desk, conns[conn].phase.req).pending
  {
    var req := conns[conn].phase.req;
    var after := Free(desk, req);
    assert WaiterAt(desk, conns, conn);
    assert PendingAt(desk, conns, req);
    FreeKeepsSlots(desk, req);
    forall k
      ensures PendingAt(after, conns, k) && RulingAt(after, conns, k)
    {
      assert PendingAt(desk, conns, k) && RulingAt(desk, conns, k);
    }
    forall k
      ensures WaiterAt(after, conns, k)
    {
      assert WaiterAt(desk, conns, k);
    }
  }

  lemma LeaveKeeps(desk: Desk, conns: map<string, Conn>, conn: string, phase: Phase)
    requires DeskOk(desk, conns) && conn in conns && conns[conn].phase.Woken? && !AtDesk(phase)
    requires conns[conn].phase.req !in desk.pending
    ensures DeskOk(desk, conns[conn := conns[conn].(phase := phase)])
  {
    var after := conns[conn := conns[conn].(phase := phase)];
    forall k
      ensures PendingAt(desk, after, k) && RulingAt(desk, after, k)
    {
      assert PendingAt(desk, conns, k) && RulingAt(desk, conns, k);
    }
    forall k
      ensures WaiterAt(desk, after, k)
    {
      assert WaiterAt(desk, conns, k);
    }
  }

  /** Waking a waiter and writing the cache only add to what is known of a ruling. */
  lemma NotingKeeps(desk: Desk, conns: map<string, Conn>, req: string)
    requires DeskOk(desk, conns) && req in desk.rulings
    ensures DeskOk(desk.(sent := desk.sent + {req}), conns)
    ensures DeskOk(desk.(stored := desk.stored + {req}), conns)
  {
    var sent, stored := desk.(sent := desk.sent + {req}), desk.(stored := desk.stored + {req});
    forall k
      ensures PendingAt(sent, conns, k) && RulingAt(sent, conns, k) && WaiterAt(sent, conns, k)
      ensures PendingAt(stored, conns, k) && RulingAt(stored, conns, k) && WaiterAt(stored, conns, k)
    {
      assert PendingAt(desk, conns, k) && RulingAt(desk, conns, k) && WaiterAt(desk, conns, k);
    }
  }

  lemma NextKeepsDesk(s: State, step: Step)
    requires DeskOk(s.desk, s.conns) && Enabled(s, step)
    ensures DeskOk(DeskAfter(s, step), ConnsAfter(s, step))
  {
    var desk, conns := s.desk, s.conns;
    if step.Ask? {
      if Admits(desk, RequestOf(s, step.conn, step.req)) {
        AdmitKeeps(desk, DeskAfter(s, step), conns, step.conn, step.req);
      } else {
        AwayFromDesk(desk, conns, step.conn, conns[step.conn].(phase := Refused));
      }
    } else if step.Resolve? {
      var r := desk.pending[step.req];
      RulingKeeps(desk, conns, step.req, Ruling(r.sourceIp, r.ruleId, step.allowed, step.seconds, step.caches, s.now));
    } else if step.Send? || step.StoreRuling? {
      NotingKeeps(desk, conns, step.req);
    } else if step.Wake? {
      var ruling := desk.rulings[conns[step.conn].phase.req];
      WakingKeeps(desk, conns, step.conn, ruling.allowed, ruling.caches);
    } else if step.TimeOut? {
      WakingKeeps(desk, conns, step.conn, false, false);
    } else if step.CleanUp? {
      FreeKeeps(desk, conns, step.conn);
      LeaveKeeps(Free(desk, conns[step.conn].phase.req), conns, step.conn, PhaseAfter(s, step));
    } else if step.Arrive? || Moves(step) {
      AwayFromDesk(desk, conns, step.conn, ConnsAfter(s, step)[step.conn]);
    }
  }

  // ---- Counters and caps ----

  /** The counters that admission consults are the true counts. */
  ghost predicate CountersOk(desk: Desk) {
    Exact(desk.byIp, desk.pending, SourceIp) && Exact(desk.byProxy, desk.pending, Proxy)
  }

  lemma FreeKeepsCounters(desk: Desk, req: string)
    requires CountersOk(desk)
    ensures CountersOk(Free(desk, req))
  {
    if req in desk.pending {
      ReleaseStaysExact(desk.byIp, desk.pending, SourceIp, req);
      ReleaseStaysExact(desk.byProxy, desk.pending, Proxy, req);
    }
  }

  lemma NextKeepsCounters(s: State, step: Step)
    requires CountersOk(s.desk) && DeskOk(s.desk, s.conns) && Enabled(s, step)
    ensures CountersOk(DeskAfter(s, step))
  {
    if step.Ask? {
      var r := RequestOf(s, step.conn, step.req);
      assert PendingAt(s.desk, s.conns, step.req);
      FreshStaysExact(s.desk.byIp, s.desk.pending, SourceIp, r);
      if r.proxyId != "" {
        FreshStaysExact(s.desk.byProxy, s.desk.pending, Proxy, r);
      } else {
        UnlabelledStaysExact(s.desk.byProxy, s.desk.pending, r);
      }
    } else if step.Resolve? {
      FreeKeepsCounters(s.desk, step.req);
    } else if step.CleanUp? {
      FreeKeepsCounters(s.desk, s.conns[step.conn].phase.req);
    }
  }

  lemma NextKeepsCaps(s: State, step: Step)
    requires WithinCaps(s.desk.pending) && CountersOk(s.desk) && Enabled(s, step)
    ensures WithinCaps(DeskAfter(s, step).pending)
  {
    if step.Ask? {
      var r := RequestOf(s, step.conn, step.req);
      FitsIffRoom(s.desk.pending, s.desk.byIp, s.desk.byProxy, r);
      AdmitWithinCaps(s.desk.pending, r);
    } else if step.Resolve? {
      ReleaseWithinCaps(s.desk.pending, step.req);
    } else if step.CleanUp? {
      ReleaseWithinCaps(s.desk.pending, s.conns[step.conn].phase.req);
    }
  }

  /** In every state of every run the counters are the true counts and the caps
      hold, each pending request belongs to a connection that waits for it, and
      each admitted request either holds its slot or has freed it, once. */
  lemma {:induction false} DeskAlwaysOk(steps: seq<Step>)
    ensures var s := Exec(steps); DeskOk(s.desk, s.conns) && CountersOk(s.desk) && WithinCaps(s.desk.pending)
  {
    if steps != [] {
      var n := |steps| - 1;
      var s := Exec(steps[..n]);
      DeskAlwaysOk(steps[..n]);
      if Enabled(s, steps[n]) {
        NextKeepsDesk(s, steps[n]);
        NextKeepsCounters(s, steps[n]);
        NextKeepsCaps(s, steps[n]);
      }
    }
  }

  /** On every run a request is admitted exactly when the three true counts are
      below their caps. */
  lemma AdmittedIffRoom(steps: seq<Step>, conn: string, req: string)
    requires Enabled(Exec(steps), Ask(conn, req))
    ensures var s := Exec(steps);
            req in Next(s, Ask(conn, req)).desk.pending <==> Room(s.desk.pending, RequestOf(s, conn, req))
  {
    var s := Exec(steps);
    DeskAlwaysOk(steps);
    assert PendingAt(s.desk, s.conns, req);
    FitsIffRoom(s.desk.pending, s.desk.byIp, s.desk.byProxy, RequestOf(s, conn, req));
  }

  lemma PendingHasWaiter(steps: seq<Step>, req: string) returns (conn: string)
    requires req in Exec(steps).desk.pending
    ensures conn in Exec(steps).conns && AtDesk(Exec(steps).conns[conn].phase)
  {
    DeskAlwaysOk(steps);
    assert PendingAt(Exec(steps).desk, Exec(steps).conns, req);
    conn := Exec(steps).desk.owner[req];
  }

  /** No slot leaks: once no connection is at the desk, nothing is pending. */
  lemma NoSlotLeaks(steps: seq<Step>)
    requires forall conn :: conn in Exec(steps).conns ==> !AtDesk(Exec(steps).conns[conn].phase)
    ensures Exec(steps).desk.pending == map[]
  {
    if req :| req in Exec(steps).desk.pending {
      var conn := PendingHasWaiter(steps, req);
    }
  }

  /** Step `i` is a decision on `req` that finds it pending: the call returns true. */
  predicate Decides(steps: seq<Step>, i: nat, req: string) {
    i < |steps| && steps[i].Resolve? && steps[i].req == req && req in Exec(steps[..i]).desk.pending
  }

  lemma FreedStays(s: State, step: Step, req: string)
    requires Enabled(s, step) && req in s.desk.freed
    ensures req in DeskAfter(s, step).freed
  {
  }

  lemma {:induction false} DecidedStaysFreed(steps: seq<Step>, i: nat, req: string)
    requires Decides(steps, i, req)
    ensures req in Exec(steps).desk.freed
    decreases |steps|
  {
    var n := |steps| - 1;
    var s := Exec(steps[..n]);
    if i < n {
      assert steps[..n][..i] == steps[..i];
      DecidedStaysFreed(steps[..n], i, req);
      if Enabled(s, steps[n]) {
        FreedStays(s, steps[n], req);
      }
    } else {
      assert DeskAfter(s, steps[n]).freed == s.desk.freed + [req];
    }
  }

  /** At most one decision per request succeeds. */
  lemma OneDecisionEach(steps: seq<Step>, i: nat, j: nat, req: string)
    requires i < j && Decides(steps, i, req)
    ensures !Decides(steps, j, req)
  {
    if j < |steps| {
      assert steps[..j][..i] == steps[..i];
      DecidedStaysFreed(steps[..j], i, req);
      DeskAlwaysOk(steps[..j]);
      assert PendingAt(Exec(steps[..j]).desk, Exec(steps[..j]).conns, req);
    }
  }
}
