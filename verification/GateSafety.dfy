/**
 Gate safety: on every run, a connection whose rule requires approval gets past
 the gate only on the strength of an allowing decision: on its own request, or
 on one for its address and rule that was in the cache, neither cancelled nor
 overwritten nor expired, when the connection was checked.
 */
module GateSafety {
  import opened Options
  import opened Pending
  import opened DecisionCache
  import opened Gate
  import opened GateDesk
  import opened GateCache

  // ---- Where things come from ----

  predicate EnabledAt(steps: seq<Step>, i: nat, step: Step) {
    i < |steps| && steps[i] == step && Enabled(Gate.Exec(steps[..i]), step)
  }

  /** Step `i` is the decision that `ruling` records. */
  ghost predicate RulesAt(steps: seq<Step>, i: nat, req: string, ruling: Ruling) {
    && Decides(steps, i, req)
    && var s := Gate.Exec(steps[..i]);
       var r := s.desk.pending[req];
       ruling == Ruling(r.sourceIp, r.ruleId, steps[i].allowed, steps[i].seconds, steps[i].caches, s.now)
  }

  lemma {:induction false} RulingHasStep(steps: seq<Step>, req: string) returns (i: nat)
    requires req in Gate.Exec(steps).desk.rulings
    ensures RulesAt(steps, i, req, Gate.Exec(steps).desk.rulings[req])
    decreases |steps|
  {
    var n := |steps| - 1;
    var s := Gate.Exec(steps[..n]);
    if Enabled(s, steps[n]) && steps[n].Resolve? && steps[n].req == req {
      i := n;
    } else {
      assert req in s.desk.rulings && s.desk.rulings[req] == Gate.Exec(steps).desk.rulings[req];
      i := RulingHasStep(steps[..n], req);
      assert steps[..n][..i] == steps[..i];
    }
  }

  lemma {:induction false} OwnerHasAsked(steps: seq<Step>, req: string) returns (a: nat)
    requires req in Gate.Exec(steps).desk.owner
    ensures EnabledAt(steps, a, Ask(Gate.Exec(steps).desk.owner[req], req))
    decreases |steps|
  {
    var n := |steps| - 1;
    var s := Gate.Exec(steps[..n]);
    if Enabled(s, steps[n]) && steps[n].Ask? && steps[n].req == req {
      a := n;
    } else {
      assert req in s.desk.owner && s.desk.owner[req] == Gate.Exec(steps).desk.owner[req];
      a := OwnerHasAsked(steps[..n], req);
      assert steps[..n][..a] == steps[..a];
    }
  }

  // ---- The step that lets a connection through ----

  /** Past the gate there are two ways for a connection that needs approval. */
  lemma TwoWaysPast(s: State, step: Step, conn: string)
    requires Enabled(s, step) && conn in ConnsAfter(s, step)
    requires ConnsAfter(s, step)[conn].action.RequireApproval? && ConnsAfter(s, step)[conn].phase.Passed()
    ensures conn in s.conns && s.conns[conn].(phase := ConnsAfter(s, step)[conn].phase) == ConnsAfter(s, step)[conn]
    ensures || s.conns[conn].phase.Passed()
            || (step == CheckCache(conn) && CachedFor(s, conn).Some? && CachedFor(s, conn).value.allowed)
            || (step == CleanUp(conn) && s.conns[conn].phase.granted)
  {
  }

  /** At step `j` the connection is let in: by a cached allow that the cache holds
      at that moment, or by a grant. */
  ghost predicate LetInAt(steps: seq<Step>, j: nat, conn: string, ip: string, rule: string) {
    && j < |steps|
    && var s := Gate.Exec(steps[..j]);
       && conn in s.conns && s.conns[conn].ip == ip && s.conns[conn].rule == rule
       && (|| (EnabledAt(steps, j, CheckCache(conn)) && CachedFor(s, conn).Some? && CachedFor(s, conn).value.allowed)
           || (EnabledAt(steps, j, CleanUp(conn)) && s.conns[conn].phase.granted))
  }

  lemma {:induction false} PassedAtStep(steps: seq<Step>, conn: string) returns (j: nat)
    requires var s := Gate.Exec(steps);
             conn in s.conns && s.conns[conn].action.RequireApproval? && s.conns[conn].phase.Passed()
    ensures LetInAt(steps, j, conn, Gate.Exec(steps).conns[conn].ip, Gate.Exec(steps).conns[conn].rule)
    decreases |steps|
  {
    var n := |steps| - 1;
    var s, step := Gate.Exec(steps[..n]), steps[n];
    if Enabled(s, step) {
      TwoWaysPast(s, step, conn);
    }
    if s.conns[conn].phase.Passed() {
      j := PassedAtStep(steps[..n], conn);
      assert steps[..n][..j] == steps[..j];
    } else {
      j := n;
    }
  }

  // ---- Why it was let in ----

  /** Step `i` allows a pending request for this address and rule. */
  ghost predicate AllowsAt(steps: seq<Step>, i: nat, req: string, ip: string, rule: string) {
    && Decides(steps, i, req) && steps[i].allowed
    && var r := Gate.Exec(steps[..i]).desk.pending[req]; r.sourceIp == ip && r.ruleId == rule
  }

  /** The connection's check at step `j` was answered by the decision of step `i`,
      which step `k` had written to the cache: since then nothing had overwritten
      or cancelled it, and it had not expired. */
  ghost predicate ByCache(steps: seq<Step>, i: nat, k: nat, j: nat, conn: string, ip: string, rule: string) {
    && i < k < j && EnabledAt(steps, j, CheckCache(conn))
    && (var s := Gate.Exec(steps[..j]);
        s.conns[conn].ip == ip && s.conns[conn].rule == rule && CachedFor(s, conn).Some? && CachedFor(s, conn).value.allowed)
    && StoresAt(steps, k, ip, rule) && AllowsAt(steps, i, steps[k].req, ip, rule) && steps[i].caches
    && QuietSince(steps[..j], k, ip, rule)
    && Gate.Exec(steps[..j]).now < steps[k].readAt + Lifetime(steps[i].seconds)
  }

  /** The connection made the request at step `a`, step `i` allowed it, and the
      connection went on at step `j`. */
  ghost predicate ByOwnRequest(steps: seq<Step>, a: nat, i: nat, j: nat, conn: string, ip: string, rule: string) {
    && a < i < j && i < |steps| && steps[i].Resolve?
    && EnabledAt(steps, a, Ask(conn, steps[i].req))
    && AllowsAt(steps, i, steps[i].req, ip, rule)
    && EnabledAt(steps, j, CleanUp(conn))
  }

  lemma HitIsSound(steps: seq<Step>, j: nat, conn: string) returns (i: nat, k: nat)
    requires EnabledAt(steps, j, CheckCache(conn))
    requires var cached := CachedFor(Gate.Exec(steps[..j]), conn); cached.Some? && cached.value.allowed
    ensures var c := Gate.Exec(steps[..j]).conns[conn]; ByCache(steps, i, k, j, conn, c.ip, c.rule)
  {
    var before := steps[..j];
    var c := Gate.Exec(before).conns[conn];
    GateCheckIsLatest(before, conn);
    k := LatestIsStore(before, c.ip, c.rule);
    SameInPrefix(steps, j, k, c.ip, c.rule);
    assert before[..k] == steps[..k];
    i := RulingHasStep(steps[..k], steps[k].req);
    assert steps[..k][..i] == steps[..i];
  }

  lemma GrantIsSound(steps: seq<Step>, j: nat, conn: string) returns (a: nat, i: nat)
    requires EnabledAt(steps, j, CleanUp(conn)) && Gate.Exec(steps[..j]).conns[conn].phase.granted
    ensures var c := Gate.Exec(steps[..j]).conns[conn]; ByOwnRequest(steps, a, i, j, conn, c.ip, c.rule)
  {
    var before := steps[..j];
    var s := Gate.Exec(before);
    var req := s.conns[conn].phase.req;
    DeskAlwaysOk(before);
    assert WaiterAt(s.desk, s.conns, conn) && RulingAt(s.desk, s.conns, req);
    i := RulingHasStep(before, req);
    assert before[..i] == steps[..i];
    a := AskedBefore(steps, i, j, req);
  }

  /** A decision comes after the request, which the owner of the request made. */
  lemma AskedBefore(steps: seq<Step>, i: nat, j: nat, req: string) returns (a: nat)
    requires i <= j <= |steps| && Decides(steps, i, req)
    ensures a < i && req in Gate.Exec(steps[..j]).desk.owner
    ensures EnabledAt(steps, a, Ask(Gate.Exec(steps[..j]).desk.owner[req], req))
  {
    DeskAlwaysOk(steps[..i]);
    assert PendingAt(Gate.Exec(steps[..i]).desk, Gate.Exec(steps[..i]).conns, req);
    a := OwnerHasAsked(steps[..i], req);
    assert steps[..i][..a] == steps[..a];
    OwnerStays(steps, i, j, req);
  }

  lemma {:induction false} OwnerStays(steps: seq<Step>, i: nat, j: nat, req: string)
    requires i <= j <= |steps| && req in Gate.Exec(steps[..i]).desk.owner
    ensures req in Gate.Exec(steps[..j]).desk.owner
    ensures Gate.Exec(steps[..j]).desk.owner[req] == Gate.Exec(steps[..i]).desk.owner[req]
    decreases j
  {
    if i < j {
      OwnerStays(steps, i, j - 1, req);
      assert steps[..j][..j - 1] == steps[..j - 1];
      NextKeepsOwner(Gate.Exec(steps[..j - 1]), steps[j - 1], req);
    }
  }

  lemma NextKeepsOwner(s: State, step: Step, req: string)
    requires req in s.desk.owner
    ensures req in Next(s, step).desk.owner && Next(s, step).desk.owner[req] == s.desk.owner[req]
  {
  }

  /** On every run: a connection that requires approval and is past the gate,
      registered and forwarded or yet to be, was let through by a decision that
      allowed a request for its address and rule. The request was its own, or the
      decision was in the cache and in force when the connection was checked. */
  lemma PastGateOnlyIfAllowed(steps: seq<Step>, conn: string)
    requires var s := Gate.Exec(steps);
             conn in s.conns && s.conns[conn].action.RequireApproval? && s.conns[conn].phase.Passed()
    ensures var c := Gate.Exec(steps).conns[conn];
            || (exists i, k, j :: ByCache(steps, i, k, j, conn, c.ip, c.rule))
            || (exists a, i, j :: ByOwnRequest(steps, a, i, j, conn, c.ip, c.rule))
  {
    var c := Gate.Exec(steps).conns[conn];
    var j := PassedAtStep(steps, conn);
    if steps[j] == CheckCache(conn) {
      var i, k := HitIsSound(steps, j, conn);
      assert ByCache(steps, i, k, j, conn, c.ip, c.rule);
    } else {
      var a, i := GrantIsSound(steps, j, conn);
      assert ByOwnRequest(steps, a, i, j, conn, c.ip, c.rule);
    }
  }

  /** Revocation works: after a cancellation, and until the next write for the
      address and rule, no check finds a decision. */
  lemma NoHitAfterCancel(steps: seq<Step>, m: nat, conn: string)
    requires conn in Gate.Exec(steps).conns
    requires var c := Gate.Exec(steps).conns[conn];
             CancelsAt(steps, m, c.ip, c.rule) && forall k :: m < k < |steps| ==> !StoresAt(steps, k, c.ip, c.rule)
    ensures CachedFor(Gate.Exec(steps), conn) == None
  {
    var c := Gate.Exec(steps).conns[conn];
    NoneAfterCancel(steps, m, c.ip, c.rule);
    GateCheckIsLatest(steps, conn);
  }

  /** A later decision supersedes an earlier one: while the latest write stands,
      checks get its answer up to its deadline, and nothing after. */
  lemma LatestWriteDecides(steps: seq<Step>, k: nat, conn: string)
    requires conn in Gate.Exec(steps).conns
    requires var c := Gate.Exec(steps).conns[conn]; StoresAt(steps, k, c.ip, c.rule) && QuietSince(steps, k, c.ip, c.rule)
    ensures CachedFor(Gate.Exec(steps), conn) == InForce(Some(WrittenAt(steps, k)), Gate.Exec(steps).now)
  {
    var c, w := Gate.Exec(steps).conns[conn], WrittenAt(steps, k);
    assert Latest(Events(steps), c.ip, c.rule) == Some(w) by {
      StoreIsLatest(steps, k, c.ip, c.rule);
    }
    GateCheckIsLatest(steps, conn);
  }

  // ---- Outcomes are final ----

  /** A denial, a timeout, a full desk or a cached refusal is final. */
  predicate TurnedAway(s: State, conn: string) {
    conn in s.conns && (s.conns[conn].phase.Refused? || (s.conns[conn].phase.Woken? && !s.conns[conn].phase.granted))
  }

  lemma {:induction false} TurnedAwayForGood(steps: seq<Step>, i: nat, conn: string)
    requires i <= |steps| && TurnedAway(Gate.Exec(steps[..i]), conn)
    ensures TurnedAway(Gate.Exec(steps), conn) && !Gate.Exec(steps).conns[conn].phase.Passed()
    decreases |steps|
  {
    if i == |steps| {
      assert steps[..i] == steps;
    } else {
      var n := |steps| - 1;
      assert steps[..n][..i] == steps[..i];
      TurnedAwayForGood(steps[..n], i, conn);
      NextTurnsAway(Gate.Exec(steps[..n]), steps[n], conn);
    }
  }

  lemma NextTurnsAway(s: State, step: Step, conn: string)
    requires TurnedAway(s, conn)
    ensures TurnedAway(Next(s, step), conn)
    ensures step == CleanUp(conn) ==> Next(s, step).conns[conn].phase.Refused?
    ensures s.conns[conn].phase.Refused? ==> Next(s, step).conns[conn].phase.Refused?
  {
    if Enabled(s, step) {
      assert ConnsAfter(s, step)[conn].phase.Refused? || ConnsAfter(s, step)[conn] == s.conns[conn];
    }
  }

  /** How far a connection has come that was granted its way. */
  function Stage(p: Phase): nat {
    match p
    case Woken(_, granted, _) => if granted then 1 else 0
    case Cleared(_) => 2
    case Registered(_) => 3
    case Serving => 4
    case Closing => 5
    case Ended => 6
    case _ => 0
  }

  lemma NextGoesOn(s: State, step: Step, conn: string)
    requires conn in s.conns && Stage(s.conns[conn].phase) > 0
    ensures conn in Next(s, step).conns && Stage(Next(s, step).conns[conn].phase) >= Stage(s.conns[conn].phase)
    ensures step == CleanUp(conn) ==> Stage(Next(s, step).conns[conn].phase) >= 2
    ensures step == Register(conn) && Stage(s.conns[conn].phase) >= 2 ==> Stage(Next(s, step).conns[conn].phase) >= 3
  {
    if Enabled(s, step) {
      assert conn in ConnsAfter(s, step);
      assert ConnsAfter(s, step)[conn] != s.conns[conn] ==> Moves(step) && step.conn == conn;
    }
  }

  function StageAt(steps: seq<Step>, i: nat, conn: string): nat
    requires i <= |steps|
  {
    var s := Gate.Exec(steps[..i]);
    if conn in s.conns then Stage(s.conns[conn].phase) else 0
  }

  lemma StepGoesOn(steps: seq<Step>, i: nat, conn: string)
    requires i < |steps| && StageAt(steps, i, conn) > 0
    ensures StageAt(steps, i + 1, conn) >= StageAt(steps, i, conn)
    ensures steps[i] == CleanUp(conn) ==> StageAt(steps, i + 1, conn) >= 2
    ensures steps[i] == Register(conn) && StageAt(steps, i, conn) >= 2 ==> StageAt(steps, i + 1, conn) >= 3
  {
    assert steps[..i + 1][..i] == steps[..i];
    NextGoesOn(Gate.Exec(steps[..i]), steps[i], conn);
  }

  lemma {:induction false} GoesOn(steps: seq<Step>, i: nat, j: nat, conn: string)
    requires i <= j <= |steps| && StageAt(steps, i, conn) > 0
    ensures StageAt(steps, j, conn) >= StageAt(steps, i, conn)
    decreases j
  {
    if i < j {
      GoesOn(steps, i, j - 1, conn);
      StepGoesOn(steps, j - 1, conn);
    }
  }

  /** A connection woken by the decision on its request goes the way of the
      decision, whatever other steps come in between: once it has cleaned up and
      registered it is on its way if allowed, and it is refused if not. */
  lemma DecisionIsCarriedOut(steps: seq<Step>, w: nat, c: nat, r: nat, conn: string)
    requires EnabledAt(steps, w, Wake(conn))
    requires w < c < r < |steps| && steps[c] == CleanUp(conn) && steps[r] == Register(conn)
    ensures conn in Gate.Exec(steps).conns
    ensures var s, phase := Gate.Exec(steps[..w]), Gate.Exec(steps).conns[conn].phase;
            if s.desk.rulings[s.conns[conn].phase.req].allowed then Stage(phase) >= 3 else phase.Refused?
  {
    var s := Gate.Exec(steps[..w]);
    var req := s.conns[conn].phase.req;
    assert steps[..w + 1][..w] == steps[..w];
    var woken := Gate.Exec(steps[..w + 1]);
    assert conn in woken.conns && woken.conns[conn].phase == Woken(req, s.desk.rulings[req].allowed, s.desk.rulings[req].caches);
    if s.desk.rulings[req].allowed {
      GoesOnTo(steps, w + 1, c, r, conn);
      assert steps[..|steps|] == steps;
    } else {
      RefusedAt(steps, w + 1, c, conn);
    }
  }

  lemma GoesOnTo(steps: seq<Step>, i: nat, c: nat, r: nat, conn: string)
    requires i <= c < r < |steps| && steps[c] == CleanUp(conn) && steps[r] == Register(conn)
    requires StageAt(steps, i, conn) > 0
    ensures StageAt(steps, |steps|, conn) >= 3
  {
    GoesOn(steps, i, c, conn);
    StepGoesOn(steps, c, conn);
    GoesOn(steps, c + 1, r, conn);
    StepGoesOn(steps, r, conn);
    GoesOn(steps, r + 1, |steps|, conn);
  }

  lemma {:induction false} RefusedAt(steps: seq<Step>, i: nat, c: nat, conn: string)
    requires i <= c < |steps| && steps[c] == CleanUp(conn) && TurnedAway(Gate.Exec(steps[..i]), conn)
    ensures conn in Gate.Exec(steps).conns && Gate.Exec(steps).conns[conn].phase.Refused?
    decreases |steps|
  {
    var n := |steps| - 1;
    assert steps[..n][..i] == steps[..i];
    if c == n {
      TurnedAwayForGood(steps[..n], i, conn);
    } else {
      RefusedAt(steps[..n], i, c, conn);
    }
    NextTurnsAway(Gate.Exec(steps[..n]), steps[n], conn);
  }
}
