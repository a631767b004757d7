/**
 Calls on the global rules that overlap.

 The engine and the deadlines have a lock each. An addition takes the first for
 the engine and, for a temporary rule, the second for the deadline; a removal
 takes both in turn; a sweep collects the expired ids under the second and drops
 them later, holding the first until the deadlines are gone too. Every such
 section is a step, and a run is any interleaving of the steps of any calls.
 */
module GlobalRuns {
  import opened Options
  import opened Matching
  import opened RuleEngine
  import opened GlobalRules

  datatype Sweeper =
    | Idle
    | Collected(ids: set<string>, at: int)
    | Dropping(ids: set<string>)              // holds the lock of the engine

  datatype Global = Global(
    matchers: seq<Matcher>,
    deadlines: map<string, int>,
    adding: map<nat, GlobalRule>,             // additions whose deadline is still to come
    removing: map<nat, string>,               // removals whose deadline is still to go
    sweeper: Sweeper)

  const START := Global([], map[], map[], map[], Idle)

  datatype Step =
    | AddEngine(call: nat, rule: GlobalRule)
    | AddDeadline(call: nat)
    | RemoveEngine(call: nat, id: string)
    | RemoveDeadline(call: nat)
    | Collect(now: int)
    | DropEngine
    | DropDeadlines

  predicate Enabled(s: Global, step: Step) {
    match step
    case AddEngine(call, _) => call !in s.adding && call !in s.removing && !s.sweeper.Dropping?
    case AddDeadline(call) => call in s.adding
    case RemoveEngine(call, _) => call !in s.adding && call !in s.removing && !s.sweeper.Dropping?
    case RemoveDeadline(call) => call in s.removing
    case Collect(_) => s.sweeper.Idle?
    case DropEngine => s.sweeper.Collected?
    case DropDeadlines => s.sweeper.Dropping?
  }

  function MatchersAfter(t: Texts, s: Global, step: Step): seq<Matcher>
    requires Enabled(s, step)
  {
    match step
    case AddEngine(_, rule) => AddTo(t, s.matchers, rule.AsRule())
    case RemoveEngine(_, id) => RemoveFrom(t, s.matchers, {id})
    case DropEngine => if Shrinks(s) then RemoveFrom(t, s.matchers, s.sweeper.ids) else s.matchers
    case _ => s.matchers
  }

  /** The collected ids name some rule of the engine. */
  predicate Shrinks(s: Global)
    requires s.sweeper.Collected?
  {
    |Without(s.matchers, s.sweeper.ids)| < |s.matchers|
  }

  function DeadlinesAfter(s: Global, step: Step): map<string, int>
    requires Enabled(s, step)
  {
    match step
    case AddDeadline(call) =>
      var g := s.adding[call];
      if g.Temporary() then s.deadlines[g.id := g.expiresAt.value] else s.deadlines
    case RemoveDeadline(call) => s.deadlines - {s.removing[call]}
    case DropDeadlines => s.deadlines - s.sweeper.ids
    case _ => s.deadlines
  }

  function SweeperAfter(s: Global, step: Step): Sweeper
    requires Enabled(s, step)
  {
    match step
    case Collect(now) => Collected(Expired(s.deadlines, now), now)
    case DropEngine => if Shrinks(s) then Dropping(s.sweeper.ids) else Idle
    case DropDeadlines => Idle
    case _ => s.sweeper
  }

  function Next(t: Texts, s: Global, step: Step): Global {
    if Enabled(s, step) then
      Global(
        MatchersAfter(t, s, step),
        DeadlinesAfter(s, step),
        if step.AddEngine? && step.rule.Temporary() then s.adding[step.call := step.rule]
        else if step.AddDeadline? then s.adding - {step.call} else s.adding,
        if step.RemoveEngine? then s.removing[step.call := step.id]
        else if step.RemoveDeadline? then s.removing - {step.call} else s.removing,
        SweeperAfter(s, step))
    else s
  }

  function Exec(t: Texts, steps: seq<Step>): Global {
    if steps == [] then START else Next(t, Exec(t, steps[..|steps| - 1]), steps[|steps| - 1])
  }

  predicate EnabledAt(t: Texts, steps: seq<Step>, i: nat) {
    i < |steps| && Enabled(Exec(t, steps[..i]), steps[i])
  }

  // ---- Calls that do not overlap are the calls of GlobalRules ----

  function Core(s: Global): State {
    State(s.matchers, s.deadlines)
  }

  lemma AdditionAlone(t: Texts, s: Global, call: nat, g: GlobalRule)
    requires Enabled(s, AddEngine(call, g))
    ensures Core(Next(t, Next(t, s, AddEngine(call, g)), AddDeadline(call))) == Add(t, Core(s), g)
  {
  }

  lemma RemovalAlone(t: Texts, s: Global, call: nat, id: string)
    requires Enabled(s, RemoveEngine(call, id))
    ensures Core(Next(t, Next(t, s, RemoveEngine(call, id)), RemoveDeadline(call))) == Remove(t, Core(s), id)
  {
  }

  lemma SweepAlone(t: Texts, s: Global, now: int)
    requires s.sweeper.Idle?
    ensures Core(Next(t, Next(t, Next(t, s, Collect(now)), DropEngine), DropDeadlines)) == Sweep(t, Core(s), now)
  {
    var a := Next(t, s, Collect(now));
    assert a == s.(sweeper := Collected(Expired(s.deadlines, now), now));
  }

  // ---- What every interleaving keeps of the engine ----

  /** A drop takes exactly the ids that were collected, whatever calls came in
      between, leaves the other rules in their order, and changes only verdicts
      of the rules it takes. */
  lemma DropTakesCollected(t: Texts, s: Global, q: Query)
    requires InOrder(t, s.matchers) && s.sweeper.Collected?
    ensures var after, ids := MatchersAfter(t, s, DropEngine), s.sweeper.ids;
            && after == Without(s.matchers, ids) && Ids(after) == Ids(s.matchers) - ids
            && var verdict := FirstMatch(t, s.matchers, q);
               (verdict.None? || verdict.value.id !in ids ==> FirstMatch(t, after, q) == verdict)
  {
    var ids := s.sweeper.ids;
    WithoutShorter(s.matchers, ids);
    RemoveIsWithout(t, s.matchers, ids);
    IdsOfWithout(s.matchers, ids);
    RemovalFrame(t, s.matchers, ids, q);
  }

  function PutBy(step: Step): set<string> {
    if step.AddEngine? then {step.rule.id} else {}
  }

  function TakenBy(s: Global, step: Step): set<string> {
    if step.RemoveEngine? then {step.id}
    else if step.DropEngine? && s.sweeper.Collected? then s.sweeper.ids
    else {}
  }

  lemma NextEngine(t: Texts, s: Global, step: Step)
    requires InOrder(t, s.matchers) && Enabled(s, step)
    ensures InOrder(t, MatchersAfter(t, s, step))
    ensures Ids(MatchersAfter(t, s, step)) == Ids(s.matchers) - TakenBy(s, step) + PutBy(step)
  {
    if step.AddEngine? {
      AddedIds(t, s.matchers, step.rule.AsRule());
    } else if step.RemoveEngine? {
      RemovedIds(t, s.matchers, {step.id});
    } else if step.DropEngine? {
      DropTakesCollected(t, s, Query(V4(0), None));
      WithoutKeeps(t, s.matchers, s.sweeper.ids);
    }
  }

  lemma {:induction false} AlwaysInOrder(t: Texts, steps: seq<Step>)
    ensures InOrder(t, Exec(t, steps).matchers)
  {
    if steps != [] {
      var n := |steps| - 1;
      AlwaysInOrder(t, steps[..n]);
      if Enabled(Exec(t, steps[..n]), steps[n]) {
        NextEngine(t, Exec(t, steps[..n]), steps[n]);
      }
    }
  }

  /** The step gives this id a deadline. */
  predicate GivesAt(t: Texts, steps: seq<Step>, i: nat, id: string) {
    && EnabledAt(t, steps, i) && steps[i].AddDeadline?
    && var g := Exec(t, steps[..i]).adding[steps[i].call]; g.id == id && g.Temporary()
  }

  function GivenAt(t: Texts, steps: seq<Step>, i: nat): int
    requires EnabledAt(t, steps, i) && steps[i].AddDeadline? && Exec(t, steps[..i]).adding[steps[i].call].Temporary()
  {
    Exec(t, steps[..i]).adding[steps[i].call].expiresAt.value
  }

  /** The step clears the deadline of this id. */
  predicate ClearsAt(t: Texts, steps: seq<Step>, i: nat, id: string) {
    && EnabledAt(t, steps, i)
    && var s := Exec(t, steps[..i]);
       || (steps[i].RemoveDeadline? && s.removing[steps[i].call] == id)
       || (steps[i].DropDeadlines? && id in s.sweeper.ids)
  }

  predicate PutsAt(t: Texts, steps: seq<Step>, i: nat, id: string) {
    EnabledAt(t, steps, i) && id in PutBy(steps[i])
  }

  predicate TakesAt(t: Texts, steps: seq<Step>, i: nat, id: string) {
    EnabledAt(t, steps, i) && id in TakenBy(Exec(t, steps[..i]), steps[i])
  }

  ghost predicate NotTakenSince(t: Texts, steps: seq<Step>, a: nat, id: string) {
    forall m :: a < m < |steps| ==> !TakesAt(t, steps, m, id)
  }

  lemma SameInPrefix(t: Texts, steps: seq<Step>, n: nat, i: nat, id: string)
    requires i < n <= |steps|
    ensures EnabledAt(t, steps[..n], i) <==> EnabledAt(t, steps, i)
    ensures PutsAt(t, steps[..n], i, id) <==> PutsAt(t, steps, i, id)
    ensures TakesAt(t, steps[..n], i, id) <==> TakesAt(t, steps, i, id)
    ensures GivesAt(t, steps[..n], i, id) <==> GivesAt(t, steps, i, id)
    ensures ClearsAt(t, steps[..n], i, id) <==> ClearsAt(t, steps, i, id)
    ensures GivesAt(t, steps, i, id) ==> GivenAt(t, steps[..n], i) == GivenAt(t, steps, i)
  {
    assert steps[..n][..i] == steps[..i];
  }

  lemma NotTakenIff(t: Texts, steps: seq<Step>, n: nat, a: nat, id: string)
    requires a < n && |steps| == n + 1
    ensures NotTakenSince(t, steps, a, id) <==> NotTakenSince(t, steps[..n], a, id) && !TakesAt(t, steps, n, id)
  {
    forall m | a < m < n
      ensures TakesAt(t, steps[..n], m, id) <==> TakesAt(t, steps, m, id)
    {
      SameInPrefix(t, steps, n, m, id);
    }
  }

  lemma {:induction false} PutAndKept(t: Texts, steps: seq<Step>, id: string) returns (a: nat)
    requires id in Ids(Exec(t, steps).matchers)
    ensures PutsAt(t, steps, a, id) && NotTakenSince(t, steps, a, id)
    decreases |steps|
  {
    var n := |steps| - 1;
    var s := Exec(t, steps[..n]);
    AlwaysInOrder(t, steps[..n]);
    if Enabled(s, steps[n]) {
      NextEngine(t, s, steps[n]);
    }
    if PutsAt(t, steps, n, id) {
      a := n;
    } else {
      a := PutAndKept(t, steps[..n], id);
      SameInPrefix(t, steps, n, a, id);
      NotTakenIff(t, steps, n, a, id);
    }
  }

  /** A rule is in the engine exactly when some step put it there and none has
      taken it since. */
  lemma {:induction false} PresentIff(t: Texts, steps: seq<Step>, id: string)
    ensures id in Ids(Exec(t, steps).matchers) <==> exists a :: PutsAt(t, steps, a, id) && NotTakenSince(t, steps, a, id)
  {
    if steps != [] {
      var n := |steps| - 1;
      var s := Exec(t, steps[..n]);
      PresentIff(t, steps[..n], id);
      AlwaysInOrder(t, steps[..n]);
      if Enabled(s, steps[n]) {
        NextEngine(t, s, steps[n]);
      }
      if id in Ids(Exec(t, steps).matchers) {
        var a := PutAndKept(t, steps, id);
      }
      if a: nat :| PutsAt(t, steps, a, id) && NotTakenSince(t, steps, a, id) {
        if a < n {
          SameInPrefix(t, steps, n, a, id);
          NotTakenIff(t, steps, n, a, id);
        }
      }
    }
  }

  // ---- Where a deadline comes from ----

  ghost predicate QuietSince(t: Texts, steps: seq<Step>, d: nat, id: string) {
    forall m :: d < m < |steps| ==> !GivesAt(t, steps, m, id) && !ClearsAt(t, steps, m, id)
  }

  lemma QuietIff(t: Texts, steps: seq<Step>, n: nat, d: nat, id: string)
    requires d < n && |steps| == n + 1
    ensures QuietSince(t, steps, d, id) <==>
              QuietSince(t, steps[..n], d, id) && !GivesAt(t, steps, n, id) && !ClearsAt(t, steps, n, id)
  {
    forall m | d < m < n
      ensures GivesAt(t, steps[..n], m, id) <==> GivesAt(t, steps, m, id)
      ensures ClearsAt(t, steps[..n], m, id) <==> ClearsAt(t, steps, m, id)
    {
      SameInPrefix(t, steps, n, m, id);
    }
  }

  function DeadlineOf(s: Global, id: string): Option<int> {
    if id in s.deadlines then Some(s.deadlines[id]) else None
  }

  lemma DeadlineAfter(t: Texts, steps: seq<Step>, n: nat, id: string)
    requires |steps| == n + 1
    ensures GivesAt(t, steps, n, id) ==> DeadlineOf(Exec(t, steps), id) == Some(GivenAt(t, steps, n))
    ensures ClearsAt(t, steps, n, id) ==> DeadlineOf(Exec(t, steps), id) == None
    ensures !GivesAt(t, steps, n, id) && !ClearsAt(t, steps, n, id) ==>
              DeadlineOf(Exec(t, steps), id) == DeadlineOf(Exec(t, steps[..n]), id)
  {
  }

  /** While nothing touches it, a deadline stays what it was. */
  lemma {:induction false} QuietKeeps(t: Texts, steps: seq<Step>, d: nat, id: string)
    requires d < |steps| && QuietSince(t, steps, d, id)
    ensures DeadlineOf(Exec(t, steps), id) == DeadlineOf(Exec(t, steps[..d + 1]), id)
    decreases |steps|
  {
    var n := |steps| - 1;
    if d == n {
      assert steps[..d + 1] == steps;
    } else {
      QuietIff(t, steps, n, d, id);
      DeadlineAfter(t, steps, n, id);
      QuietKeeps(t, steps[..n], d, id);
      assert steps[..n][..d + 1] == steps[..d + 1];
    }
  }

  lemma TouchStands(t: Texts, steps: seq<Step>, d: nat, id: string)
    requires d < |steps| && QuietSince(t, steps, d, id)
    ensures GivesAt(t, steps, d, id) ==> DeadlineOf(Exec(t, steps), id) == Some(GivenAt(t, steps, d))
    ensures ClearsAt(t, steps, d, id) ==> DeadlineOf(Exec(t, steps), id) == None
  {
    QuietKeeps(t, steps, d, id);
    DeadlineAfter(t, steps[..d + 1], d, id);
    SameInPrefix(t, steps, d + 1, d, id);
  }

  /** The deadline an id has was given by a temporary addition, and nothing has
      given or cleared one since. */
  lemma {:induction false} DeadlineIsGiven(t: Texts, steps: seq<Step>, id: string) returns (d: nat)
    requires id in Exec(t, steps).deadlines
    ensures GivesAt(t, steps, d, id) && QuietSince(t, steps, d, id) && Exec(t, steps).deadlines[id] == GivenAt(t, steps, d)
    decreases |steps|
  {
    var n := |steps| - 1;
    DeadlineAfter(t, steps, n, id);
    if GivesAt(t, steps, n, id) {
      d := n;
    } else {
      d := DeadlineIsGiven(t, steps[..n], id);
      SameInPrefix(t, steps, n, d, id);
      QuietIff(t, steps, n, d, id);
    }
  }

  // ---- What a drop takes ----

  lemma {:induction false} CollectedAtStep(t: Texts, steps: seq<Step>) returns (c: nat)
    requires Exec(t, steps).sweeper.Collected?
    ensures EnabledAt(t, steps, c) && steps[c] == Collect(Exec(t, steps).sweeper.at)
    ensures Exec(t, steps).sweeper.ids == Expired(Exec(t, steps[..c]).deadlines, Exec(t, steps).sweeper.at)
    decreases |steps|
  {
    var n := |steps| - 1;
    var s := Exec(t, steps[..n]);
    if Enabled(s, steps[n]) && steps[n].Collect? {
      c := n;
    } else {
      assert Exec(t, steps).sweeper == s.sweeper;
      c := CollectedAtStep(t, steps[..n]);
      assert steps[..n][..c] == steps[..c];
    }
  }

  /** On every interleaving: what a drop takes had, when it was collected, a
      deadline that a temporary addition had given and that had passed. */
  lemma SweptHadDeadline(t: Texts, steps: seq<Step>, id: string) returns (c: nat, d: nat)
    requires Enabled(Exec(t, steps), DropEngine)
    requires id in Ids(Exec(t, steps).matchers) && id !in Ids(Next(t, Exec(t, steps), DropEngine).matchers)
    ensures var at := Exec(t, steps).sweeper.at;
            && d < c < |steps| && steps[c] == Collect(at)
            && GivesAt(t, steps, d, id) && GivenAt(t, steps, d) < at && QuietSince(t, steps[..c], d, id)
  {
    var s := Exec(t, steps);
    AlwaysInOrder(t, steps);
    DropTakesCollected(t, s, Query(V4(0), None));
    c := CollectedAtStep(t, steps);
    d := DeadlineIsGiven(t, steps[..c], id);
    SameInPrefix(t, steps, c, d, id);
  }

  lemma {:induction false} LastTouch(t: Texts, steps: seq<Step>, c: nat, id: string) returns (m: nat)
    requires c < |steps| && !QuietSince(t, steps, c, id)
    ensures c < m < |steps| && (GivesAt(t, steps, m, id) || ClearsAt(t, steps, m, id)) && QuietSince(t, steps, m, id)
    decreases |steps|
  {
    var n := |steps| - 1;
    if GivesAt(t, steps, n, id) || ClearsAt(t, steps, n, id) {
      m := n;
    } else {
      QuietIff(t, steps, n, c, id);
      m := LastTouch(t, steps[..n], c, id);
      SameInPrefix(t, steps, n, m, id);
      QuietIff(t, steps, n, m, id);
    }
  }

  /** A collected id still has a deadline that has passed exactly when nothing
      touched its deadline since it was collected, or the last to do so gave it
      another one that has passed. Otherwise a rule of this id that is there at the
      drop was renewed, or was removed and put back, in the meantime. */
  lemma StillExpiredIff(t: Texts, steps: seq<Step>, id: string) returns (c: nat)
    requires Exec(t, steps).sweeper.Collected? && id in Exec(t, steps).sweeper.ids
    ensures c < |steps| && steps[c] == Collect(Exec(t, steps).sweeper.at)
    ensures id in Expired(Exec(t, steps).deadlines, Exec(t, steps).sweeper.at) <==>
              || QuietSince(t, steps, c, id)
              || exists m :: c < m && GivesAt(t, steps, m, id) && QuietSince(t, steps, m, id)
                             && GivenAt(t, steps, m) < Exec(t, steps).sweeper.at
  {
    c := CollectedAtStep(t, steps);
    if QuietSince(t, steps, c, id) {
      QuietKeeps(t, steps, c, id);
      assert steps[..c + 1][..c] == steps[..c];
    } else {
      var m := LastTouch(t, steps, c, id);
      TouchStands(t, steps, m, id);
    }
  }

  // ---- When deadlines name rules ----

  /** A removal that has taken the rule is still to clear the deadline. */
  ghost predicate Doomed(s: Global, id: string) {
    || (exists call :: call in s.removing && s.removing[call] == id)
    || (s.sweeper.Dropping? && id in s.sweeper.ids)
  }

  ghost predicate Backed(s: Global, id: string) {
    id in Ids(s.matchers) || Doomed(s, id)
  }

  /** Every deadline names a rule that is there, or is about to be cleared. */
  ghost predicate Accounted(s: Global) {
    forall id :: id in s.deadlines ==> Backed(s, id)
  }

  lemma NextBacked(t: Texts, s: Global, step: Step, id: string)
    requires InOrder(t, s.matchers) && Enabled(s, step) && Backed(s, id)
    ensures Backed(Next(t, s, step), id) || id !in DeadlinesAfter(s, step)
  {
    var s' := Next(t, s, step);
    NextEngine(t, s, step);
    if id in Ids(s.matchers) {
      if step.RemoveEngine? && step.id == id {
        assert s'.removing[step.call] == id;
      }
    } else if call :| call in s.removing && s.removing[call] == id {
      if step != RemoveDeadline(call) {
        assert call in s'.removing && s'.removing[call] == id;
      }
    }
  }

  /** Every step keeps this, but for the second half of an addition, which does so
      exactly when the rule is still there or another removal of it is half done. */
  lemma NextAccountedIff(t: Texts, s: Global, step: Step)
    requires InOrder(t, s.matchers) && Accounted(s) && Enabled(s, step)
    ensures Accounted(Next(t, s, step)) <==>
              (step.AddDeadline? && s.adding[step.call].Temporary() ==> Backed(s, s.adding[step.call].id))
  {
    var s' := Next(t, s, step);
    if step.AddDeadline? {
      assert s'.matchers == s.matchers && s'.removing == s.removing && s'.sweeper == s.sweeper;
      assert forall id :: Backed(s', id) <==> Backed(s, id);
      if s.adding[step.call].Temporary() {
        assert s.adding[step.call].id in s'.deadlines;
      }
    } else {
      forall id | id in s'.deadlines
        ensures Backed(s', id)
      {
        assert id in s.deadlines;
        NextBacked(t, s, step, id);
      }
    }
  }

  ghost predicate GivenToBacked(t: Texts, steps: seq<Step>, i: nat) {
    forall id :: GivesAt(t, steps, i, id) ==> Backed(Exec(t, steps[..i]), id)
  }

  /** Over whole runs: deadlines are always accounted for exactly when every
      second half of an addition finds its rule there, or half removed. */
  lemma {:induction false} AlwaysAccountedIff(t: Texts, steps: seq<Step>)
    ensures (forall n :: 0 <= n <= |steps| ==> Accounted(Exec(t, steps[..n])))
            <==> forall i :: 0 <= i < |steps| ==> GivenToBacked(t, steps, i)
  {
    if forall i :: 0 <= i < |steps| ==> GivenToBacked(t, steps, i) {
      forall n | 0 <= n <= |steps|
        ensures Accounted(Exec(t, steps[..n]))
      {
        BackedIsAccounted(t, steps, n);
      }
    }
    if forall n :: 0 <= n <= |steps| ==> Accounted(Exec(t, steps[..n])) {
      forall i | 0 <= i < |steps|
        ensures GivenToBacked(t, steps, i)
      {
        assert Accounted(Exec(t, steps[..i])) && Accounted(Exec(t, steps[..i + 1]));
        AccountedIsBacked(t, steps, i);
      }
    }
  }

  lemma {:induction false} BackedIsAccounted(t: Texts, steps: seq<Step>, n: nat)
    requires n <= |steps| && forall i :: 0 <= i < |steps| ==> GivenToBacked(t, steps, i)
    ensures Accounted(Exec(t, steps[..n]))
  {
    if n > 0 {
      var s, step := Exec(t, steps[..n - 1]), steps[n - 1];
      BackedIsAccounted(t, steps, n - 1);
      assert steps[..n][..n - 1] == steps[..n - 1];
      AlwaysInOrder(t, steps[..n - 1]);
      if Enabled(s, step) {
        assert GivenToBacked(t, steps, n - 1);
        if step.AddDeadline? && s.adding[step.call].Temporary() {
          assert GivesAt(t, steps, n - 1, s.adding[step.call].id);
        }
        NextAccountedIff(t, s, step);
      }
    }
  }

  lemma AccountedIsBacked(t: Texts, steps: seq<Step>, i: nat)
    requires i < |steps| && Accounted(Exec(t, steps[..i])) && Accounted(Exec(t, steps[..i + 1]))
    ensures GivenToBacked(t, steps, i)
  {
    assert steps[..i + 1][..i] == steps[..i];
    AlwaysInOrder(t, steps[..i]);
    if EnabledAt(t, steps, i) {
      NextAccountedIff(t, Exec(t, steps[..i]), steps[i]);
    }
  }

  /** No call is half done. */
  predicate Finished(s: Global) {
    s.adding == map[] && s.removing == map[] && !s.sweeper.Dropping?
  }

  lemma FinishedIsSound(t: Texts, s: Global)
    requires InOrder(t, s.matchers) && Finished(s)
    ensures Sound(t, Core(s)) <==> Accounted(s)
  {
    assert forall id :: Backed(s, id) <==> id in Ids(s.matchers);
  }

  /** Steps `a` and `d` are the two halves of one addition. */
  ghost predicate Halves(t: Texts, steps: seq<Step>, a: nat, d: nat) {
    && a < d && EnabledAt(t, steps, a) && EnabledAt(t, steps, d) && steps[a].AddEngine? && steps[a].rule.Temporary()
    && steps[d] == AddDeadline(steps[a].call) && Exec(t, steps[..d]).adding[steps[a].call] == steps[a].rule
  }

  lemma {:induction false} AddingHasStep(t: Texts, steps: seq<Step>, call: nat) returns (a: nat)
    requires call in Exec(t, steps).adding
    ensures EnabledAt(t, steps, a) && steps[a] == AddEngine(call, Exec(t, steps).adding[call])
    ensures Exec(t, steps).adding[call].Temporary()
    decreases |steps|
  {
    var n := |steps| - 1;
    var s := Exec(t, steps[..n]);
    if Enabled(s, steps[n]) && steps[n].AddEngine? && steps[n].call == call {
      a := n;
    } else {
      assert call in s.adding && s.adding[call] == Exec(t, steps).adding[call];
      a := AddingHasStep(t, steps[..n], call);
      assert steps[..n][..a] == steps[..a];
    }
  }

  /** No rule is taken between the two halves of its addition. */
  ghost predicate Undisturbed(t: Texts, steps: seq<Step>) {
    forall a: nat, d: nat, m: nat :: Halves(t, steps, a, d) && a < m < d ==> !TakesAt(t, steps, m, steps[a].rule.id)
  }

  /** If no removal and no drop of a rule falls between the two halves of its
      addition, deadlines name rules that are there whenever no call is half done. */
  lemma UndisturbedIsSound(t: Texts, steps: seq<Step>)
    requires Undisturbed(t, steps)
    ensures Accounted(Exec(t, steps)) && (Finished(Exec(t, steps)) ==> Sound(t, Core(Exec(t, steps))))
  {
    forall i | 0 <= i < |steps|
      ensures GivenToBacked(t, steps, i)
    {
      forall id | GivesAt(t, steps, i, id)
        ensures Backed(Exec(t, steps[..i]), id)
      {
        UndisturbedIsBacked(t, steps, i, id);
      }
    }
    BackedIsAccounted(t, steps, |steps|);
    assert steps[..|steps|] == steps;
    AlwaysInOrder(t, steps);
    if Finished(Exec(t, steps)) {
      FinishedIsSound(t, Exec(t, steps));
    }
  }

  lemma UndisturbedIsBacked(t: Texts, steps: seq<Step>, d: nat, id: string)
    requires Undisturbed(t, steps) && GivesAt(t, steps, d, id)
    ensures id in Ids(Exec(t, steps[..d]).matchers)
  {
    var a := AddingHasStep(t, steps[..d], steps[d].call);
    assert steps[..d][..a] == steps[..a];
    assert Halves(t, steps, a, d);
    forall m | a < m < d
      ensures !TakesAt(t, steps[..d], m, id)
    {
      SameInPrefix(t, steps, d, m, id);
    }
    assert PutsAt(t, steps[..d], a, id);
    PresentIff(t, steps[..d], id);
  }

  /** When no call is half done: deadlines name rules that are there exactly when
      every deadline given and not cleared since belongs to a rule put in and not
      taken since. */
  lemma SoundIff(t: Texts, steps: seq<Step>)
    requires Finished(Exec(t, steps))
    ensures Sound(t, Core(Exec(t, steps))) <==>
              forall d: nat, id :: GivesAt(t, steps, d, id) && QuietSince(t, steps, d, id) ==>
                exists a :: PutsAt(t, steps, a, id) && NotTakenSince(t, steps, a, id)
  {
    var s := Exec(t, steps);
    AlwaysInOrder(t, steps);
    forall d: nat, id | GivesAt(t, steps, d, id) && QuietSince(t, steps, d, id)
      ensures id in s.deadlines
      ensures id in Ids(s.matchers) <==> exists a :: PutsAt(t, steps, a, id) && NotTakenSince(t, steps, a, id)
    {
      TouchStands(t, steps, d, id);
      PresentIff(t, steps, id);
    }
    forall id | id in s.deadlines
      ensures exists d: nat :: GivesAt(t, steps, d, id) && QuietSince(t, steps, d, id)
    {
      var d := DeadlineIsGiven(t, steps, id);
    }
  }

  // ---- When a temporary rule keeps its deadline ----

  /** While a drop holds the engine, none of the rules it took is there. */
  ghost predicate Spared(s: Global) {
    s.sweeper.Dropping? ==> Ids(s.matchers) !! s.sweeper.ids
  }

  /** A drop never clears the deadline of a rule that is there: nothing is put into
      the engine between its two halves. */
  lemma {:induction false} DropSparesPresent(t: Texts, steps: seq<Step>)
    ensures Spared(Exec(t, steps))
  {
    if steps != [] {
      var n := |steps| - 1;
      var s, step := Exec(t, steps[..n]), steps[n];
      DropSparesPresent(t, steps[..n]);
      AlwaysInOrder(t, steps[..n]);
      if Enabled(s, step) {
        NextEngine(t, s, step);
      }
    }
  }

  /** A removal under way began with taking the rule, and has been under way since. */
  lemma {:induction false} RemovingHasStep(t: Texts, steps: seq<Step>, call: nat) returns (e: nat)
    requires call in Exec(t, steps).removing
    ensures EnabledAt(t, steps, e) && steps[e] == RemoveEngine(call, Exec(t, steps).removing[call])
    ensures forall j :: e < j <= |steps| ==> call in Exec(t, steps[..j]).removing
                                             && Exec(t, steps[..j]).removing[call] == Exec(t, steps).removing[call]
    decreases |steps|
  {
    var n := |steps| - 1;
    var s := Exec(t, steps[..n]);
    assert steps[..|steps|] == steps;
    if Enabled(s, steps[n]) && steps[n].RemoveEngine? && steps[n].call == call {
      e := n;
    } else {
      assert call in s.removing && s.removing[call] == Exec(t, steps).removing[call];
      e := RemovingHasStep(t, steps[..n], call);
      assert steps[..n][..e] == steps[..e];
      forall j | e < j <= |steps|
        ensures call in Exec(t, steps[..j]).removing && Exec(t, steps[..j]).removing[call] == Exec(t, steps).removing[call]
      {
        if j <= n {
          assert steps[..n][..j] == steps[..j];
        }
      }
    }
  }

  /** A drop under way began with taking its rules, and nothing was put into the
      engine since. */
  lemma {:induction false} DroppingHasStep(t: Texts, steps: seq<Step>) returns (e: nat)
    requires Exec(t, steps).sweeper.Dropping?
    ensures EnabledAt(t, steps, e) && steps[e].DropEngine? && Exec(t, steps[..e]).sweeper.ids == Exec(t, steps).sweeper.ids
    ensures forall j :: e < j < |steps| ==> !(EnabledAt(t, steps, j) && steps[j].AddEngine?)
    decreases |steps|
  {
    var n := |steps| - 1;
    var s := Exec(t, steps[..n]);
    if Enabled(s, steps[n]) && steps[n].DropEngine? {
      e := n;
    } else {
      assert s.sweeper == Exec(t, steps).sweeper;
      e := DroppingHasStep(t, steps[..n]);
      assert steps[..n][..e] == steps[..e];
      forall j | e < j < |steps|
        ensures !(EnabledAt(t, steps, j) && steps[j].AddEngine?)
      {
        if j < n {
          assert steps[..n][..j] == steps[..j];
          assert !(EnabledAt(t, steps[..n], j) && steps[..n][j].AddEngine?);
        }
      }
    }
  }

  /** A removal of this id has taken the rule and is still to clear the deadline. */
  ghost predicate HalfRemoved(s: Global, id: string) {
    exists call :: call in s.removing && s.removing[call] == id
  }

  /** A rule still there since it was put in by an addition whose deadline was given
      when no removal of it was half done: nothing clears that deadline. */
  lemma NotCleared(t: Texts, steps: seq<Step>, a: nat, d: nat, m: nat)
    requires Halves(t, steps, a, d) && d < m < |steps| && NotTakenSince(t, steps, a, steps[a].rule.id)
    requires !HalfRemoved(Exec(t, steps[..d]), steps[a].rule.id)
    ensures !ClearsAt(t, steps, m, steps[a].rule.id)
  {
    var id := steps[a].rule.id;
    assert steps[..m][..d] == steps[..d] && steps[..m][..a] == steps[..a];
    assert EnabledAt(t, steps[..m], a);
    if ClearsAt(t, steps, m, id) {
      var e := ClearFollowsTake(t, steps, m, id);
    }
  }

  /** What clears a deadline took the rule before. */
  lemma ClearFollowsTake(t: Texts, steps: seq<Step>, m: nat, id: string) returns (e: nat)
    requires ClearsAt(t, steps, m, id)
    ensures e < m && TakesAt(t, steps, e, id)
    ensures steps[m].RemoveDeadline? ==> forall j :: e < j <= m ==>
              var removing := Exec(t, steps[..m][..j]).removing; steps[m].call in removing && removing[steps[m].call] == id
    ensures steps[m].DropDeadlines? ==> forall j :: e < j < m ==> !(EnabledAt(t, steps[..m], j) && steps[j].AddEngine?)
  {
    if steps[m].RemoveDeadline? {
      e := RemovingHasStep(t, steps[..m], steps[m].call);
    } else {
      e := DroppingHasStep(t, steps[..m]);
    }
    assert steps[..m][..e] == steps[..e];
  }

  /** A temporary rule that is still there keeps the last deadline it was given,
      once no call is half done, exactly when no removal of it was half done as the
      deadline was given. */
  lemma KeepsDeadlineIff(t: Texts, steps: seq<Step>, a: nat, d: nat)
    requires Halves(t, steps, a, d) && Finished(Exec(t, steps))
    requires var id := steps[a].rule.id;
             NotTakenSince(t, steps, a, id) && forall m :: d < m < |steps| ==> !GivesAt(t, steps, m, id)
    ensures var id := steps[a].rule.id;
            id in Exec(t, steps).deadlines <==> !HalfRemoved(Exec(t, steps[..d]), id)
  {
    var id := steps[a].rule.id;
    assert GivesAt(t, steps, d, id);
    if !HalfRemoved(Exec(t, steps[..d]), id) {
      forall m | d < m < |steps|
        ensures !ClearsAt(t, steps, m, id)
      {
        NotCleared(t, steps, a, d, m);
      }
      TouchStands(t, steps, d, id);
    } else {
      var call :| call in Exec(t, steps[..d]).removing && Exec(t, steps[..d]).removing[call] == id;
      var m := RemovalEnds(t, steps, d, call);
      assert ClearsAt(t, steps, m, id);
      var last := LastTouch(t, steps, d, id);
      TouchStands(t, steps, last, id);
    }
  }

  /** A removal under way at some point, and over at the end, cleared the deadline
      in between. */
  lemma {:induction false} RemovalEnds(t: Texts, steps: seq<Step>, d: nat, call: nat) returns (m: nat)
    requires d <= |steps| && call in Exec(t, steps[..d]).removing && call !in Exec(t, steps).removing
    ensures d <= m < |steps| && EnabledAt(t, steps, m) && steps[m] == RemoveDeadline(call)
    ensures Exec(t, steps[..m]).removing[call] == Exec(t, steps[..d]).removing[call]
    decreases |steps| - d
  {
    assert d < |steps| by {
      assert steps[..|steps|] == steps;
    }
    var s := Exec(t, steps[..d]);
    assert steps[..d + 1][..d] == steps[..d];
    if Enabled(s, steps[d]) && steps[d] == RemoveDeadline(call) {
      m := d;
    } else {
      assert call in Exec(t, steps[..d + 1]).removing && Exec(t, steps[..d + 1]).removing[call] == s.removing[call];
      m := RemovalEnds(t, steps, d + 1, call);
    }
  }

  // ---- What goes wrong otherwise ----

  /** A removal between the two halves of an addition leaves a deadline that names
      no rule. */
  lemma SplitAddition(t: Texts, s: Global, g: GlobalRule, a: nat, b: nat)
    requires InOrder(t, s.matchers) && Finished(s) && g.Temporary() && a != b
    ensures var put := Next(t, s, AddEngine(a, g));
            var removed := Next(t, Next(t, put, RemoveEngine(b, g.id)), RemoveDeadline(b));
            var s' := Next(t, removed, AddDeadline(a));
            Finished(s') && g.id in s'.deadlines && g.id !in Ids(s'.matchers) && !Sound(t, Core(s'))
  {
    var put := Next(t, s, AddEngine(a, g));
    NextEngine(t, s, AddEngine(a, g));
    NextEngine(t, put, RemoveEngine(b, g.id));
    var taken := Next(t, put, RemoveEngine(b, g.id));
    assert taken.removing == map[b := g.id] && taken.adding == map[a := g];
    var removed := Next(t, taken, RemoveDeadline(b));
    assert removed.removing == map[] && removed.adding == map[a := g];
  }

  /** A removal that clears the deadline after the rule was put back leaves a
      temporary rule without a deadline, which no sweep will take. */
  lemma LateRemoval(t: Texts, s: Global, g: GlobalRule, a: nat, b: nat)
    requires InOrder(t, s.matchers) && Finished(s) && g.Temporary() && a != b
    ensures var taken := Next(t, s, RemoveEngine(b, g.id));
            var given := Next(t, Next(t, taken, AddEngine(a, g)), AddDeadline(a));
            var s' := Next(t, given, RemoveDeadline(b));
            Finished(s') && g.id in Ids(s'.matchers) && g.id !in s'.deadlines
  {
    var taken := Next(t, s, RemoveEngine(b, g.id));
    NextEngine(t, s, RemoveEngine(b, g.id));
    NextEngine(t, taken, AddEngine(a, g));
    var put := Next(t, taken, AddEngine(a, g));
    assert put.adding == map[a := g] && put.removing == map[b := g.id];
    var given := Next(t, put, AddDeadline(a));
    assert given.adding == map[] && given.removing == map[b := g.id];
  }

  /** A rule removed and put back for good after it was collected is dropped,
      although it has no deadline. */
  lemma PutBackIsDropped(t: Texts, s: Global, g: GlobalRule, a: nat, b: nat)
    requires InOrder(t, s.matchers) && Finished(s) && s.sweeper.Collected? && g.id in s.sweeper.ids && !g.Temporary()
    ensures var removed := Next(t, Next(t, s, RemoveEngine(a, g.id)), RemoveDeadline(a));
            var put := Next(t, removed, AddEngine(b, g));
            && g.id in Ids(put.matchers) && g.id !in put.deadlines
            && g.id !in Ids(Next(t, put, DropEngine).matchers)
  {
    var taken := Next(t, s, RemoveEngine(a, g.id));
    var removed := Next(t, taken, RemoveDeadline(a));
    NextEngine(t, s, RemoveEngine(a, g.id));
    NextEngine(t, removed, AddEngine(b, g));
    NextEngine(t, Next(t, removed, AddEngine(b, g)), DropEngine);
  }

  /** A rule renewed after it was collected is dropped, although its new deadline
      lies ahead. */
  lemma RenewalIsLost(t: Texts, s: Global, g: GlobalRule, a: nat)
    requires InOrder(t, s.matchers) && Finished(s) && s.sweeper.Collected? && g.id in s.sweeper.ids
    requires g.Temporary() && g.expiresAt.value >= s.sweeper.at
    ensures var renewed := Next(t, Next(t, s, AddEngine(a, g)), AddDeadline(a));
            && g.id in Ids(renewed.matchers) && g.id !in Expired(renewed.deadlines, s.sweeper.at)
            && g.id !in Ids(Next(t, renewed, DropEngine).matchers)
  {
    var put := Next(t, s, AddEngine(a, g));
    NextEngine(t, s, AddEngine(a, g));
    NextEngine(t, Next(t, put, AddDeadline(a)), DropEngine);
  }
}
