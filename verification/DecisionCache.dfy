/**
 Cached approval decisions.

 A decision is kept per source address and rule until its deadline. A background
 sweep drops expired entries; connections that a cached decision let through are
 attached to its entry, so that the entry can report their traffic.

 An entry refers to the byte counters of its live connections; `R` is the type of
 such a reference.
 */
module DecisionCache {
  import opened Options
  import opened Tallies

  const MAX_CONN_IDS_PER_APPROVAL := 1000
  const DEFAULT_DURATION := 300

  datatype Entry<R> = Entry(
    sourceIp: string, ruleId: string, allowed: bool, expiresAt: int,
    closed: Tally,          // traffic of connections that have ended
    live: map<string, R>)   // counters of connections that have not

  type Cache<R> = map<string, Entry<R>>

  datatype Decision = Decision(allowed: bool, remaining: int)

  function BuildKey(sourceIp: string, ruleId: string): string {
    sourceIp + ['\0'] + ruleId
  }

  function Lifetime(seconds: int): (d: int)
    ensures d > 0
  {
    if seconds > 0 then seconds else DEFAULT_DURATION
  }

  function Store<R>(cache: Cache<R>, ip: string, rule: string, allowed: bool, seconds: int, now: int): Cache<R> {
    cache[BuildKey(ip, rule) := Entry(ip, rule, allowed, now + Lifetime(seconds), ZERO, map[])]
  }

  /** The entries that are still in force: what a listing shows. */
  function Visible<R>(cache: Cache<R>, now: int): Cache<R> {
    map key | key in cache && now < cache[key].expiresAt :: cache[key]
  }

  function Check<R>(cache: Cache<R>, ip: string, rule: string, now: int): Option<Decision> {
    var key := BuildKey(ip, rule);
    if key in cache && now < cache[key].expiresAt
    then Some(Decision(cache[key].allowed, cache[key].expiresAt - now))
    else None
  }

  /** What the periodic clean-up leaves. */
  function Sweep<R>(cache: Cache<R>, now: int): Cache<R> {
    Visible(cache, now)
  }

  function Cancel<R>(cache: Cache<R>, key: string): Cache<R> {
    cache - {key}
  }

  predicate CanAttach<R>(cache: Cache<R>, ip: string, rule: string) {
    BuildKey(ip, rule) in cache && |cache[BuildKey(ip, rule)].live| < MAX_CONN_IDS_PER_APPROVAL
  }

  function Attach<R>(cache: Cache<R>, ip: string, rule: string, conn: string, counters: R): Cache<R> {
    var key := BuildKey(ip, rule);
    if CanAttach(cache, ip, rule)
    then cache[key := cache[key].(live := cache[key].live[conn := counters])]
    else cache
  }

  function Detach<R>(cache: Cache<R>, ip: string, rule: string, conn: string, final: Tally): Cache<R> {
    var key := BuildKey(ip, rule);
    if key in cache && conn in cache[key].live
    then cache[key := cache[key].(live := cache[key].live - {conn}, closed := cache[key].closed.Plus(final))]
    else cache
  }

  // ---- Keys ----

  /** Two keys coincide exactly when the pairs do, or when one address runs on
      over a NUL into what the other pair has as its rule. */
  lemma KeysCollideIff(ip1: string, rule1: string, ip2: string, rule2: string)
    requires |ip1| <= |ip2|
    ensures BuildKey(ip1, rule1) == BuildKey(ip2, rule2) <==>
              (ip1 == ip2 && rule1 == rule2) ||
              (|ip1| < |ip2| && ip2[..|ip1| + 1] == ip1 + ['\0'] && rule1 == ip2[|ip1| + 1..] + ['\0'] + rule2)
  {
    var n := |ip1|;
    var a, b := BuildKey(ip1, rule1), BuildKey(ip2, rule2);
    assert a[..n + 1] == ip1 + ['\0'] && a[n + 1..] == rule1;
    if n < |ip2| {
      assert b[..n + 1] == ip2[..n + 1];
      assert b[n + 1..] == ip2[n + 1..] + ['\0'] + rule2;
    } else {
      assert b[..n + 1] == ip2 + ['\0'] && b[n + 1..] == rule2;
      assert a[..n] == ip1 && b[..n] == ip2;
    }
    assert a == a[..n + 1] + a[n + 1..];
    assert b == b[..n + 1] + b[n + 1..];
  }

  /** Address text never holds a NUL, so no two pairs share a key. */
  lemma KeysDistinct(ip1: string, rule1: string, ip2: string, rule2: string)
    requires '\0' !in ip1 && '\0' !in ip2
    ensures BuildKey(ip1, rule1) == BuildKey(ip2, rule2) ==> ip1 == ip2 && rule1 == rule2
  {
    if |ip1| <= |ip2| {
      KeysCollideIff(ip1, rule1, ip2, rule2);
      assert |ip1| < |ip2| ==> ip2[..|ip1| + 1][|ip1|] == ip2[|ip1|];
    } else {
      KeysCollideIff(ip2, rule2, ip1, rule1);
      assert ip1[..|ip2| + 1][|ip2|] == ip1[|ip2|];
    }
  }

  /** With a NUL in an address a decision reaches another address. */
  lemma NulCollides()
    ensures BuildKey("a", ['b', '\0', 'c']) == BuildKey(['a', '\0', 'b'], "c")
  {
  }

  // ---- Runs ----

  datatype Event<R> =
    | Stored(ip: string, rule: string, allowed: bool, seconds: int, at: int)
    | Cancelled(key: string)
    | Attached(ip: string, rule: string, conn: string, counters: R)
    | Detached(ip: string, rule: string, conn: string, final: Tally)
    | Swept(at: int)

  function Apply<R>(cache: Cache<R>, e: Event<R>): Cache<R> {
    match e
    case Stored(ip, rule, allowed, seconds, at) => Store(cache, ip, rule, allowed, seconds, at)
    case Cancelled(key) => Cancel(cache, key)
    case Attached(ip, rule, conn, counters) => Attach(cache, ip, rule, conn, counters)
    case Detached(ip, rule, conn, final) => Detach(cache, ip, rule, conn, final)
    case Swept(at) => Sweep(cache, at)
  }

  function Exec<R>(events: seq<Event<R>>): Cache<R> {
    if events == [] then map[] else Apply(Exec(events[..|events| - 1]), events[|events| - 1])
  }

  /** No sweep of the run reads a clock later than `now`. */
  predicate SweptBy<R>(events: seq<Event<R>>, now: int) {
    forall i :: 0 <= i < |events| && events[i].Swept? ==> events[i].at <= now
  }

  /** The reference: the latest write for this address and rule that no
      cancellation followed, with its deadline. Sweeps, attachments and the
      layout of keys play no part. */
  function Latest<R>(events: seq<Event<R>>, ip: string, rule: string): Option<(bool, int)> {
    if events == [] then None else
      var e := events[|events| - 1];
      if e.Stored? && e.ip == ip && e.rule == rule then Some((e.allowed, e.at + Lifetime(e.seconds)))
      else if e.Cancelled? && e.key == BuildKey(ip, rule) then None
      else Latest(events[..|events| - 1], ip, rule)
  }

  /** What a write, with its deadline, answers at a time. */
  function InForce(written: Option<(bool, int)>, now: int): Option<Decision> {
    if written.Some? && now < written.value.1 then Some(Decision(written.value.0, written.value.1 - now)) else None
  }

  predicate PlainAddresses<R>(events: seq<Event<R>>) {
    forall i :: 0 <= i < |events| && events[i].Stored? ==> '\0' !in events[i].ip
  }

  /** An entry is the latest write; an absent one was cancelled, never written,
      or swept once past its deadline. */
  lemma {:induction false} EntryIsLatest<R>(events: seq<Event<R>>, ip: string, rule: string, now: int)
    requires SweptBy(events, now) && PlainAddresses(events) && '\0' !in ip
    ensures var key := BuildKey(ip, rule);
            var latest := Latest(events, ip, rule);
            if key in Exec(events)
            then latest == Some((Exec(events)[key].allowed, Exec(events)[key].expiresAt))
            else latest.Some? ==> latest.value.1 <= now
    decreases |events|
  {
    if events != [] {
      var n := |events| - 1;
      EntryIsLatest(events[..n], ip, rule, now);
      var e := events[n];
      if e.Stored? {
        KeysDistinct(ip, rule, e.ip, e.rule);
      }
    }
  }

  /** The cache answers with the latest uncancelled write, strictly before its
      deadline, whenever the sweeper ran. */
  lemma CheckIsLatest<R>(events: seq<Event<R>>, ip: string, rule: string, now: int)
    requires SweptBy(events, now) && PlainAddresses(events) && '\0' !in ip
    ensures Check(Exec(events), ip, rule, now) == InForce(Latest(events, ip, rule), now)
  {
    EntryIsLatest(events, ip, rule, now);
  }

  function WithoutSweeps<R>(events: seq<Event<R>>): seq<Event<R>> {
    if events == [] then []
    else
      var rest := WithoutSweeps(events[..|events| - 1]);
      if events[|events| - 1].Swept? then rest else rest + [events[|events| - 1]]
  }

  /** What is visible after an event depends on what was visible before it. */
  lemma ApplyVisible<R>(a: Cache<R>, b: Cache<R>, e: Event<R>, now: int)
    requires Visible(a, now) == Visible(b, now) && !e.Swept?
    ensures Visible(Apply(a, e), now) == Visible(Apply(b, e), now)
  {
    forall key
      ensures Shows(Apply(a, e), key, now) == Shows(Apply(b, e), key, now)
    {
      ApplyShows(a, b, e, key, now);
    }
    VisibleByKey(Apply(a, e), Apply(b, e), now);
  }

  lemma VisibleByKey<R>(a: Cache<R>, b: Cache<R>, now: int)
    requires forall key :: Shows(a, key, now) == Shows(b, key, now)
    ensures Visible(a, now) == Visible(b, now)
  {
    assert forall key :: key in Visible(a, now) ==> Shows(a, key, now) == Some(Visible(a, now)[key]);
    assert forall key :: key in Visible(b, now) ==> Shows(b, key, now) == Some(Visible(b, now)[key]);
  }

  /** What a listing shows under one key. */
  function Shows<R>(cache: Cache<R>, key: string, now: int): Option<Entry<R>> {
    if key in cache && now < cache[key].expiresAt then Some(cache[key]) else None
  }

  lemma ApplyShows<R>(a: Cache<R>, b: Cache<R>, e: Event<R>, key: string, now: int)
    requires Visible(a, now) == Visible(b, now) && !e.Swept?
    ensures Shows(Apply(a, e), key, now) == Shows(Apply(b, e), key, now)
  {
    assert key in Visible(a, now) <==> key in Visible(b, now);
    assert key in Visible(a, now) ==> Visible(a, now)[key] == a[key] == b[key];
  }

  lemma SweepVisible<R>(cache: Cache<R>, at: int, now: int)
    requires at <= now
    ensures Visible(Sweep(cache, at), now) == Visible(cache, now)
  {
  }

  /** The sweeper is invisible: a run shows the same entries, live connections
      and traffic included, as the run with every sweep taken out. */
  lemma {:induction false} SweepsInvisible<R>(events: seq<Event<R>>, now: int)
    requires SweptBy(events, now)
    ensures Visible(Exec(events), now) == Visible(Exec(WithoutSweeps(events)), now)
    decreases |events|
  {
    if events != [] {
      var n := |events| - 1;
      SweepsInvisible(events[..n], now);
      if events[n].Swept? {
        SweepVisible(Exec(events[..n]), events[n].at, now);
      } else {
        var rest := WithoutSweeps(events[..n]);
        assert (rest + [events[n]])[..|rest|] == rest;
        ApplyVisible(Exec(events[..n]), Exec(rest), events[n], now);
      }
    }
  }

  lemma CheckSeesVisible<R>(cache: Cache<R>, ip: string, rule: string, now: int)
    ensures Check(Visible(cache, now), ip, rule, now) == Check(cache, ip, rule, now)
  {
  }

  /** Two runs that differ in their sweeps only give every check the same answer. */
  lemma SweepsAnywhere<R>(a: seq<Event<R>>, b: seq<Event<R>>, ip: string, rule: string, now: int)
    requires SweptBy(a, now) && SweptBy(b, now) && WithoutSweeps(a) == WithoutSweeps(b)
    ensures Check(Exec(a), ip, rule, now) == Check(Exec(b), ip, rule, now)
  {
    SweepsInvisible(a, now);
    SweepsInvisible(b, now);
    CheckSeesVisible(Exec(a), ip, rule, now);
    CheckSeesVisible(Exec(b), ip, rule, now);
  }

  /** A decision just stored answers for its seconds, or for 300 when it names none,
      and changes no other answer; it begins without connections and traffic. */
  lemma StoredAnswers<R>(cache: Cache<R>, ip: string, rule: string, allowed: bool, seconds: int, at: int, now: int)
    ensures var left := at + (if seconds > 0 then seconds else 300) - now;
            Check(Store(cache, ip, rule, allowed, seconds, at), ip, rule, now) == if left > 0 then Some(Decision(allowed, left)) else None
    ensures var key := BuildKey(ip, rule);
            Store(cache, ip, rule, allowed, seconds, at) - {key} == cache - {key}
    ensures var e := Store(cache, ip, rule, allowed, seconds, at)[BuildKey(ip, rule)];
            e.sourceIp == ip && e.ruleId == rule && e.live == map[] && e.closed == Tally(0, 0, 0, 0)
  {
    var key := BuildKey(ip, rule);
    assert Store(cache, ip, rule, allowed, seconds, at) - {key} == cache - {key};
  }

  /** The clock matters: a sweep never changes an answer at `query` exactly when
      it read no later a time. */
  lemma SweepInvisibleIff(at: int, query: int)
    ensures (forall cache: Cache<int>, ip, rule :: Check(Sweep(cache, at), ip, rule, query) == Check(cache, ip, rule, query))
            <==> at <= query
  {
    if at > query {
      var cache: Cache<int> := map[BuildKey("", "") := Entry("", "", true, at, ZERO, map[])];
      assert Check(Sweep(cache, at), "", "", query) == None;
      assert Check(cache, "", "", query).Some?;
    }
  }
}
