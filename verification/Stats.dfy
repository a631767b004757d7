/**
 Connection statistics: a global tally, a tally per proxy, and a pair of byte
 counters per registered connection. The counters are shared objects that outlive
 the registration, because the approval cache keeps reading them.
 */
module Stats {
  import opened Options
  import opened Tallies

  /** One registration, by its order of arrival. */
  datatype Record = Record(proxyId: string, traffic: Tally) {
    function Contribution(): Tally {
      Tally(0, 1, traffic.bytesIn, traffic.bytesOut)
    }
  }

  /** `active` maps a connection id to the number of its registration. */
  datatype State = State(active: map<string, nat>, records: seq<Record>, proxies: map<string, Tally>, total: Tally)

  const EMPTY := State(map[], [], map[], ZERO)

  function Register(s: State, id: string, proxy: string): State {
    var one := Tally(0, 1, 0, 0);
    State(s.active[id := |s.records|], s.records + [Record(proxy, ZERO)],
          Bump(s.proxies, proxy, one), s.total.Plus(one))
  }

  function Unregister(s: State, id: string): State {
    s.(active := s.active - {id})
  }

  /** Traffic counts only while the connection is registered. */
  function Update(s: State, id: string, delta: Tally): State {
    if id in s.active && s.active[id] < |s.records| then
      var n := s.active[id];
      var r := s.records[n];
      State(s.active, s.records[n := r.(traffic := r.traffic.Plus(delta))],
            if r.proxyId in s.proxies then Bump(s.proxies, r.proxyId, delta) else s.proxies,
            s.total.Plus(delta))
    else s
  }

  function Counts(r: Record, who: Option<string>): bool {
    who.None? || r.proxyId == who.value
  }

  /** Everything ever registered, for one proxy or for all. */
  function Volume(records: seq<Record>, who: Option<string>): Tally {
    if records == [] then ZERO else
      var last, rest := records[|records| - 1], Volume(records[..|records| - 1], who);
      if Counts(last, who) then rest.Plus(last.Contribution()) else rest
  }

  function ActiveOf(s: State, who: Option<string>): set<string> {
    set id | id in s.active && s.active[id] < |s.records| && Counts(s.records[s.active[id]], who)
  }

  function Totals(s: State, who: Option<string>): Tally {
    if who.None? then s.total else if who.value in s.proxies then s.proxies[who.value] else ZERO
  }

  function Summary(s: State, who: Option<string>): Tally {
    Totals(s, who).(active := |ActiveOf(s, who)|)
  }

  predicate Linked(s: State) {
    && (forall id :: id in s.active ==> s.active[id] < |s.records|)
    && (forall i :: 0 <= i < |s.records| ==> s.records[i].proxyId in s.proxies)
  }

  predicate PerProxy(s: State) {
    forall p :: p in s.proxies ==> s.proxies[p] == Volume(s.records, Some(p))
  }

  /** The three levels of accounting agree. */
  ghost predicate Balanced(s: State) {
    Linked(s) && PerProxy(s) && s.total == Volume(s.records, None) == Sum(s.proxies)
  }

  lemma {:induction false} VolumeOfAbsent(records: seq<Record>, p: string)
    requires forall i :: 0 <= i < |records| ==> records[i].proxyId != p
    ensures Volume(records, Some(p)) == ZERO
  {
    if records != [] {
      var rest := records[..|records| - 1];
      assert forall i :: 0 <= i < |rest| ==> rest[i].proxyId == records[i].proxyId;
      VolumeOfAbsent(rest, p);
      assert records[|records| - 1].proxyId != p;
    }
  }

  function Extended(r: Record, delta: Tally): Record {
    r.(traffic := r.traffic.Plus(delta))
  }

  lemma {:induction false} VolumeAfterTraffic(records: seq<Record>, n: nat, delta: Tally, who: Option<string>)
    requires n < |records| && delta.conns == delta.active == 0 && Counts(records[n], who)
    ensures Volume(records[n := Extended(records[n], delta)], who) == Volume(records, who).Plus(delta)
  {
    var k := |records| - 1;
    var after, rest := records[n := Extended(records[n], delta)], Volume(records[..k], who);
    if n < k {
      assert after[..k] == records[..k][n := after[n]];
      VolumeAfterTraffic(records[..k], n, delta, who);
      Regroup(rest, delta, records[k].Contribution());
    } else {
      assert after[..k] == records[..k];
      assert after[k].Contribution() == records[k].Contribution().Plus(delta);
      Regroup(rest, records[k].Contribution(), delta);
    }
  }

  lemma {:induction false} VolumeElsewhere(records: seq<Record>, n: nat, delta: Tally, who: Option<string>)
    requires n < |records| && !Counts(records[n], who)
    ensures Volume(records[n := Extended(records[n], delta)], who) == Volume(records, who)
  {
    var k := |records| - 1;
    var after := records[n := Extended(records[n], delta)];
    if n < k {
      assert after[..k] == records[..k][n := after[n]];
      VolumeElsewhere(records[..k], n, delta, who);
    } else {
      assert after[..k] == records[..k];
    }
  }

  lemma {:induction false} VolumeHasNoActive(records: seq<Record>, who: Option<string>)
    ensures Volume(records, who).active == 0
  {
    if records != [] {
      VolumeHasNoActive(records[..|records| - 1], who);
    }
  }

  lemma VolumeOfOneMore(records: seq<Record>, r: Record, who: Option<string>)
    ensures Counts(r, who) ==> Volume(records + [r], who) == Volume(records, who).Plus(r.Contribution())
    ensures !Counts(r, who) ==> Volume(records + [r], who) == Volume(records, who)
  {
    assert (records + [r])[..|records|] == records;
  }

  lemma RegisterPerProxy(s: State, id: string, proxy: string)
    requires Linked(s) && PerProxy(s)
    ensures PerProxy(Register(s, id, proxy))
  {
    var s', r := Register(s, id, proxy), Record(proxy, ZERO);
    forall p | p in s'.proxies
      ensures s'.proxies[p] == Volume(s'.records, Some(p))
    {
      VolumeOfOneMore(s.records, r, Some(p));
      if p == proxy {
        assert r.Contribution() == Tally(0, 1, 0, 0);
        if p !in s.proxies {
          VolumeOfAbsent(s.records, p);
        }
      }
    }
  }

  lemma RegisterLinked(s: State, id: string, proxy: string)
    requires Linked(s)
    ensures Linked(Register(s, id, proxy))
  {
    var s' := Register(s, id, proxy);
    forall i | 0 <= i < |s'.records|
      ensures s'.records[i].proxyId in s'.proxies
    {
      assert i < |s.records| ==> s'.records[i] == s.records[i];
    }
  }

  lemma RegisterTotals(records: seq<Record>, proxies: map<string, Tally>, proxy: string)
    requires Volume(records, None) == Sum(proxies)
    ensures var one := Tally(0, 1, 0, 0);
            Volume(records + [Record(proxy, ZERO)], None) == Volume(records, None).Plus(one)
         == Sum(Bump(proxies, proxy, one))
  {
    VolumeOfOneMore(records, Record(proxy, ZERO), None);
    SumBump(proxies, proxy, Tally(0, 1, 0, 0));
  }

  lemma RegisterBalanced(s: State, id: string, proxy: string)
    requires Balanced(s)
    ensures Balanced(Register(s, id, proxy))
  {
    RegisterLinked(s, id, proxy);
    RegisterPerProxy(s, id, proxy);
    RegisterTotals(s.records, s.proxies, proxy);
  }

  lemma UpdateBalanced(s: State, id: string, delta: Tally)
    requires Balanced(s) && delta.conns == delta.active == 0
    ensures Balanced(Update(s, id, delta))
  {
    if id in s.active {
      var n := s.active[id];
      var proxy := s.records[n].proxyId;
      var s' := Update(s, id, delta);
      VolumeAfterTraffic(s.records, n, delta, None);
      SumBump(s.proxies, proxy, delta);
      forall p | p in s'.proxies
        ensures s'.proxies[p] == Volume(s'.records, Some(p))
      {
        if p == proxy {
          VolumeAfterTraffic(s.records, n, delta, Some(p));
        } else {
          VolumeElsewhere(s.records, n, delta, Some(p));
        }
      }
      assert forall i :: 0 <= i < |s.records| ==> s'.records[i].proxyId == s.records[i].proxyId;
    }
  }

  // ---- Runs ----

  datatype Op =
    | Registered(id: string, proxy: string)
    | Unregistered(id: string)
    | Transferred(id: string, bytesIn: nat, bytesOut: nat)

  function Apply(s: State, op: Op): State {
    match op
    case Registered(id, proxy) => Register(s, id, proxy)
    case Unregistered(id) => Unregister(s, id)
    case Transferred(id, bytesIn, bytesOut) => Update(s, id, Bytes(bytesIn, bytesOut))
  }

  function Exec(ops: seq<Op>): State {
    if ops == [] then EMPTY else Apply(Exec(ops[..|ops| - 1]), ops[|ops| - 1])
  }

  /** After any calls whatever, reused ids included, the global tally is the sum
      of the proxies' tallies and of every registration there ever was. */
  lemma {:induction false} AlwaysBalanced(ops: seq<Op>)
    ensures Balanced(Exec(ops))
  {
    if ops != [] {
      var n := |ops| - 1;
      AlwaysBalanced(ops[..n]);
      match ops[n]
      case Registered(id, proxy) => RegisterBalanced(Exec(ops[..n]), id, proxy);
      case Unregistered(id) =>
      case Transferred(id, bytesIn, bytesOut) => UpdateBalanced(Exec(ops[..n]), id, Bytes(bytesIn, bytesOut));
    }
  }

  // ---- What a summary says, by the calls ----

  /** The proxy under which a connection id is registered after the calls. */
  function Owner(ops: seq<Op>, id: string): Option<string> {
    if ops == [] then None else
      var n := |ops| - 1;
      if ops[n].id != id || ops[n].Transferred? then Owner(ops[..n], id)
      else if ops[n].Registered? then Some(ops[n].proxy)
      else None
  }

  /** A proxy is the one asked for, or all are. */
  predicate Concerns(proxy: Option<string>, who: Option<string>) {
    proxy.Some? && (who.None? || proxy == who)
  }

  function Opened(ops: seq<Op>, who: Option<string>): nat {
    if ops == [] then 0 else
      var n := |ops| - 1;
      Opened(ops[..n], who) + if ops[n].Registered? && Concerns(Some(ops[n].proxy), who) then 1 else 0
  }

  /** The transfer on a registered connection counts. */
  predicate Counted(ops: seq<Op>, n: nat, who: Option<string>)
    requires n < |ops|
  {
    ops[n].Transferred? && Concerns(Owner(ops[..n], ops[n].id), who)
  }

  function MovedIn(ops: seq<Op>, who: Option<string>): nat {
    if ops == [] then 0 else
      var n := |ops| - 1;
      MovedIn(ops[..n], who) + if Counted(ops, n, who) then ops[n].bytesIn else 0
  }

  function MovedOut(ops: seq<Op>, who: Option<string>): nat {
    if ops == [] then 0 else
      var n := |ops| - 1;
      MovedOut(ops[..n], who) + if Counted(ops, n, who) then ops[n].bytesOut else 0
  }

  ghost function LiveIds(ops: seq<Op>, who: Option<string>): set<string> {
    set i | 0 <= i < |ops| && ops[i].Registered? && Concerns(Owner(ops, ops[i].id), who) :: ops[i].id
  }

  lemma {:induction false} OwnerIs(ops: seq<Op>, id: string)
    ensures var s := Exec(ops);
            && (id in s.active ==> s.active[id] < |s.records|)
            && Owner(ops, id) == if id in s.active then Some(s.records[s.active[id]].proxyId) else None
  {
    if ops != [] {
      OwnerIs(ops[..|ops| - 1], id);
    }
  }

  lemma {:induction false} OwnedWasRegistered(ops: seq<Op>, id: string) returns (i: nat)
    requires Owner(ops, id).Some?
    ensures i < |ops| && ops[i].Registered? && ops[i].id == id
  {
    var n := |ops| - 1;
    if ops[n].Registered? && ops[n].id == id {
      i := n;
    } else {
      i := OwnedWasRegistered(ops[..n], id);
    }
  }

  lemma LiveAre(ops: seq<Op>, who: Option<string>)
    ensures ActiveOf(Exec(ops), who) == LiveIds(ops, who)
  {
    forall id
      ensures id in ActiveOf(Exec(ops), who) <==> id in LiveIds(ops, who)
    {
      OwnerIs(ops, id);
      if Owner(ops, id).Some? {
        var i := OwnedWasRegistered(ops, id);
      }
    }
  }

  lemma TotalsOfRegister(s: State, id: string, proxy: string, who: Option<string>)
    ensures var t, t' := Totals(s, who), Totals(Register(s, id, proxy), who);
            if Concerns(Some(proxy), who) then t' == t.(conns := t.conns + 1) else t' == t
  {
  }

  lemma TotalsOfUpdate(s: State, id: string, bytesIn: nat, bytesOut: nat, who: Option<string>)
    requires Linked(s)
    ensures var t, t' := Totals(s, who), Totals(Update(s, id, Bytes(bytesIn, bytesOut)), who);
            if id in s.active && Concerns(Some(s.records[s.active[id]].proxyId), who)
            then t' == t.(bytesIn := t.bytesIn + bytesIn, bytesOut := t.bytesOut + bytesOut)
            else t' == t
  {
  }

  lemma {:induction false} TotalsAre(ops: seq<Op>, who: Option<string>)
    ensures Totals(Exec(ops), who) == Tally(0, Opened(ops, who), MovedIn(ops, who), MovedOut(ops, who))
  {
    if ops != [] {
      var n := |ops| - 1;
      var s := Exec(ops[..n]);
      TotalsAre(ops[..n], who);
      match ops[n]
      case Registered(id, proxy) =>
        TotalsOfRegister(s, id, proxy, who);
      case Unregistered(_) =>
      case Transferred(id, bytesIn, bytesOut) =>
        AlwaysBalanced(ops[..n]);
        TotalsOfUpdate(s, id, bytesIn, bytesOut, who);
        OwnerIs(ops[..n], id);
    }
  }

  /** After any calls a summary counts the ids registered and not unregistered
      since, the registrations, and the bytes in and out that were counted on
      registered connections: of one proxy, or of all. */
  lemma SummaryOfRun(ops: seq<Op>, who: Option<string>)
    ensures Summary(Exec(ops), who) == Tally(|LiveIds(ops, who)|, Opened(ops, who), MovedIn(ops, who), MovedOut(ops, who))
  {
    TotalsAre(ops, who);
    LiveAre(ops, who);
  }

  // ---- The sum of the summaries ----

  /** The live connections of each owner, added to a base tally. */
  ghost function WithLive<C, P>(base: map<P, Tally>, owners: map<C, P>): map<P, Tally> {
    map p | p in base :: base[p].Plus(Tally(|OwnedBy(owners, p)|, 0, 0, 0))
  }

  function OwnedBy<C, P(==)>(owners: map<C, P>, p: P): set<C> {
    set id | id in owners && owners[id] == p
  }

  lemma OwnedAfterRemoval<C, P>(owners: map<C, P>, id: C, p: P)
    requires id in owners
    ensures |OwnedBy(owners, p)| == |OwnedBy(owners - {id}, p)| + if p == owners[id] then 1 else 0
  {
    var rest := OwnedBy(owners - {id}, p);
    assert id !in rest;
    assert OwnedBy(owners, p) == if p == owners[id] then rest + {id} else rest;
  }

  lemma LiveOfNone<C, P>(base: map<P, Tally>)
    ensures WithLive<C, P>(base, map[]) == base
  {
    forall p | p in base
      ensures WithLive<C, P>(base, map[])[p] == base[p]
    {
      assert OwnedBy<C, P>(map[], p) == {};
    }
  }

  lemma LiveOfOneMore<C, P>(base: map<P, Tally>, owners: map<C, P>, id: C)
    requires id in owners && owners[id] in base
    ensures var before := WithLive(base, owners - {id});
            WithLive(base, owners) == Bump(before, owners[id], Tally(1, 0, 0, 0))
  {
    forall p | p in base
      ensures WithLive(base, owners)[p]
           == WithLive(base, owners - {id})[p].Plus(if p == owners[id] then Tally(1, 0, 0, 0) else ZERO)
    {
      OwnedAfterRemoval(owners, id, p);
    }
  }

  lemma OneFewer<C, P>(owners: map<C, P>, id: C)
    requires id in owners
    ensures |owners| == |owners - {id}| + 1
  {
    assert owners.Keys == (owners - {id}).Keys + {id};
  }

  /** Every live connection belongs to one owner, so the owners' counts add up to all. */
  lemma {:induction false} LiveAddUp<C, P>(base: map<P, Tally>, owners: map<C, P>)
    requires forall id :: id in owners ==> owners[id] in base
    ensures Sum(WithLive(base, owners)) == Sum(base).Plus(Tally(|owners|, 0, 0, 0))
    decreases |owners|
  {
    if owners == map[] {
      LiveOfNone<C, P>(base);
    } else {
      var id :| id in owners;
      var others := owners - {id};
      OneFewer(owners, id);
      LiveAddUp(base, others);
      LiveOfOneMore(base, owners, id);
      SumBump(WithLive(base, others), owners[id], Tally(1, 0, 0, 0));
      Regroup(Sum(base), Tally(|others|, 0, 0, 0), Tally(1, 0, 0, 0));
    }
  }

  function Owners(s: State): map<string, string> {
    map id | id in s.active && s.active[id] < |s.records| :: s.records[s.active[id]].proxyId
  }

  ghost function SummaryOfEach(s: State): map<string, Tally> {
    map p | p in s.proxies :: Summary(s, Some(p))
  }

  lemma SummaryIsWithLive(s: State)
    requires Linked(s) && forall p :: p in s.proxies ==> s.proxies[p].active == 0
    ensures SummaryOfEach(s) == WithLive(s.proxies, Owners(s))
    ensures |ActiveOf(s, None)| == |Owners(s)|
  {
    assert ActiveOf(s, None) == Owners(s).Keys;
    forall p | p in s.proxies
      ensures SummaryOfEach(s)[p] == WithLive(s.proxies, Owners(s))[p]
    {
      assert ActiveOf(s, Some(p)) == OwnedBy(Owners(s), p);
    }
  }

  /** A summary, of one proxy or of all, is what its registrations ever amounted
      to, with the connections that are live now; an unknown proxy has nothing. */
  lemma SummaryIsVolume(s: State, who: Option<string>)
    requires Balanced(s)
    ensures Summary(s, who) == Volume(s.records, who).(active := |ActiveOf(s, who)|)
  {
    if who.Some? && who.value !in s.proxies {
      VolumeOfAbsent(s.records, who.value);
    }
  }

  /** The summary of all proxies is the sum of their summaries, live counts included. */
  lemma SummariesAddUp(s: State)
    requires Balanced(s)
    ensures Summary(s, None) == Sum(SummaryOfEach(s))
  {
    VolumeHasNoActive(s.records, None);
    forall p | p in s.proxies
      ensures s.proxies[p].active == 0
    {
      VolumeHasNoActive(s.records, Some(p));
    }
    SummaryIsWithLive(s);
    LiveAddUp(s.proxies, Owners(s));
  }
}
