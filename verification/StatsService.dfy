/**
 The statistics service as an object: maps from ids to shared counters, and the
 counters themselves. Its state is seen through `View`, a value of `Stats.State`.
 */
module StatsService {
  import opened Options
  import opened Tallies
  import Stats

  /** The pair of atomic counters that one connection shares with the approval cache. */
  class ByteCounters {
    var bytesIn: int
    var bytesOut: int
    /** The number of the registration these counters belong to. */
    ghost const serial: nat

    constructor (ghost serial: nat)
      ensures Load() == ZERO && this.serial == serial
    {
      bytesIn, bytesOut := 0, 0;
      this.serial := serial;
    }

    function Load(): Tally
      reads this
    {
      Bytes(bytesIn, bytesOut)
    }
  }

  datatype ActiveConn = ActiveConn(proxyId: string, counters: ByteCounters)

  function Selected(conns: map<string, ActiveConn>, who: Option<string>): set<string> {
    set id | id in conns && (who.None? || conns[id].proxyId == who.value)
  }

  /** Walks the active connections, in no particular order, and counts. */
  method CountActive(conns: map<string, ActiveConn>, who: Option<string>) returns (n: nat)
    ensures n == |Selected(conns, who)|
  {
    n := 0;
    var rest := conns.Keys;
    ghost var counted: set<string> := {};
    while rest != {}
      invariant rest <= conns.Keys
      invariant counted == Selected(conns, who) - rest
      invariant n == |counted|
      decreases |rest|
    {
      var id :| id in rest;
      if who.None? || conns[id].proxyId == who.value {
        n := n + 1;
        counted := counted + {id};
      }
      rest := rest - {id};
    }
    assert Selected(conns, who) - {} == Selected(conns, who);
  }

  /** Every active id stands for one of the registrations, which are numbered in order. */
  ghost predicate Wired(conns: map<string, ActiveConn>, number: map<string, nat>, ever: seq<ActiveConn>, repr: set<ByteCounters>) {
    && number.Keys == conns.Keys
    && (forall id :: id in number ==> number[id] < |ever| && ever[number[id]] == conns[id])
    && (forall i :: 0 <= i < |ever| ==> ever[i].counters.serial == i && ever[i].counters in repr)
  }

  lemma WiredAppend(conns: map<string, ActiveConn>, number: map<string, nat>, ever: seq<ActiveConn>, repr: set<ByteCounters>,
                    id: string, entry: ActiveConn)
    requires Wired(conns, number, ever, repr) && entry.counters.serial == |ever|
    ensures Wired(conns[id := entry], number[id := |ever|], ever + [entry], repr + {entry.counters})
  {
  }

  class StatsService {
    var activeConns: map<string, ActiveConn>
    var proxyStats: map<string, Tally>
    var total: Tally
    /** Every registration so far, and which of them each active id stands for. */
    ghost var ever: seq<ActiveConn>
    ghost var number: map<string, nat>
    ghost var repr: set<ByteCounters>

    ghost predicate Valid()
      reads this
    {
      Wired(activeConns, number, ever, repr)
    }

    ghost function View(): Stats.State
      requires Valid()
      reads this, repr
    {
      Stats.State(number, Records(ever, repr), proxyStats, total)
    }

    constructor ()
      ensures Valid() && repr == {} && View() == Stats.EMPTY
    {
      activeConns, proxyStats, total := map[], map[], ZERO;
      ever, number, repr := [], map[], {};
    }

    method RegisterConnection(id: string, proxyId: string) returns (counters: ByteCounters)
      requires Valid()
      modifies this
      ensures Valid() && repr == old(repr) + {counters} && fresh(counters) && counters.Load() == ZERO
      ensures ever == old(ever) + [ActiveConn(proxyId, counters)]
      ensures id in activeConns && activeConns[id].counters == counters
      ensures View() == Stats.Register(old(View()), id, proxyId)
    {
      counters := new ByteCounters(|ever|);
      var entry := ActiveConn(proxyId, counters);
      assert Records(ever + [entry], repr + {counters}) == old(Records(ever, repr)) + [Stats.Record(proxyId, ZERO)] by {
        assert Records(ever, repr) == old(Records(ever, repr));
        RecordsAppend(ever, repr, entry);
      }
      WiredAppend(activeConns, number, ever, repr, id, entry);
      var one := Tally(0, 1, 0, 0);
      total := total.Plus(one);
      proxyStats := Bump(proxyStats, proxyId, one);
      activeConns := activeConns[id := entry];
      number := number[id := |ever|];
      ever := ever + [entry];
      repr := repr + {counters};
    }

    method UnregisterConnection(id: string)
      requires Valid()
      modifies this
      ensures Valid() && ever == old(ever) && repr == old(repr)
      ensures View() == Stats.Unregister(old(View()), id)
    {
      activeConns := activeConns - {id};
      number := number - {id};
    }

    method UpdateBytes(id: string, inDelta: nat, outDelta: nat)
      requires Valid()
      modifies this, repr
      ensures Valid() && ever == old(ever) && repr == old(repr)
      ensures View() == Stats.Update(old(View()), id, Bytes(inDelta, outDelta))
      ensures activeConns == old(activeConns)
      ensures id in activeConns ==>
                var c := activeConns[id].counters; c.bytesIn == old(c.bytesIn) + inDelta && c.bytesOut == old(c.bytesOut) + outDelta
    {
      if id in activeConns {
        var entry := activeConns[id];
        ghost var n := number[id];
        assert entry == ever[n];
        ghost var before := Records(ever, repr);
        entry.counters.bytesIn := entry.counters.bytesIn + inDelta;
        entry.counters.bytesOut := entry.counters.bytesOut + outDelta;
        total := total.Plus(Bytes(inDelta, outDelta));
        if entry.proxyId in proxyStats {
          proxyStats := proxyStats[entry.proxyId := proxyStats[entry.proxyId].Plus(Bytes(inDelta, outDelta))];
        }
        assert Records(ever, repr) == before[n := before[n].(traffic := before[n].traffic.Plus(Bytes(inDelta, outDelta)))];
      }
    }

    method GetSummary(who: Option<string>) returns (summary: Tally)
      requires Valid()
      ensures summary == Stats.Summary(View(), who)
    {
      var totals := if who.None? then total else if who.value in proxyStats then proxyStats[who.value] else ZERO;
      var active := CountActive(activeConns, who);
      assert Stats.ActiveOf(View(), who) == Selected(activeConns, who) by {
        assert |View().records| == |ever|;
        assert forall i :: 0 <= i < |ever| ==> View().records[i].proxyId == ever[i].proxyId;
      }
      return totals.(active := active);
    }
  }

  /** What the counters of these registrations read now. */
  ghost function Records(ever: seq<ActiveConn>, repr: set<ByteCounters>): seq<Stats.Record>
    requires forall i :: 0 <= i < |ever| ==> ever[i].counters in repr
    reads repr
  {
    seq(|ever|, i requires 0 <= i < |ever| && ever[i].counters in repr reads repr =>
      Stats.Record(ever[i].proxyId, ever[i].counters.Load()))
  }

  lemma RecordsAppend(ever: seq<ActiveConn>, repr: set<ByteCounters>, entry: ActiveConn)
    requires forall i :: 0 <= i < |ever| ==> ever[i].counters in repr
    ensures Records(ever + [entry], repr + {entry.counters})
         == Records(ever, repr) + [Stats.Record(entry.proxyId, entry.counters.Load())]
  {
  }
}
