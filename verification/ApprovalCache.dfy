/**
 The decision cache as an object, holding references to the counters that live
 connections share with the statistics service.
 */
module ApprovalCache {
  import opened Options
  import opened Tallies
  import opened DecisionCache
  import opened StatsService

  ghost function LiveTraffic(live: map<string, ByteCounters>): map<string, Tally>
    reads live.Values
  {
    map conn | conn in live :: live[conn].Load()
  }

  /** What an entry reports: the traffic of ended connections plus that of live ones now. */
  ghost function Reported(e: Entry<ByteCounters>): Tally
    reads e.live.Values
  {
    e.closed.Plus(Sum(LiveTraffic(e.live)))
  }

  class ApprovalCache {
    var cache: Cache<ByteCounters>

    constructor ()
      ensures cache == map[]
    {
      cache := map[];
    }

    method CheckCache(sourceIp: string, ruleId: string, now: int) returns (decision: Option<Decision>)
      ensures decision == Check(cache, sourceIp, ruleId, now)
    {
      var key := BuildKey(sourceIp, ruleId);
      if key in cache {
        var entry := cache[key];
        if now < entry.expiresAt {
          return Some(Decision(entry.allowed, entry.expiresAt - now));
        }
      }
      return None;
    }

    /** The caching part of a decision: mode 2, connection only, leaves no trace, and
        every other mode, unspecified and unknown ones included, caches it. It
        answers checks for its seconds, or for 300 when it names none. */
    method StoreDecision(sourceIp: string, ruleId: string, allowed: bool, seconds: int, mode: int, now: int)
      modifies this
      ensures mode == 2 ==> cache == old(cache)
      ensures mode != 2 ==> cache == Store(old(cache), sourceIp, ruleId, allowed, seconds, now)
      ensures mode != 2 ==> forall later ::
                Check(cache, sourceIp, ruleId, later).Some? <==> later < now + (if seconds > 0 then seconds else 300)
    {
      if mode != 2 {
        var duration := if seconds > 0 then seconds else DEFAULT_DURATION;
        cache := cache[BuildKey(sourceIp, ruleId) := Entry(sourceIp, ruleId, allowed, now + duration, ZERO, map[])];
      }
    }

    method SweepExpired(now: int)
      modifies this
      ensures cache == Sweep(old(cache), now)
    {
      cache := map key | key in cache && now < cache[key].expiresAt :: cache[key];
    }

    method CancelApproval(key: string) returns (found: bool)
      modifies this
      ensures cache == Cancel(old(cache), key)
      ensures found == (key in old(cache))
    {
      found := key in cache;
      cache := cache - {key};
    }

    method SetConnId(sourceIp: string, ruleId: string, conn: string, counters: ByteCounters) returns (ok: bool)
      modifies this
      ensures ok == CanAttach(old(cache), sourceIp, ruleId)
      ensures cache == Attach(old(cache), sourceIp, ruleId, conn, counters)
    {
      var key := BuildKey(sourceIp, ruleId);
      if key in cache {
        if |cache[key].live| >= MAX_CONN_IDS_PER_APPROVAL {
          return false;
        }
        cache := cache[key := cache[key].(live := cache[key].live[conn := counters])];
        return true;
      }
      return false;
    }

    /** Moves the final traffic of an ending connection into the entry: no
        entry reports more or less for it. */
    method RemoveConnId(sourceIp: string, ruleId: string, conn: string)
      modifies this
      ensures cache.Keys == old(cache.Keys)
      ensures forall key :: key in cache ==> Reported(cache[key]) == old(Reported(cache[key]))
      ensures var key := BuildKey(sourceIp, ruleId);
              cache == if key in old(cache) && conn in old(cache)[key].live
                       then Detach(old(cache), sourceIp, ruleId, conn, old(cache[key].live[conn].Load()))
                       else old(cache)
    {
      var key := BuildKey(sourceIp, ruleId);
      if key in cache && conn in cache[key].live {
        var entry := cache[key];
        var counters := entry.live[conn];
        var final := Bytes(counters.bytesIn, counters.bytesOut);
        var entry' := entry.(live := entry.live - {conn}, closed := entry.closed.Plus(final));
        assert Reported(entry') == Reported(entry) by {
          SumRemove(LiveTraffic(entry.live), conn);
          assert LiveTraffic(entry'.live) == LiveTraffic(entry.live) - {conn};
        }
        cache := cache[key := entry'];
      }
    }

    /** The entries in force, each with the traffic of its live connections added in. */
    method ListActive(now: int) returns (list: map<string, Entry<ByteCounters>>)
      ensures list.Keys == Visible(cache, now).Keys
      ensures forall key :: key in list ==> list[key] == cache[key].(closed := Reported(cache[key]))
    {
      list := map[];
      var rest := cache.Keys;
      while rest != {}
        invariant rest <= cache.Keys
        invariant list.Keys == Visible(cache, now).Keys - rest
        invariant forall key :: key in list ==> list[key] == cache[key].(closed := Reported(cache[key]))
        decreases |rest|
      {
        var key :| key in rest;
        if now < cache[key].expiresAt {
          var bytes := AddLive(cache[key]);
          list := list[key := cache[key].(closed := bytes)];
        }
        rest := rest - {key};
      }
    }
  }

  lemma TakeLive(live: map<string, ByteCounters>, conn: string)
    requires conn in live
    ensures Sum(LiveTraffic(live)) == live[conn].Load().Plus(Sum(LiveTraffic(live - {conn})))
  {
    SumRemove(LiveTraffic(live), conn);
    assert LiveTraffic(live - {conn}) == LiveTraffic(live) - {conn};
  }

  method AddLive(e: Entry<ByteCounters>) returns (bytes: Tally)
    ensures bytes == Reported(e)
  {
    bytes := e.closed;
    var rest := e.live;
    while rest != map[]
      invariant rest.Keys <= e.live.Keys
      invariant forall conn :: conn in rest ==> rest[conn] == e.live[conn]
      invariant forall conn :: conn in rest ==> rest[conn] in e.live.Values
      invariant bytes.Plus(Sum(LiveTraffic(rest))) == Reported(e)
      decreases |rest|
    {
      var conn :| conn in rest;
      TakeLive(rest, conn);
      var taken := Bytes(rest[conn].bytesIn, rest[conn].bytesOut);
      Regroup(bytes, taken, Sum(LiveTraffic(rest - {conn})));
      bytes := bytes.Plus(taken);
      rest := rest - {conn};
    }
  }
}
