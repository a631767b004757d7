/**
 GeoIP lookup: a strategy of steps tried in order, with a persistent cache that
 the successful steps fill.

 The local database and the remote providers are oracles, and may answer
 differently from one lookup to the next. A read of the cache table may fail, and
 then counts as a miss; a failed write is ignored. A lookup without a cache is one
 whose reads and writes all fail.
 */
module GeoCache {
  import opened Options

  /** What a source fills in, and what a row of the table holds. */
  datatype Place = Place(
    country: string, countryCode: string, region: string, regionName: string,
    city: string, zip: string, latitude: real, longitude: real, timezone: string,
    isp: string, org: string, asInfo: string, source: string)

  /** No source sets the latency, and no row holds it. */
  datatype GeoInfo = GeoInfo(place: Place, latencyMs: int)

  const NOWHERE := GeoInfo(Place("", "", "", "", "", "", 0.0, 0.0, "", "", "", "", ""), 0)

  datatype Sources = Sources(
    local: string -> Option<Place>,
    remote: string -> Option<Place>,
    nonPublic: string -> bool)

  datatype Row = Row(place: Place, createdAt: int)

  type Table = map<string, Row>

  datatype Call = Call(
    ip: string, strategy: seq<string>, sources: Sources,
    readAt: int, writeAt: int, readFails: bool, writeFails: bool)

  /** A row is good for ttl hours, or for ever when there is no limit. */
  predicate Fresh(ttlHours: int, now: int, createdAt: int) {
    ttlHours <= 0 || now - createdAt <= ttlHours * 3600
  }

  function Get(ttlHours: int, rows: Table, c: Call): Option<Place> {
    if !c.readFails && c.ip in rows && Fresh(ttlHours, c.readAt, rows[c.ip].createdAt)
    then Some(rows[c.ip].place) else None
  }

  /** What one step finds at its source; the cache steps have none. */
  function AtSource(step: string, c: Call): Option<Place> {
    if step == "local" then c.sources.local(c.ip)
    else if step == "remote" && !c.sources.nonPublic(c.ip) then c.sources.remote(c.ip)
    else None
  }

  /** The same strategy with no cache: the first source that knows the address. */
  function Uncached(steps: seq<string>, c: Call): Option<Place> {
    if steps == [] then None
    else if AtSource(steps[0], c).Some? then AtSource(steps[0], c)
    else Uncached(steps[1..], c)
  }

  datatype Outcome = Hit(place: Place) | Found(place: Place) | Missing

  function Walk(steps: seq<string>, cached: Option<Place>, c: Call): Outcome {
    if steps == [] then Missing
    else if steps[0] == "l2" && cached.Some? then Hit(cached.value)
    else if AtSource(steps[0], c).Some? then Found(AtSource(steps[0], c).value)
    else Walk(steps[1..], cached, c)
  }

  function OutcomeOf(ttlHours: int, rows: Table, c: Call): Outcome {
    Walk(c.strategy, Get(ttlHours, rows, c), c)
  }

  function InfoOf(place: Option<Place>): GeoInfo {
    if place.Some? then GeoInfo(place.value, 0) else NOWHERE
  }

  function Answer(ttlHours: int, rows: Table, c: Call): GeoInfo {
    var o := OutcomeOf(ttlHours, rows, c);
    InfoOf(if o.Missing? then None else Some(o.place))
  }

  function Apply(ttlHours: int, rows: Table, c: Call): Table {
    var o := OutcomeOf(ttlHours, rows, c);
    if o.Found? && !c.writeFails then rows[c.ip := Row(o.place, c.writeAt)] else rows
  }

  // ---- Runs of lookups that overlap ----

  /** A lookup reads the table and consults its sources, and writes what it found
      at some later moment, when other lookups may have read and written. */
  datatype Step = Look(lookup: nat, call: Call) | Write(lookup: nat)

  datatype Service = Service(rows: Table, found: map<nat, (Call, Place)>)

  function Next(ttlHours: int, s: Service, step: Step): Service {
    match step
    case Look(k, c) =>
      var o := OutcomeOf(ttlHours, s.rows, c);
      if k !in s.found && o.Found? && !c.writeFails then s.(found := s.found[k := (c, o.place)]) else s
    case Write(k) =>
      if k in s.found then
        var (c, place) := s.found[k];
        Service(s.rows[c.ip := Row(place, c.writeAt)], s.found - {k})
      else s
  }

  /** After a run that began with an empty table. */
  function Exec(ttlHours: int, steps: seq<Step>): Service {
    if steps == [] then Service(map[], map[]) else Next(ttlHours, Exec(ttlHours, steps[..|steps| - 1]), steps[|steps| - 1])
  }

  /** A lookup that nothing overlaps is one step of its own. */
  lemma LookupAlone(ttlHours: int, s: Service, k: nat, c: Call)
    requires k !in s.found
    ensures Next(ttlHours, Next(ttlHours, s, Look(k, c)), Write(k)) == s.(rows := Apply(ttlHours, s.rows, c))
  {
    assert s.found - {k} == s.found;
    if OutcomeOf(ttlHours, s.rows, c).Found? && !c.writeFails {
      var looked := Next(ttlHours, s, Look(k, c));
      assert looked.found - {k} == s.found;
    }
  }

  // ---- What the cache may change ----

  lemma {:induction false} WalkIsUncached(steps: seq<string>, cached: Option<Place>, c: Call)
    ensures var o := Walk(steps, cached, c);
            && (o.Hit? ==> cached == Some(o.place))
            && (o.Found? ==> Uncached(steps, c) == Some(o.place))
            && (o.Missing? ==> Uncached(steps, c) == None)
  {
    if steps != [] {
      WalkIsUncached(steps[1..], cached, c);
    }
  }

  // ---- What a lookup answers, by its sources ----

  /** A step answers with this place from a source: the local database, or for a
      public address the remote providers. */
  predicate Known(step: string, c: Call, place: Place) {
    || (step == "local" && c.sources.local(c.ip) == Some(place))
    || (step == "remote" && !c.sources.nonPublic(c.ip) && c.sources.remote(c.ip) == Some(place))
  }

  /** A step answers with this place from a row that is there, readable and not
      older than the time to live. */
  predicate Kept(ttlHours: int, rows: Table, step: string, c: Call, place: Place) {
    && step == "l2" && !c.readFails && c.ip in rows && rows[c.ip].place == place
    && (ttlHours <= 0 || c.readAt <= rows[c.ip].createdAt + 3600 * ttlHours)
  }

  ghost predicate Unknown(step: string, c: Call) {
    forall place :: !Known(step, c, place)
  }

  ghost predicate Silent(ttlHours: int, rows: Table, step: string, c: Call) {
    forall place :: !Known(step, c, place) && !Kept(ttlHours, rows, step, c, place)
  }

  /** The first step to answer without a cache answers with this place. */
  ghost predicate FirstKnown(steps: seq<string>, c: Call, i: nat, place: Place) {
    i < |steps| && Known(steps[i], c, place) && forall j :: 0 <= j < i ==> Unknown(steps[j], c)
  }

  ghost predicate FirstAnswer(ttlHours: int, rows: Table, steps: seq<string>, c: Call, i: nat, place: Place) {
    && i < |steps| && (Known(steps[i], c, place) || Kept(ttlHours, rows, steps[i], c, place))
    && forall j :: 0 <= j < i ==> Silent(ttlHours, rows, steps[j], c)
  }

  lemma {:induction false} UncachedIs(steps: seq<string>, c: Call) returns (i: nat)
    ensures var r := Uncached(steps, c);
            if r.Some? then FirstKnown(steps, c, i, r.value) else forall j :: 0 <= j < |steps| ==> Unknown(steps[j], c)
  {
    i := 0;
    if steps != [] {
      assert AtSource(steps[0], c).Some? ==> Known(steps[0], c, AtSource(steps[0], c).value);
      assert AtSource(steps[0], c).None? ==> Unknown(steps[0], c);
      var k := UncachedIs(steps[1..], c);
      if AtSource(steps[0], c).None? {
        i := k + 1;
        assert forall j :: 0 < j < |steps| ==> steps[j] == steps[1..][j - 1];
      }
    }
  }

  lemma {:induction false} WalkIs(ttlHours: int, rows: Table, steps: seq<string>, c: Call) returns (i: nat)
    ensures var o := Walk(steps, Get(ttlHours, rows, c), c);
            if o.Missing? then forall j :: 0 <= j < |steps| ==> Silent(ttlHours, rows, steps[j], c)
            else FirstAnswer(ttlHours, rows, steps, c, i, o.place) && (o.Hit? <==> steps[i] == "l2")
  {
    i := 0;
    if steps != [] {
      var o := Walk(steps, Get(ttlHours, rows, c), c);
      var here := (steps[0] == "l2" && Get(ttlHours, rows, c).Some?) || AtSource(steps[0], c).Some?;
      if here {
        assert Known(steps[0], c, o.place) || Kept(ttlHours, rows, steps[0], c, o.place);
      } else {
        assert Silent(ttlHours, rows, steps[0], c);
        var k := WalkIs(ttlHours, rows, steps[1..], c);
        i := k + 1;
        assert forall j :: 0 < j < |steps| ==> steps[j] == steps[1..][j - 1];
      }
    }
  }

  /** Without a cache the answer is that of the first step whose source knows the
      address, and there is none when no source of the strategy does. */
  lemma UncachedIff(steps: seq<string>, c: Call, place: Place)
    ensures Uncached(steps, c) == Some(place) <==> exists i :: FirstKnown(steps, c, i, place)
    ensures Uncached(steps, c) == None <==> forall i :: 0 <= i < |steps| ==> Unknown(steps[i], c)
  {
    var k := UncachedIs(steps, c);
    if i: nat :| FirstKnown(steps, c, i, place) {
      assert !Unknown(steps[i], c);
      if Uncached(steps, c).Some? {
        assert !Unknown(steps[k], c);
        assert i == k;
      }
    }
  }

  ghost predicate AllSilent(ttlHours: int, rows: Table, c: Call) {
    forall j :: 0 <= j < |c.strategy| ==> Silent(ttlHours, rows, c.strategy[j], c)
  }

  /** With the cache it is that of the first step to answer from its source or from
      a fresh row, and of nowhere when no step answers. */
  lemma AnswerIff(ttlHours: int, rows: Table, c: Call, place: Place)
    ensures Answer(ttlHours, rows, c) == GeoInfo(place, 0) <==>
              || (exists i :: FirstAnswer(ttlHours, rows, c.strategy, c, i, place))
              || (AllSilent(ttlHours, rows, c) && NOWHERE == GeoInfo(place, 0))
    ensures Answer(ttlHours, rows, c).latencyMs == 0
  {
    var k := WalkIs(ttlHours, rows, c.strategy, c);
    var o := OutcomeOf(ttlHours, rows, c);
    if i: nat :| FirstAnswer(ttlHours, rows, c.strategy, c, i, place) {
      assert !Silent(ttlHours, rows, c.strategy[i], c);
      FirstAnswerIsUnique(ttlHours, rows, c, i, place, k, o.place);
    }
  }

  /** There is one first answer. */
  lemma FirstAnswerIsUnique(ttlHours: int, rows: Table, c: Call, i: nat, p: Place, j: nat, r: Place)
    requires FirstAnswer(ttlHours, rows, c.strategy, c, i, p) && FirstAnswer(ttlHours, rows, c.strategy, c, j, r)
    ensures i == j && p == r
  {
    assert !Silent(ttlHours, rows, c.strategy[i], c) && !Silent(ttlHours, rows, c.strategy[j], c);
  }

  /** What is found at a source is written down, and nothing else is. */
  lemma WritesIff(ttlHours: int, rows: Table, c: Call, i: nat, place: Place)
    requires FirstAnswer(ttlHours, rows, c.strategy, c, i, place)
    ensures Apply(ttlHours, rows, c) ==
              if c.strategy[i] == "l2" || c.writeFails then rows else rows[c.ip := Row(place, c.writeAt)]
  {
    var k := WalkIs(ttlHours, rows, c.strategy, c);
    assert !Silent(ttlHours, rows, c.strategy[i], c);
    FirstAnswerIsUnique(ttlHours, rows, c, i, place, k, OutcomeOf(ttlHours, rows, c).place);
  }

  /** The providers are not asked about an address that is not public: they make no
      difference to the answer, nor to what is written. */
  lemma {:induction false} PrivateStaysHere(ttlHours: int, rows: Table, c: Call, remote: string -> Option<Place>)
    requires c.sources.nonPublic(c.ip)
    ensures var d := c.(sources := c.sources.(remote := remote));
            Answer(ttlHours, rows, d) == Answer(ttlHours, rows, c) && Apply(ttlHours, rows, d) == Apply(ttlHours, rows, c)
  {
    SameWalk(c.strategy, Get(ttlHours, rows, c), c, remote);
  }

  lemma {:induction false} SameWalk(steps: seq<string>, cached: Option<Place>, c: Call, remote: string -> Option<Place>)
    requires c.sources.nonPublic(c.ip)
    ensures Walk(steps, cached, c.(sources := c.sources.(remote := remote))) == Walk(steps, cached, c)
  {
    if steps != [] {
      SameWalk(steps[1..], cached, c, remote);
    }
  }

  // ---- Where answers come from ----

  /** Step `j` looks up this address, and would have found this place uncached. */
  ghost predicate FoundBy(steps: seq<Step>, j: nat, ip: string, place: Place) {
    && j < |steps| && steps[j].Look? && steps[j].call.ip == ip
    && Uncached(steps[j].call.strategy, steps[j].call) == Some(place)
  }

  lemma {:induction false} FindHasLookup(ttlHours: int, steps: seq<Step>, k: nat) returns (j: nat)
    requires k in Exec(ttlHours, steps).found
    ensures var (c, place) := Exec(ttlHours, steps).found[k]; FoundBy(steps, j, c.ip, place) && steps[j].call == c
    decreases |steps|
  {
    var n := |steps| - 1;
    var s := Exec(ttlHours, steps[..n]);
    if k !in s.found {
      var c := steps[n].call;
      WalkIsUncached(c.strategy, Get(ttlHours, s.rows, c), c);
      j := n;
    } else {
      j := FindHasLookup(ttlHours, steps[..n], k);
    }
  }

  /** A row holds what an earlier lookup of its address would have answered
      uncached. */
  lemma {:induction false} RowHasWriter(ttlHours: int, steps: seq<Step>, ip: string) returns (j: nat)
    requires ip in Exec(ttlHours, steps).rows
    ensures var row := Exec(ttlHours, steps).rows[ip]; FoundBy(steps, j, ip, row.place) && steps[j].call.writeAt == row.createdAt
    decreases |steps|
  {
    var n := |steps| - 1;
    var s := Exec(ttlHours, steps[..n]);
    if steps[n].Write? && steps[n].lookup in s.found && s.found[steps[n].lookup].0.ip == ip {
      j := FindHasLookup(ttlHours, steps[..n], steps[n].lookup);
    } else {
      j := RowHasWriter(ttlHours, steps[..n], ip);
    }
  }

  /** Over any run of overlapping lookups, with sources and strategy free to
      change: an answer is the uncached one, or what an earlier lookup of the same
      address would have answered uncached and wrote down within the time to live. */
  lemma AnswerHasOrigin(ttlHours: int, steps: seq<Step>, c: Call) returns (j: nat)
    ensures var answer := Answer(ttlHours, Exec(ttlHours, steps).rows, c);
            || answer == InfoOf(Uncached(c.strategy, c))
            || (&& j < |steps| && steps[j].Look? && steps[j].call.ip == c.ip
                && answer == InfoOf(Uncached(steps[j].call.strategy, steps[j].call))
                && Fresh(ttlHours, c.readAt, steps[j].call.writeAt))
  {
    var rows := Exec(ttlHours, steps).rows;
    WalkIsUncached(c.strategy, Get(ttlHours, rows, c), c);
    if OutcomeOf(ttlHours, rows, c).Hit? {
      j := RowHasWriter(ttlHours, steps, c.ip);
    } else {
      j := 0;
    }
  }

  /** With one strategy and sources that do not change, the cache is invisible:
      whatever the time to live, the order of the steps, the clock, the failures
      of the table and the overlap of lookups. */
  lemma CacheIsTransparent(ttlHours: int, steps: seq<Step>, c: Call)
    requires forall j :: 0 <= j < |steps| && steps[j].Look? ==>
               steps[j].call.strategy == c.strategy && steps[j].call.sources == c.sources
    ensures Answer(ttlHours, Exec(ttlHours, steps).rows, c) == InfoOf(Uncached(c.strategy, c))
  {
    var j := AnswerHasOrigin(ttlHours, steps, c);
    if j < |steps| && steps[j].Look? && steps[j].call.ip == c.ip {
      SameUncached(c.strategy, steps[j].call, c);
    }
  }

  lemma {:induction false} SameUncached(steps: seq<string>, c: Call, d: Call)
    requires c.ip == d.ip && c.sources == d.sources
    ensures Uncached(steps, c) == Uncached(steps, d)
  {
    if steps != [] {
      SameUncached(steps[1..], c, d);
    }
  }

  /** What a lookup found is what the next one of the same address is served from
      the cache, exactly while the row is fresh. */
  lemma FoundIsServed(ttlHours: int, rows: Table, c: Call, d: Call)
    requires OutcomeOf(ttlHours, rows, c).Found? && !c.writeFails
    requires d.ip == c.ip && !d.readFails && d.strategy != [] && d.strategy[0] == "l2"
    ensures var served := OutcomeOf(ttlHours, Apply(ttlHours, rows, c), d);
            && (served.Hit? <==> Fresh(ttlHours, d.readAt, c.writeAt))
            && (served.Hit? ==> served.place == OutcomeOf(ttlHours, rows, c).place)
  {
    WalkIsUncached(d.strategy[1..], None, d);
  }

  // ---- The lookup itself ----

  class GeoIpService {
    const ttlHours: int
    var rows: Table

    method LookupRow(ip: string, now: int, fails: bool) returns (place: Option<Place>)
      ensures place.Some? <==> !fails && ip in rows && Fresh(ttlHours, now, rows[ip].createdAt)
      ensures place.Some? ==> place.value == rows[ip].place
    {
      if fails || ip !in rows {
        return None;
      }
      var row := rows[ip];
      if ttlHours > 0 && now - row.createdAt > ttlHours * 3600 {
        return None;
      }
      return Some(row.place);
    }

    method Store(ip: string, place: Place, now: int, fails: bool)
      modifies this
      ensures rows == if fails then old(rows) else old(rows)[ip := Row(place, now)]
    {
      if !fails {
        rows := rows[ip := Row(place, now)];
      }
    }

    method Lookup(c: Call) returns (info: GeoInfo)
      modifies this
      ensures info == Answer(ttlHours, old(rows), c)
      ensures rows == Apply(ttlHours, old(rows), c)
    {
      ghost var cached := Get(ttlHours, rows, c);
      for i := 0 to |c.strategy|
        invariant rows == old(rows)
        invariant Walk(c.strategy[i..], cached, c) == OutcomeOf(ttlHours, rows, c)
      {
        assert c.strategy[i..][1..] == c.strategy[i + 1..];
        var step := c.strategy[i];
        if step == "l2" {
          var row := LookupRow(c.ip, c.readAt, c.readFails);
          if row.Some? {
            return GeoInfo(row.value, 0);
          }
        } else if step == "local" {
          var place := c.sources.local(c.ip);
          if place.Some? {
            Store(c.ip, place.value, c.writeAt, c.writeFails);
            return GeoInfo(place.value, 0);
          }
        } else if step == "remote" {
          if c.sources.nonPublic(c.ip) {
            continue;
          }
          var place := c.sources.remote(c.ip);
          if place.Some? {
            Store(c.ip, place.value, c.writeAt, c.writeFails);
            return GeoInfo(place.value, 0);
          }
        }
      }
      return NOWHERE;
    }
  }
}
