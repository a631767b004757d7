/**
 The replay protection of the Hub command loop: a timestamp window of 60 s on
 either side of the node's clock, and a cache of request ids that a periodic
 tick evicts after 300 s. The client object, and with it the cache, outlives the
 stream: a reconnect starts a new loop on the same cache.
 */
module Replay {
  import opened Options

  const WINDOW := 60
  const RETENTION := 300
  /** The clock may fall this far below an earlier reading before a replay can pass. */
  const SLACK := RETENTION - 2 * WINDOW

  /** A decrypted command; `decodable` says whether its inner payload decodes. */
  datatype Secure = Secure(requestId: string, timestamp: int, decodable: bool)

  /** What the loop learns of one message: `signed` holds when the signature
      verifies or no CA key is loaded, `secure` is present when decryption and
      decoding succeed. */
  datatype Command = Command(encrypted: bool, fingerprint: string, signed: bool, secure: Option<Secure>) {
    predicate Authentic() {
      encrypted && fingerprint != "" && signed && secure.Some?
    }
  }

  datatype Event =
    | Tick(now: int)
    | Receive(now: int, cmd: Command)
    | StreamClosed(now: int)

  datatype Verdict = Unauthentic | OutOfWindow | Replayed | Undecodable | Dispatched {
    /** The command got past every check; an undecodable one still uses up its id. */
    predicate Passed() { Undecodable? || Dispatched? }
  }

  type Cache = map<string, int>

  predicate InWindow(timestamp: int, now: int) {
    now - WINDOW <= timestamp <= now + WINDOW
  }

  function Judge(cache: Cache, now: int, cmd: Command): Verdict {
    if !cmd.Authentic() then Unauthentic
    else if !InWindow(cmd.secure.value.timestamp, now) then OutOfWindow
    else if cmd.secure.value.requestId != "" && cmd.secure.value.requestId in cache then Replayed
    else if cmd.secure.value.decodable then Dispatched
    else Undecodable
  }

  function Evict(cache: Cache, now: int): Cache {
    map id | id in cache && now - cache[id] < RETENTION :: cache[id]
  }

  function Step(cache: Cache, e: Event): Cache {
    match e
    case Tick(now) => Evict(cache, now)
    case Receive(now, cmd) =>
      if Judge(cache, now, cmd).Passed() && cmd.secure.value.requestId != ""
      then cache[cmd.secure.value.requestId := now]
      else cache
    case StreamClosed(_) => cache
  }

  /** The cache after a run of events, reconnects included. */
  function Exec(cache: Cache, events: seq<Event>): Cache {
    if events == [] then cache
    else Step(Exec(cache, events[..|events| - 1]), events[|events| - 1])
  }

  function VerdictAt(cache: Cache, events: seq<Event>, i: nat): Option<Verdict>
    requires i < |events|
  {
    if events[i].Receive?
    then Some(Judge(Exec(cache, events[..i]), events[i].now, events[i].cmd))
    else None
  }

  class HubClient {
    var replayCache: Cache

    constructor ()
      ensures replayCache == map[]
    {
      replayCache := map[];
    }

    /** One connection's loop: it stops at the end of the stream and leaves the
        cache behind for the next connection. */
    method CommandLoop(events: seq<Event>) returns (verdicts: seq<Option<Verdict>>)
      modifies this
      ensures |verdicts| <= |events|
      ensures |verdicts| == |events| || (|verdicts| > 0 && events[|verdicts| - 1].StreamClosed?)
      ensures forall i :: 0 <= i < |verdicts| - 1 ==> !events[i].StreamClosed?
      ensures forall i :: 0 <= i < |verdicts| ==> verdicts[i] == VerdictAt(old(replayCache), events, i)
      ensures replayCache == Exec(old(replayCache), events[..|verdicts|])
    {
      verdicts := [];
      ghost var initial := replayCache;
      while |verdicts| < |events|
        invariant |verdicts| <= |events|
        invariant forall i :: 0 <= i < |verdicts| ==> !events[i].StreamClosed?
        invariant forall i :: 0 <= i < |verdicts| ==> verdicts[i] == VerdictAt(initial, events, i)
        invariant replayCache == Exec(initial, events[..|verdicts|])
      {
        var e := events[|verdicts|];
        assert events[..|verdicts| + 1][..|verdicts|] == events[..|verdicts|];
        match e {
          case Tick(now) =>
            replayCache := map id | id in replayCache && now - replayCache[id] < RETENTION :: replayCache[id];
            verdicts := verdicts + [None];
          case StreamClosed(_) =>
            verdicts := verdicts + [None];
            return;
          case Receive(now, cmd) =>
            var verdict := Receive(now, cmd);
            verdicts := verdicts + [Some(verdict)];
        }
      }
    }

    /** The checks on one message, in the order the loop makes them. */
    method Receive(now: int, cmd: Command) returns (verdict: Verdict)
      modifies this
      ensures verdict == Judge(old(replayCache), now, cmd)
      ensures replayCache == Step(old(replayCache), Event.Receive(now, cmd))
    {
      if !cmd.encrypted || cmd.fingerprint == "" || !cmd.signed || cmd.secure.None? {
        return Unauthentic;
      }
      var secure := cmd.secure.value;
      if secure.timestamp < now - WINDOW || secure.timestamp > now + WINDOW {
        return OutOfWindow;
      }
      if secure.requestId != "" {
        if secure.requestId in replayCache {
          return Replayed;
        }
        replayCache := replayCache[secure.requestId := now];
      }
      return if secure.decodable then Dispatched else Undecodable;
    }
  }

  /** Running two connections one after the other is one run over both. */
  lemma {:induction false} ReconnectKeepsRun(cache: Cache, first: seq<Event>, second: seq<Event>)
    ensures Exec(Exec(cache, first), second) == Exec(cache, first + second)
    decreases |second|
  {
    if second == [] {
      assert first + second == first;
    } else {
      var n := |second| - 1;
      ReconnectKeepsRun(cache, first, second[..n]);
      assert (first + second)[..|first| + n] == first + second[..n];
    }
  }

  /** Event `i` of a run from an empty cache is a message with this id that passed. */
  predicate PassedAt(events: seq<Event>, i: nat, id: string) {
    && i < |events|
    && events[i].Receive?
    && Judge(Exec(map[], events[..i]), events[i].now, events[i].cmd).Passed()
    && events[i].cmd.secure.value.requestId == id
  }

  /** No tick strictly between event `i` and event `n` sees event `i` as 300 s old. */
  predicate Survives(events: seq<Event>, i: nat, n: nat)
    requires i < n <= |events|
  {
    forall k :: i < k < n && events[k].Tick? ==> events[k].now - events[i].now < RETENTION
  }

  /** A passed id stays in the cache, with its time, while no tick is 300 s later. */
  lemma {:induction false} Retained(events: seq<Event>, i: nat, id: string)
    requires id != "" && PassedAt(events, i, id) && Survives(events, i, |events|)
    ensures id in Exec(map[], events) && Exec(map[], events)[id] == events[i].now
    decreases |events|
  {
    var n := |events| - 1;
    if i < n {
      assert events[..n][..i] == events[..i];
      Retained(events[..n], i, id);
    }
  }

  /** Conversely, whatever the cache holds is a message that passed and survived. */
  lemma {:induction false} Remembered(events: seq<Event>, id: string) returns (i: nat)
    requires id in Exec(map[], events)
    ensures PassedAt(events, i, id) && Survives(events, i, |events|)
    ensures id != "" && Exec(map[], events)[id] == events[i].now
    decreases |events|
  {
    var n := |events| - 1;
    var before := events[..n];
    if PassedAt(events, n, id) && id != "" {
      i := n;
    } else {
      i := Remembered(before, id);
      assert before[..i] == events[..i];
      assert forall k :: i < k < n ==> before[k] == events[k];
    }
  }

  /** What the checks on the message itself ask for. */
  predicate Acceptable(now: int, cmd: Command) {
    && cmd.encrypted && cmd.fingerprint != "" && cmd.signed && cmd.secure.Some?
    && -60 <= cmd.secure.value.timestamp - now <= 60
  }

  /** An earlier message with this id passed, and no tick before event `j` came
      300 s later. */
  ghost predicate SeenBefore(events: seq<Event>, j: nat, id: string)
    requires j <= |events|
  {
    exists i :: 0 <= i < j && PassedAt(events, i, id) &&
                forall k :: i < k < j && events[k].Tick? ==> events[k].now < events[i].now + 300
  }

  lemma CachedIff(events: seq<Event>, j: nat, id: string)
    requires j <= |events| && id != ""
    ensures id in Exec(map[], events[..j]) <==> SeenBefore(events, j, id)
  {
    var before := events[..j];
    if id in Exec(map[], before) {
      var i := Remembered(before, id);
      assert before[..i] == events[..i];
      assert forall k :: i < k < j ==> before[k] == events[k];
      assert PassedAt(events, i, id);
    }
    if SeenBefore(events, j, id) {
      var i :| 0 <= i < j && PassedAt(events, i, id) &&
               forall k :: i < k < j && events[k].Tick? ==> events[k].now < events[i].now + 300;
      assert before[..i] == events[..i];
      Retained(before, i, id);
    }
  }

  /** When a message passes, said by its fields and without the cache: it is
      encrypted, names a key, is signed, decrypts, is in the window, and no earlier
      message with its id passed and survived until now. It is dispatched if its
      payload decodes too. */
  lemma PassesIff(events: seq<Event>, j: nat)
    requires j < |events| && events[j].Receive?
    ensures var cmd, verdict := events[j].cmd, VerdictAt(map[], events, j).value;
            && (verdict.Passed() <==>
                  && Acceptable(events[j].now, cmd)
                  && (cmd.secure.value.requestId == "" || !SeenBefore(events, j, cmd.secure.value.requestId)))
            && (verdict.Dispatched? <==> verdict.Passed() && cmd.secure.value.decodable)
            && (verdict.Replayed? <==> Acceptable(events[j].now, cmd) && !verdict.Passed())
            && (verdict.Unauthentic? <==> !(cmd.encrypted && cmd.fingerprint != "" && cmd.signed && cmd.secure.Some?))
  {
    var cmd := events[j].cmd;
    if cmd.secure.Some? && cmd.secure.value.requestId != "" {
      CachedIff(events, j, cmd.secure.value.requestId);
    }
  }

  /** Every reading of the clock is at most `d` below each earlier reading. */
  predicate FallsAtMost(events: seq<Event>, d: int) {
    forall k, j :: 0 <= k < j < |events| ==> events[k].now <= events[j].now + d
  }

  /** The same command, by id and timestamp, passes the checks at two events. */
  predicate Repeats(events: seq<Event>, i: nat, j: nat, id: string) {
    && i < j
    && PassedAt(events, i, id) && PassedAt(events, j, id)
    && events[i].cmd.secure.value.timestamp == events[j].cmd.secure.value.timestamp
  }

  lemma NoRepeat(events: seq<Event>, i: nat, j: nat, id: string)
    requires FallsAtMost(events, SLACK - 1) && id != ""
    ensures !Repeats(events, i, j, id)
  {
    if Repeats(events, i, j, id) {
      // The tick that evicted the id reads at least 180 s more than event j.
      PassesIff(events, j);
    }
  }

  ghost predicate ReplayFree(events: seq<Event>) {
    forall i: nat, j: nat, id: string :: id != "" ==> !Repeats(events, i, j, id)
  }

  /** The window and the retention tolerate a clock that falls back by less than
      180 s, and by no more: the protection holds on every run whose clock falls
      by at most `d` exactly when `d < 180`. */
  lemma ReplayFreeIff(d: int)
    ensures (forall events: seq<Event> :: FallsAtMost(events, d) ==> ReplayFree(events)) <==> d < 180
  {
    if d < SLACK {
      forall events | FallsAtMost(events, d)
        ensures ReplayFree(events)
      {
        assert FallsAtMost(events, SLACK - 1);
        forall i: nat, j: nat, id: string | id != ""
          ensures !Repeats(events, i, j, id)
        {
          NoRepeat(events, i, j, id);
        }
      }
    } else {
      var events := FallOf180();
      assert FallsAtMost(events, d);
      assert !ReplayFree(events);
    }
  }

  /** A clock that falls by exactly 180 s after an eviction lets a command pass twice. */
  lemma FallOf180() returns (events: seq<Event>)
    ensures FallsAtMost(events, SLACK) && Repeats(events, 0, 2, "r")
  {
    var cmd := Command(true, "f", true, Some(Secure("r", WINDOW, true)));
    events := [Receive(0, cmd), Tick(RETENTION), Receive(2 * WINDOW, cmd)];
    var empty: Cache := map[];
    assert events[..1][..0] == events[..0] == [];
    assert Exec(empty, events[..0]) == empty;
    assert Judge(empty, 0, cmd) == Dispatched;
    assert Exec(empty, events[..1]) == Step(empty, events[0]) == map["r" := 0];
    assert events[..2][..1] == events[..1];
    assert Exec(empty, events[..2]) == Evict(map["r" := 0], RETENTION) == empty;
  }

  /** On a clock that never runs backwards a command can pass twice exactly when
      it carries no request id. */
  lemma RepeatableIff(id: string, timestamp: int)
    ensures (exists events: seq<Event>, i: nat, j: nat ::
              FallsAtMost(events, 0) && Repeats(events, i, j, id) && events[i].cmd.secure.value.timestamp == timestamp)
            <==> id == ""
  {
    if id == "" {
      var e := Receive(timestamp, Command(true, "f", true, Some(Secure("", timestamp, true))));
      assert [e, e][..1] == [e] && [e, e][..0] == [];
      assert FallsAtMost([e, e], 0) && Repeats([e, e], 0, 1, id);
    } else {
      forall events, i: nat, j: nat | FallsAtMost(events, 0) && Repeats(events, i, j, id)
        ensures false
      {
        assert FallsAtMost(events, SLACK - 1);
        NoRepeat(events, i, j, id);
      }
    }
  }
}
