/**
 Approval requests waiting for a decision, and the caps on them.

 The manager keeps the requests in one map and, beside it, two maps of counters
 per source address and per proxy. The counters decide admission, so the caps
 mean something only while the counters are the true counts.
 */
module Pending {
  import opened Options

  const MAX_PENDING := 1000
  const MAX_PENDING_PER_IP := 10
  const MAX_PENDING_PER_PROXY := 200

  /** The two attributes of a request that are counted. */
  datatype Attribute = SourceIp | Proxy

  datatype Request = Request(id: string, proxyId: string, sourceIp: string, ruleId: string) {
    function On(attr: Attribute): string {
      if attr.SourceIp? then sourceIp else proxyId
    }
  }

  type Requests = map<string, Request>

  /** The pending requests that carry `key` under `attr`. */
  function Having(requests: Requests, attr: Attribute, key: string): set<string> {
    set id | id in requests && requests[id].On(attr) == key
  }

  /** Room for a request under the three caps, by the true counts; a request
      without a proxy is not held to the proxy cap. */
  predicate Room(requests: Requests, r: Request) {
    && |requests| < 1000
    && |Having(requests, SourceIp, r.sourceIp)| < 10
    && (r.proxyId == "" || |Having(requests, Proxy, r.proxyId)| < 200)
  }

  function Admit(requests: Requests, r: Request): Requests {
    if Room(requests, r) then requests[r.id := r] else requests
  }

  function Release(requests: Requests, id: string): Requests {
    requests - {id}
  }

  ghost predicate WithinCaps(requests: Requests) {
    && |requests| <= 1000
    && (forall ip :: |Having(requests, SourceIp, ip)| <= 10)
    && (forall proxy :: proxy != "" ==> |Having(requests, Proxy, proxy)| <= 200)
  }

  /** `counters` holds the count of `ids` under `key`, and no entry for a zero count. */
  ghost predicate Counts(counters: map<string, nat>, key: string, ids: set<string>) {
    && (key in counters <==> ids != {})
    && (key in counters ==> counters[key] == |ids|)
  }

  ghost predicate Exact(counters: map<string, nat>, requests: Requests, attr: Attribute) {
    forall key :: (attr.SourceIp? || key != "") ==> Counts(counters, key, Having(requests, attr, key))
  }

  lemma HavingAfterInsert(requests: Requests, r: Request, attr: Attribute, key: string)
    ensures Having(requests[r.id := r], attr, key)
         == Having(requests, attr, key) - {r.id} + if key == r.On(attr) then {r.id} else {}
  {
  }

  lemma HavingAfterRelease(requests: Requests, id: string, attr: Attribute, key: string)
    ensures Having(Release(requests, id), attr, key) == Having(requests, attr, key) - {id}
  {
  }

  /** What the admission does to the counters of one attribute. */
  function Increment(counters: map<string, nat>, key: string): map<string, nat> {
    counters[key := if key in counters then counters[key] + 1 else 1]
  }

  /** Saturating subtraction of one, dropping the key at zero. */
  function Decrement(counters: map<string, nat>, key: string): map<string, nat>
    requires key in counters
  {
    var count := if counters[key] == 0 then 0 else counters[key] - 1;
    if count == 0 then counters - {key} else counters[key := count]
  }

  function CountOf(counters: map<string, nat>, key: string): nat {
    if key in counters then counters[key] else 0
  }

  /** Room for a request as the admission sees it, by the counters. */
  predicate Fits(requests: Requests, byIp: map<string, nat>, byProxy: map<string, nat>, r: Request) {
    && |requests| < MAX_PENDING
    && CountOf(byIp, r.sourceIp) < MAX_PENDING_PER_IP
    && (r.proxyId == "" || CountOf(byProxy, r.proxyId) < MAX_PENDING_PER_PROXY)
  }

  /** Exact counters decide as the true counts do. */
  lemma FitsIffRoom(requests: Requests, byIp: map<string, nat>, byProxy: map<string, nat>, r: Request)
    requires Exact(byIp, requests, SourceIp) && Exact(byProxy, requests, Proxy)
    ensures Fits(requests, byIp, byProxy, r) <==> Room(requests, r)
  {
    assert Counts(byIp, r.sourceIp, Having(requests, SourceIp, r.sourceIp));
    assert r.proxyId != "" ==> Counts(byProxy, r.proxyId, Having(requests, Proxy, r.proxyId));
  }

  /** A fresh id keeps the counters exact. */
  lemma FreshStaysExact(counters: map<string, nat>, requests: Requests, attr: Attribute, r: Request)
    requires Exact(counters, requests, attr) && r.id !in requests
    requires attr.SourceIp? || r.On(attr) != ""
    ensures Exact(Increment(counters, r.On(attr)), requests[r.id := r], attr)
  {
    var after, counters' := requests[r.id := r], Increment(counters, r.On(attr));
    forall key | attr.SourceIp? || key != ""
      ensures Counts(counters', key, Having(after, attr, key))
    {
      HavingAfterInsert(requests, r, attr, key);
      assert Counts(counters, key, Having(requests, attr, key));
      assert Having(requests, attr, key) - {r.id} == Having(requests, attr, key);
    }
  }

  /** A request without this attribute leaves its counters exact. */
  lemma UnlabelledStaysExact(counters: map<string, nat>, requests: Requests, r: Request)
    requires Exact(counters, requests, Proxy) && r.id !in requests && r.proxyId == ""
    ensures Exact(counters, requests[r.id := r], Proxy)
  {
    var after := requests[r.id := r];
    forall key | key != ""
      ensures Counts(counters, key, Having(after, Proxy, key))
    {
      HavingAfterInsert(requests, r, Proxy, key);
      assert Counts(counters, key, Having(requests, Proxy, key));
      assert Having(requests, Proxy, key) - {r.id} == Having(requests, Proxy, key);
    }
  }

  /** Reusing a pending id always breaks the per-address counters: the replaced
      request's address keeps a count for a request that is gone. */
  lemma ReusedBreaksExact(counters: map<string, nat>, requests: Requests, r: Request)
    requires Exact(counters, requests, SourceIp) && r.id in requests
    ensures !Exact(Increment(counters, r.sourceIp), requests[r.id := r], SourceIp)
  {
    var lost := requests[r.id].sourceIp;
    HavingAfterInsert(requests, r, SourceIp, lost);
    assert r.id in Having(requests, SourceIp, lost);
    assert Counts(counters, lost, Having(requests, SourceIp, lost));
    assert !Counts(Increment(counters, r.sourceIp), lost, Having(requests[r.id := r], SourceIp, lost));
  }

  /** Freeing a request finds a positive counter, and the result is exact again. */
  lemma ReleaseStaysExact(counters: map<string, nat>, requests: Requests, attr: Attribute, id: string)
    requires Exact(counters, requests, attr) && id in requests
    ensures var key := requests[id].On(attr);
            if attr.SourceIp? || key != ""
            then key in counters && counters[key] > 0 && Exact(Decrement(counters, key), Release(requests, id), attr)
            else Exact(counters, Release(requests, id), attr)
  {
    var mine := requests[id].On(attr);
    assert id in Having(requests, attr, mine);
    assert (attr.SourceIp? || mine != "") ==> Counts(counters, mine, Having(requests, attr, mine));
    var after := if attr.SourceIp? || mine != "" then Decrement(counters, mine) else counters;
    forall key | attr.SourceIp? || key != ""
      ensures Counts(after, key, Having(Release(requests, id), attr, key))
    {
      var before := Having(requests, attr, key);
      HavingAfterRelease(requests, id, attr, key);
      assert Counts(counters, key, before);
      if key == mine {
        assert |before - {id}| == |before| - 1;
        assert before - {id} == {} <==> |before| == 1;
      } else {
        assert before - {id} == before;
      }
    }
  }

  lemma AdmitWithinCaps(requests: Requests, r: Request)
    requires WithinCaps(requests)
    ensures WithinCaps(Admit(requests, r))
  {
    if Room(requests, r) {
      forall attr, key
        ensures |Having(Admit(requests, r), attr, key)|
             <= |Having(requests, attr, key)| + if key == r.On(attr) then 1 else 0
      {
        HavingAfterInsert(requests, r, attr, key);
        Subset(Having(requests, attr, key) - {r.id}, Having(requests, attr, key));
      }
    }
  }

  lemma ReleaseWithinCaps(requests: Requests, id: string)
    requires WithinCaps(requests)
    ensures WithinCaps(Release(requests, id))
  {
    Subset(Release(requests, id).Keys, requests.Keys);
    forall attr, key
      ensures |Having(Release(requests, id), attr, key)| <= |Having(requests, attr, key)|
    {
      HavingAfterRelease(requests, id, attr, key);
      Subset(Having(requests, attr, key) - {id}, Having(requests, attr, key));
    }
  }

  lemma Subset<T>(a: set<T>, b: set<T>)
    requires a <= b
    ensures |a| <= |b|
  {
    assert b == a + (b - a);
  }

  class PendingState {
    var requests: Requests
    var byIp: map<string, nat>
    var byProxy: map<string, nat>

    ghost predicate Valid()
      reads this
    {
      && Exact(byIp, requests, SourceIp) && Exact(byProxy, requests, Proxy)
      && WithinCaps(requests)
    }

    constructor ()
      ensures Valid() && requests == map[]
    {
      requests, byIp, byProxy := map[], map[], map[];
    }

    /** Admission under the lock. The caller should bring a fresh id: reusing the
        id of a pending request is exactly what makes the counters drift. */
    method RequestApproval(r: Request) returns (admitted: bool)
      requires Valid()
      modifies this
      ensures admitted == Room(old(requests), r)
      ensures requests == Admit(old(requests), r)
      ensures WithinCaps(requests)
      ensures Valid() <==> !(admitted && r.id in old(requests))
    {
      AdmitWithinCaps(requests, r);
      if |requests| >= MAX_PENDING {
        return false;
      }
      assert Counts(byIp, r.sourceIp, Having(requests, SourceIp, r.sourceIp));
      var ipCount := if r.sourceIp in byIp then byIp[r.sourceIp] else 0;
      if ipCount >= MAX_PENDING_PER_IP {
        return false;
      }
      if r.proxyId != "" {
        assert Counts(byProxy, r.proxyId, Having(requests, Proxy, r.proxyId));
        var proxyCount := if r.proxyId in byProxy then byProxy[r.proxyId] else 0;
        if proxyCount >= MAX_PENDING_PER_PROXY {
          return false;
        }
        byProxy := byProxy[r.proxyId := proxyCount + 1];
      }
      byIp := byIp[r.sourceIp := ipCount + 1];
      requests := requests[r.id := r];
      if r.id in old(requests) {
        ReusedBreaksExact(old(byIp), old(requests), r);
      } else {
        FreshStaysExact(old(byIp), old(requests), SourceIp, r);
        if r.proxyId != "" {
          FreshStaysExact(old(byProxy), old(requests), Proxy, r);
        } else {
          UnlabelledStaysExact(old(byProxy), old(requests), r);
        }
      }
      return true;
    }

    /** Both the decision and the waiter's own clean-up free a request here:
        whichever comes first gets it, the other finds nothing. */
    method Take(id: string) returns (taken: Option<Request>)
      requires Valid()
      modifies this
      ensures Valid()
      ensures requests == Release(old(requests), id)
      ensures taken == if id in old(requests) then Some(old(requests)[id]) else None
    {
      ReleaseWithinCaps(requests, id);
      if id !in requests {
        assert Release(requests, id) == requests;
        return None;
      }
      var r := requests[id];
      ReleaseStaysExact(byIp, requests, SourceIp, id);
      ReleaseStaysExact(byProxy, requests, Proxy, id);
      requests := requests - {id};
      // Both counters are true counts, so neither subtraction saturates.
      if r.sourceIp in byIp {
        byIp := Decrement(byIp, r.sourceIp);
      }
      if r.proxyId != "" && r.proxyId in byProxy {
        byProxy := Decrement(byProxy, r.proxyId);
      }
      return Some(r);
    }
  }
}
