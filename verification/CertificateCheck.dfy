/** The certificate checker of one thread. */
module CertificateCheck {
  import opened Options
  import opened HostOrder
  import opened Network
  import opened CertificateStore

  class Checker {
    var cached: map<Host, ResultCache>
    var pending: map<Host, seq<Handler>>
    var calls: seq<Call>

    ghost function View(): Store
      reads this
    {
      Store(cached, pending, calls)
    }

    constructor ()
      ensures View() == Store(map[], map[], [])
    {
      cached, pending, calls := map[], map[], [];
    }

    static lemma DropOne(cached: map<Host, ResultCache>, dropped: set<Host>, h: Host, now: int)
      requires h in cached && h !in dropped
      ensures (cached - dropped) - {h} == cached - (dropped + {h})
      ensures h in cached - dropped && (cached - dropped)[h] == cached[h]
      ensures h in Expired(cached, now) <==> now - cached[h].creationTime > LIFESPAN
    {
    }

    /** `erase_if`: drops the entries that have expired, and says how many. */
    method EraseExpired(now: int) returns (released: nat)
      modifies `cached
      ensures cached == old(cached) - Expired(old(cached), now)
      ensures released == |Expired(old(cached), now)|
    {
      released := 0;
      var hosts := cached.Keys;
      ghost var before, expired := cached, Expired(cached, now);
      assert expired <= hosts;
      hide Expired;
      ghost var dropped: set<Host> := {};
      while hosts != {}
        invariant hosts <= before.Keys && expired <= hosts + dropped
        invariant dropped <= expired && hosts !! dropped
        invariant cached == before - dropped && released == |dropped|
        decreases hosts
      {
        var h :| h in hosts;
        DropOne(before, dropped, h, now);
        hosts := hosts - {h};
        if now - cached[h].creationTime > LIFESPAN {
          cached := cached - {h};
          released, dropped := released + 1, dropped + {h};
        }
      }
      assert dropped == expired;
    }

    /** Adds an endpoint to what is trusted of a host. */
    method Trust(host: Host, endpoint: Endpoint, now: int)
      modifies `cached
      ensures cached == Trusting(old(cached), host, endpoint, now)
    {
      var known := host in cached;
      if !known && |cached| > SIZE_LIMIT {
        var released := EraseExpired(now);
        assert released == 0 <==> Expired(old(cached), now) == {};
        if released == 0 {
          assert cached == old(cached);
          cached := cached - {First(cached.Keys)};
        }
      }
      var before := if known then cached[host].trusted else [];
      assert !known ==> before + [endpoint] == [endpoint];
      cached := cached[host := ResultCache(before + [endpoint], now)];
    }

    method WorkerResultHandler(host: Host, endpoint: Endpoint, good: bool, finished: bool, now: int)
      modifies this
      ensures View() == Report(old(View()), host, endpoint, good, finished, now)
    {
      if good {
        Trust(host, endpoint, now);
      }
      if good || finished {
        if host !in pending {
          return;
        }
        var endpoints := if host in cached then cached[host].trusted else [];
        var handlers := pending[host];
        for i := 0 to |handlers|
          invariant calls == old(calls) + CallsFor(handlers[..i], host, endpoints)
          invariant cached == TrustedBefore(old(cached), host, endpoint, good, now) && pending == old(pending)
        {
          calls := calls + [Call(handlers[i], host, endpoints)];
          assert CallsFor(handlers[..i + 1], host, endpoints)
              == CallsFor(handlers[..i], host, endpoints) + [Call(handlers[i], host, endpoints)];
        }
        assert handlers[..|handlers|] == handlers;
        pending := pending - {host};
      }
    }

    static ghost function TrustedBefore(cached: map<Host, ResultCache>, host: Host, endpoint: Endpoint, good: bool,
                                        now: int)
      : map<Host, ResultCache>
    {
      if good then Trusting(cached, host, endpoint, now) else cached
    }

    /** The callback of `DoResolve`: the endpoints are filtered in place, and what is left decides. */
    method OnResolved(blocks: seq<Block>, host: Host, outcome: Outcome, now: int) returns (next: FollowUp)
      modifies this
      ensures next == FollowUpOf(blocks, host, outcome)
      ensures View() == if next.GiveUp? then Report(old(View()), host, NO_ENDPOINT, false, true, now) else old(View())
    {
      next := GiveUp;
      if outcome.Resolved? && |outcome.endpoints| > 0 {
        var results := outcome.endpoints;
        var endpoints := new Endpoint[|results|](i requires 0 <= i < |results| => results[i]);
        assert endpoints[..] == results;
        var size := RemoveV6AndBlockedEndpoints(blocks, endpoints);
        if size > 0 {
          return CheckAll(endpoints[..size]);
        }
        if !EndsWithProxyDomain(host) {
          return ResolveInstead(host + PROXY_DOMAIN);
        }
      }
      WorkerResultHandler(host, NO_ENDPOINT, false, true, now);
    }

    /** Asks for the endpoints of a host: the name to be resolved, and its port, if it has to be. */
    method CheckCertificateOf(host: Host, port: nat, handler: Handler, now: int) returns (resolve: Option<Query>)
      modifies this
      ensures (View(), resolve.Some?) == Request(old(View()), host, handler, now)
      ensures resolve.Some? ==> resolve.value == Query(host, port)
    {
      if host in cached {
        var age := now - cached[host].creationTime;
        if age < LIFESPAN {
          calls := calls + [Call(handler, host, cached[host].trusted)];
          return None;
        } else {
          cached := cached - {host};
        }
      }
      assert cached == old(cached) - {host};
      if host in pending && |pending[host]| > 0 {
        pending := pending[host := pending[host] + [handler]];
        return None;
      }
      pending := pending[host := (if host in pending then pending[host] else []) + [handler]];
      return Some(Query(host, port));
    }
  }

  /** `CertificateCheckWorker`: one check of a host's endpoints, with a countdown to the last result. */
  class Worker {
    const host: Host
    var countdown: nat

    // the endpoints whose checks have not reported yet
    ghost var open: seq<Endpoint>

    ghost predicate Valid()
      reads this
    {
      countdown == |open|
    }

    constructor (host: Host, endpoints: seq<Endpoint>)
      ensures Valid() && this.host == host && open == endpoints
    {
      this.host, countdown, open := host, |endpoints|, endpoints;
    }

    /** `CallHandler`, for any endpoint still open: the result is the last one exactly when no other is left. */
    method CallHandler(ghost index: nat) returns (finished: bool)
      requires Valid() && index < |open|
      modifies this
      ensures Valid() && open == old(open)[..index] + old(open)[index + 1..]
      ensures finished <==> open == []
    {
      countdown := countdown - 1;
      open := open[..index] + open[index + 1..];
      finished := countdown == 0;
    }
  }
}
