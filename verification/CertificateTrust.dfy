/** What the handlers are handed: just the endpoints reported good since the cache took their host in. */
module CertificateTrust {
  import opened HostOrder
  import opened Network
  import opened Sequences
  import opened CertificateStore
  import opened CertificateRuns

  // ---- the cache

  /** The order of hosts is that of their first difference; of two that start the same the shorter comes first. */
  lemma {:induction false} BeforeExactly(a: Host, b: Host)
    ensures Before(a, b) <==>
            exists k :: 0 <= k <= |a| && k < |b| && a[..k] == b[..k] && (k < |a| ==> a[k] < b[k])
  {
    if a == [] || b == [] || a[0] != b[0] {
      assert a[..0] == b[..0];
    } else {
      BeforeExactly(a[1..], b[1..]);
      if Before(a, b) {
        var k :| 0 <= k <= |a| - 1 && k < |b| - 1 && a[1..][..k] == b[1..][..k] && (k < |a| - 1 ==> a[1..][k] < b[1..][k]);
        assert a[..k + 1] == [a[0]] + a[1..][..k] && b[..k + 1] == [b[0]] + b[1..][..k];
      }
      if k :| 0 <= k <= |a| && k < |b| && a[..k] == b[..k] && (k < |a| ==> a[k] < b[k]) {
        assert k > 0;
        assert a[1..][..k - 1] == a[..k][1..] && b[1..][..k - 1] == b[..k][1..];
      }
    }
  }

  /**
   * A good result for one host drops another exactly if the first is new, the cache is over its limit, and the other
   * is over its lifespan, or none is and it comes before all the others. Nothing else happens to the others.
   */
  lemma OthersKeptExactly(cached: map<Host, ResultCache>, host: Host, endpoint: Endpoint, now: int, h: Host)
    requires h in cached && h != host
    ensures var after := Trusting(cached, host, endpoint, now);
            && (h in after ==> after[h] == cached[h])
            && (h !in after <==>
                 && host !in cached && |cached| > SIZE_LIMIT
                 && if exists x :: x in cached && now - cached[x].creationTime > LIFESPAN
                    then now - cached[h].creationTime > LIFESPAN
                    else forall x :: x in cached && x != h ==> Before(h, x))
  {
    if host !in cached && |cached| > SIZE_LIMIT && Expired(cached, now) == {} {
      var first := First(cached.Keys);
      assert Evicted(cached, now) == cached - {first};
      BeforeTotal(first, h);
    }
    if x :| x in cached && now - cached[x].creationTime > LIFESPAN {
      assert x in Expired(cached, now);
    }
  }

  // ---- the endpoints reported good, over runs

  /** The event reports an endpoint good for the host. */
  predicate ReportsGood(s: System, e: Event, host: Host) {
    Enabled(s, e) && e.Checked? && e.ok && s.workers[e.worker].host == host
  }

  /** The endpoints reported good for the host, in order, since the cache took it in; none if it is not in the cache. */
  function Reported(blocks: seq<Block>, events: seq<Event>, host: Host): seq<Endpoint>
    decreases |events|
  {
    if events == [] || host !in Run(INITIAL, blocks, events).store.cached then []
    else
      var front, e := events[..|events| - 1], events[|events| - 1];
      var s := Run(INITIAL, blocks, front);
      Reported(blocks, front, host)
      + if ReportsGood(s, e, host) then [s.workers[e.worker].open[e.index]] else []
  }

  lemma TrustingAdds(cached: map<Host, ResultCache>, host: Host, endpoint: Endpoint, now: int, h: Host)
    ensures var after := Trusting(cached, host, endpoint, now);
            if h == host then TrustedOf(after, h) == TrustedOf(cached, h) + [endpoint]
            else h in after ==> h in cached && after[h] == cached[h]
  {
    if h in cached && h != host {
      OthersKeptExactly(cached, host, endpoint, now, h);
    }
  }

  /** One event adds to what is trusted of a host what it reports good, if the host stays in the cache. */
  lemma TrustedNext(s: System, blocks: seq<Block>, e: Event, host: Host)
    ensures var t := Next(s, blocks, e);
            host in t.store.cached ==>
              TrustedOf(t.store.cached, host)
              == TrustedOf(s.store.cached, host)
                 + if ReportsGood(s, e, host) then [s.workers[e.worker].open[e.index]] else []
  {
    hide Trusting, Report, FollowUpOf;
    assert TrustedOf(s.store.cached, host) + [] == TrustedOf(s.store.cached, host);
    if Enabled(s, e) && e.Checked? {
      var Worker(_, checked, open, countdown) := s.workers[e.worker];
      TrustingAdds(s.store.cached, checked, open[e.index], s.now, host);
      ReportCaches(s.store, checked, open[e.index], e.ok, countdown - 1 == 0, s.now);
    } else if e.CallBack? {
      ReportCaches(s.store, e.name, NO_ENDPOINT, false, true, s.now);
    }
  }

  lemma ReportCaches(s: Store, host: Host, endpoint: Endpoint, good: bool, finished: bool, now: int)
    ensures Report(s, host, endpoint, good, finished, now).cached
         == if good then Trusting(s.cached, host, endpoint, now) else s.cached
  {
  }

  /** What the cache holds of a host is, in every run, just what was reported good since it was taken in. */
  lemma {:induction false} TrustedExactly(blocks: seq<Block>, events: seq<Event>, host: Host)
    ensures TrustedOf(Run(INITIAL, blocks, events).store.cached, host) == Reported(blocks, events, host)
    decreases |events|
  {
    if events != [] {
      var front, e := events[..|events| - 1], events[|events| - 1];
      TrustedExactly(blocks, front, host);
      TrustedNext(Run(INITIAL, blocks, front), blocks, e, host);
    }
  }

  /** The events of a run and one more. */
  lemma RunNext(blocks: seq<Block>, events: seq<Event>, e: Event)
    ensures Run(INITIAL, blocks, events + [e]) == Next(Run(INITIAL, blocks, events), blocks, e)
  {
    assert (events + [e])[..|events|] == events;
  }

  /**
   * Whatever the event that brings it, a call hands over just the endpoints reported good for its host since the cache
   * took the host in, in order. The calls before stay.
   */
  lemma HandedOutExactly(blocks: seq<Block>, events: seq<Event>, e: Event)
    ensures var before, calls := Run(INITIAL, blocks, events).store.calls, Run(INITIAL, blocks, events + [e]).store.calls;
            && before <= calls
            && forall k :: |before| <= k < |calls| ==>
                 calls[k].endpoints == Reported(blocks, events + [e], calls[k].host)
  {
    RunNext(blocks, events, e);
    var s, t := Run(INITIAL, blocks, events), Run(INITIAL, blocks, events + [e]);
    CallsTrusted(s, blocks, e);
    forall k | |s.store.calls| <= k < |t.store.calls|
      ensures t.store.calls[k].endpoints == Reported(blocks, events + [e], t.store.calls[k].host)
    {
      TrustedExactly(blocks, events + [e], t.store.calls[k].host);
    }
  }

  lemma CallsTrusted(s: System, blocks: seq<Block>, e: Event)
    ensures var t := Next(s, blocks, e);
            && s.store.calls <= t.store.calls
            && forall k :: |s.store.calls| <= k < |t.store.calls| ==>
                 t.store.calls[k].endpoints == TrustedOf(t.store.cached, t.store.calls[k].host)
  {
    hide Report, FollowUpOf, CallsFor;
    if Enabled(s, e) && e.Checked? {
      var Worker(_, host, open, countdown) := s.workers[e.worker];
      ReportCalls(s.store, host, open[e.index], e.ok, countdown - 1 == 0, s.now);
    } else if e.CallBack? {
      ReportCalls(s.store, e.name, NO_ENDPOINT, false, true, s.now);
    }
  }

  /**
   * A request is answered at once exactly if its host is in the cache and the host's last good result came less than
   * 30 s ago. It is then handed just the endpoints reported good since the cache took the host in, which are some.
   * Otherwise it waits, behind those that wait for the host already, and the cache does not hold the host any more.
   */
  lemma AnsweredExactly(blocks: seq<Block>, events: seq<Event>, host: Host)
    ensures var s, t := Run(INITIAL, blocks, events), Run(INITIAL, blocks, events + [Ask(host)]);
            var before := if host in s.store.pending then s.store.pending[host] else [];
            && (host in s.store.cached ==> host in s.lastGood)
            && if host in s.store.cached && s.now - s.lastGood[host] < 30_000_000_000
               then && t.store == s.store.(calls := s.store.calls
                                                    + [Call(|s.hosts|, host, Reported(blocks, events, host))])
                    && Reported(blocks, events, host) != []
               else t.store == s.store.(cached := s.store.cached - {host},
                                        pending := s.store.pending[host := before + [|s.hosts|]])
  {
    hide Run, Reported, Waiting, NoneLost, CalledOnce, CallsSound, OnlyAcceptable, Attended;
    RunNext(blocks, events, Ask(host));
    RunKeeps(INITIAL, blocks, events);
    TrustedExactly(blocks, events, host);
  }

  /**
   * A result calls handlers exactly if it is good or the last of its worker: all that wait for the host, in the order
   * they came, each with just the endpoints reported good since the cache took the host in, this one included.
   */
  lemma CalledExactly(blocks: seq<Block>, events: seq<Event>, w: nat, i: nat, ok: bool)
    requires Enabled(Run(INITIAL, blocks, events), Checked(w, i, ok))
    ensures var s, t := Run(INITIAL, blocks, events), Run(INITIAL, blocks, events + [Checked(w, i, ok)]);
            var Worker(_, host, open, _) := s.workers[w];
            var endpoints := Reported(blocks, events + [Checked(w, i, ok)], host);
            && (ok ==> endpoints == Reported(blocks, events, host) + [open[i]])
            && (!ok ==> endpoints == Reported(blocks, events, host))
            && if (ok || |open| == 1) && host in s.store.pending
               then && t.store.pending == s.store.pending - {host}
                    && |t.store.calls| == |s.store.calls| + |s.store.pending[host]|
                    && s.store.calls <= t.store.calls
                    && forall k :: 0 <= k < |s.store.pending[host]| ==>
                         t.store.calls[|s.store.calls| + k] == Call(s.store.pending[host][k], host, endpoints)
               else t.store.pending == s.store.pending && t.store.calls == s.store.calls
  {
    hide Run, Reported, Invariant, Report, Trusting;
    var e := Checked(w, i, ok);
    RunNext(blocks, events, e);
    CheckedNext(blocks, events, w, i, ok);
    var s := Run(INITIAL, blocks, events);
    var Worker(_, host, open, countdown) := s.workers[w];
    TrustedExactly(blocks, events, host);
    TrustedExactly(blocks, events + [e], host);
    ReportCaches(s.store, host, open[i], ok, countdown - 1 == 0, s.now);
    TrustingAdds(s.store.cached, host, open[i], s.now, host);
    ReportCalls(s.store, host, open[i], ok, countdown - 1 == 0, s.now);
  }

  lemma CheckedNext(blocks: seq<Block>, events: seq<Event>, w: nat, i: nat, ok: bool)
    requires Enabled(Run(INITIAL, blocks, events), Checked(w, i, ok))
    ensures var s := Run(INITIAL, blocks, events);
            var Worker(_, host, open, countdown) := s.workers[w];
            && countdown == |open|
            && Next(s, blocks, Checked(w, i, ok)).store == Report(s.store, host, open[i], ok, countdown - 1 == 0, s.now)
  {
    hide Run, Sound, Report;
    RunKeeps(INITIAL, blocks, events);
  }

  lemma ReportCalls(s: Store, host: Host, endpoint: Endpoint, good: bool, finished: bool, now: int)
    ensures var t := Report(s, host, endpoint, good, finished, now);
            if (good || finished) && host in s.pending
            then && t.pending == s.pending - {host}
                 && t.calls == s.calls + CallsFor(s.pending[host], host, TrustedOf(t.cached, host))
            else t.pending == s.pending && t.calls == s.calls
  {
    hide Trusting;
  }

  // ---- what follows a resolution

  /**
   * What is resolved without an error and with endpoints has all those of version 4 in no block checked, in order; if
   * there are none, the name in the proxy domain is resolved instead, unless this one is in it. Else it is given up.
   */
  lemma FollowUpExactly(blocks: seq<Block>, host: Host, outcome: Outcome, keep: Endpoint -> bool)
    requires forall e :: keep(e) <==> e.V4? && forall i :: 0 <= i < |blocks| ==> !Covers(blocks[i], e.address)
    ensures var next := FollowUpOf(blocks, host, outcome);
            var some := outcome.Resolved? && outcome.endpoints != [];
            var usable := some && exists e :: e in outcome.endpoints && keep(e);
            var within := exists front :: host == front + ".hood-proxy";
            && (next.CheckAll? <==> usable)
            && (usable ==> Keeps(outcome.endpoints, keep, next.endpoints))
            && (next.ResolveInstead? <==> some && !usable && !within)
            && (next.ResolveInstead? ==> next.name == host + ".hood-proxy")
            && (next.GiveUp? <==> !some || (!usable && within))
  {
    if outcome.Resolved? {
      KeptExactly(blocks, outcome.endpoints, keep);
    }
    if EndsWithProxyDomain(host) {
      assert host == host[..|host| - |PROXY_DOMAIN|] + PROXY_DOMAIN;
    }
  }
}
