/**
 * The port of a request: it decides what port the endpoints of a resolution have, but neither the cache nor those
 * that wait are kept by it.
 */
module CertificatePorts {
  import opened HostOrder
  import opened Network
  import opened CertificateStore
  import opened CertificateRuns

  /** The checker's system, the port of each handler, and the names under resolution with their ports. */
  datatype Ported = Ported(
    system: System, ports: seq<nat>, unanswered: multiset<Query>, answered: multiset<Query>)

  /** An event, and the port of the request or of the resolution it is about. */
  datatype PortEvent = PortEvent(event: Event, port: nat)

  const START := Ported(CertificateRuns.INITIAL, [], multiset{}, multiset{})

  predicate AllOfPort(outcome: Outcome, port: nat) {
    outcome.Resolved? ==> forall e :: e in outcome.endpoints ==> e.port == port
  }

  /** A resolution has endpoints of its own port alone. */
  predicate PortEnabled(s: Ported, e: PortEvent) {
    && Enabled(s.system, e.event)
    && match e.event
       case CallBack(name, again, outcome) =>
         Query(name, e.port) in (if again then s.answered else s.unanswered) && AllOfPort(outcome, e.port)
       case ResolverDone(name) => Query(name, e.port) in s.answered
       case _ => true
  }

  /** The resolutions after one calls back, perhaps for another name with the same port. */
  function Resolving(s: Ported, blocks: seq<Block>, q: Query, again: bool, outcome: Outcome): Ported {
    var s := if again then s
             else s.(unanswered := s.unanswered - multiset{q}, answered := s.answered + multiset{q});
    match FollowUpOf(blocks, q.name, outcome)
    case ResolveInstead(name) => s.(unanswered := s.unanswered + multiset{Query(name, q.port)})
    case _ => s
  }

  function PortNext(s: Ported, blocks: seq<Block>, e: PortEvent): Ported {
    if !PortEnabled(s, e) then s
    else
      var system := Next(s.system, blocks, e.event);
      match e.event
      case Ask(host) =>
        var (_, resolve) := Request(s.system.store, host, |s.system.hosts|, s.system.now);
        s.(system := system, ports := s.ports + [e.port],
           unanswered := if resolve then s.unanswered + multiset{Query(host, e.port)} else s.unanswered)
      case CallBack(name, again, outcome) =>
        Resolving(s.(system := system), blocks, Query(name, e.port), again, outcome)
      case ResolverDone(name) => s.(system := system, answered := s.answered - multiset{Query(name, e.port)})
      case _ => s.(system := system)
  }

  function PortRun(blocks: seq<Block>, events: seq<PortEvent>): Ported
    decreases |events|
  {
    if events == [] then START
    else PortNext(PortRun(blocks, events[..|events| - 1]), blocks, events[|events| - 1])
  }

  // ---- such a run is one of the checker's

  lemma SystemStep(s: Ported, blocks: seq<Block>, e: PortEvent)
    ensures PortNext(s, blocks, e).system
         == if PortEnabled(s, e) then Next(s.system, blocks, e.event) else s.system
  {
    hide Next, FollowUpOf, Request, PortEnabled;
  }

  lemma OneMoreEvent(blocks: seq<Block>, plain: seq<Event>, e: Event)
    ensures Run(CertificateRuns.INITIAL, blocks, plain + [e])
         == Next(Run(CertificateRuns.INITIAL, blocks, plain), blocks, e)
  {
    hide Next;
    assert (plain + [e])[..|plain|] == plain;
  }

  /** Whatever is proved of the checker's runs holds of these. */
  lemma {:induction false} RunsOfTheChecker(blocks: seq<Block>, events: seq<PortEvent>)
    ensures exists plain :: PortRun(blocks, events).system == Run(CertificateRuns.INITIAL, blocks, plain)
    decreases |events|
  {
    hide PortNext, PortEnabled;
    if events == [] {
      assert START.system == Run(CertificateRuns.INITIAL, blocks, []);
    } else {
      var n := |events| - 1;
      RunsOfTheChecker(blocks, events[..n]);
      var s := PortRun(blocks, events[..n]);
      var plain :| s.system == Run(CertificateRuns.INITIAL, blocks, plain);
      hide Run;
      SystemStep(s, blocks, events[n]);
      if PortEnabled(s, events[n]) {
        OneMoreEvent(blocks, plain, events[n].event);
      }
    }
  }

  // ---- requests that agree on their ports

  /** The name a host's resolution may fall back to is the other host's name, or they are the same. */
  predicate Related(host: Host, other: Host) {
    other == host || (!EndsWithProxyDomain(host) && other == host + PROXY_DOMAIN)
  }

  ghost predicate OnePort(allowed: iset<Query>) {
    forall q, r :: q in allowed && r in allowed && Related(q.name, r.name) ==> q.port == r.port
  }

  /** Every request of the run is one of these. */
  ghost predicate Within(allowed: iset<Query>, events: seq<PortEvent>) {
    forall k :: 0 <= k < |events| && events[k].event.Ask? ==> Query(events[k].event.host, events[k].port) in allowed
  }

  /** Every handler has been called with endpoints of the port it asked for alone. */
  predicate PortsKept(s: Ported) {
    forall i :: 0 <= i < |s.system.store.calls| ==>
      var call := s.system.store.calls[i];
      call.handler < |s.ports| && forall e :: e in call.endpoints ==> e.port == s.ports[call.handler]
  }

  /** A name and port under resolution come from a request, perhaps by way of the fallback. */
  ghost predicate Comes(allowed: iset<Query>, name: Host, port: nat) {
    exists q :: q in allowed && q.port == port && Related(q.name, name)
  }

  /** The requests, workers and good results have ports that come from requests. */
  ghost predicate SystemPorts(allowed: iset<Query>, s: System, ports: seq<nat>) {
    && |ports| == |s.hosts|
    && (forall k :: 0 <= k < |ports| ==> Query(s.hosts[k], ports[k]) in allowed)
    && (forall w :: 0 <= w < |s.workers| ==>
          forall e :: e in s.workers[w].open ==> Comes(allowed, s.workers[w].host, e.port))
    && (forall g :: g in s.good ==> Comes(allowed, g.0, g.1.port))
  }

  ghost predicate QueryPorts(allowed: iset<Query>, queries: multiset<Query>) {
    forall q :: q in queries ==> Comes(allowed, q.name, q.port)
  }

  ghost predicate PortInvariant(allowed: iset<Query>, s: Ported) {
    && SystemPorts(allowed, s.system, s.ports)
    && QueryPorts(allowed, s.unanswered) && QueryPorts(allowed, s.answered)
  }

  lemma AskedPorts(allowed: iset<Query>, s: System, t: System, ports: seq<nat>, q: Query)
    requires SystemPorts(allowed, s, ports) && q in allowed
    requires t.hosts == s.hosts + [q.name] && t.workers == s.workers && t.good == s.good
    ensures SystemPorts(allowed, t, ports + [q.port])
  {
    hide Comes;
  }

  lemma MoreQueries(allowed: iset<Query>, queries: multiset<Query>, q: Query)
    requires QueryPorts(allowed, queries) && Comes(allowed, q.name, q.port)
    ensures QueryPorts(allowed, queries + multiset{q})
  {
    hide Comes;
  }

  lemma AskPorts(allowed: iset<Query>, s: Ported, blocks: seq<Block>, e: PortEvent)
    requires PortInvariant(allowed, s) && e.event.Ask? && Query(e.event.host, e.port) in allowed
    ensures PortInvariant(allowed, PortNext(s, blocks, e))
  {
    hide Request, SystemPorts, QueryPorts;
    var q := Query(e.event.host, e.port);
    assert Related(q.name, q.name);
    assert Comes(allowed, q.name, q.port);
    AskedPorts(allowed, s.system, PortNext(s, blocks, e).system, s.ports, q);
    MoreQueries(allowed, s.unanswered, q);
  }

  lemma EndsInDomain(host: Host)
    ensures EndsWithProxyDomain(host + PROXY_DOMAIN)
  {
    var name := host + PROXY_DOMAIN;
    assert name[|name| - |PROXY_DOMAIN|..] == PROXY_DOMAIN;
  }

  lemma FallbackComes(allowed: iset<Query>, name: Host, port: nat)
    requires Comes(allowed, name, port) && !EndsWithProxyDomain(name)
    ensures Comes(allowed, name + PROXY_DOMAIN, port)
  {
    var q :| q in allowed && q.port == port && Related(q.name, name);
    EndsInDomain(q.name);
    assert Related(q.name, name + PROXY_DOMAIN);
  }

  lemma ResolvedPorts(
      allowed: iset<Query>, s: System, ports: seq<nat>, blocks: seq<Block>, q: Query, outcome: Outcome)
    requires SystemPorts(allowed, s, ports) && Comes(allowed, q.name, q.port) && AllOfPort(outcome, q.port)
    ensures SystemPorts(allowed, CertificateRuns.OnResolved(s, blocks, q.name, outcome), ports)
  {
    var next := FollowUpOf(blocks, q.name, outcome);
    if next.CheckAll? {
      assert forall x :: x in next.endpoints ==> x.port == q.port;
      hide Comes, FollowUpOf;
      var t := Checking(s, q.name, next.endpoints);
      assert forall w :: 0 <= w < |s.workers| ==> t.workers[w] == s.workers[w];
      assert t.workers[|s.workers|].host == q.name && t.workers[|s.workers|].open == next.endpoints;
    } else {
      hide Comes, FollowUpOf, Report;
    }
  }

  lemma ResolvingPorts(
      allowed: iset<Query>, s: Ported, blocks: seq<Block>, q: Query, again: bool, outcome: Outcome)
    requires QueryPorts(allowed, s.unanswered) && QueryPorts(allowed, s.answered) && Comes(allowed, q.name, q.port)
    ensures var t := Resolving(s, blocks, q, again, outcome);
            && t.system == s.system && t.ports == s.ports
            && QueryPorts(allowed, t.unanswered) && QueryPorts(allowed, t.answered)
  {
    if FollowUpOf(blocks, q.name, outcome).ResolveInstead? {
      FallbackComes(allowed, q.name, q.port);
    }
    hide Comes, Kept;
  }

  lemma CallBackPorts(allowed: iset<Query>, s: Ported, blocks: seq<Block>, e: PortEvent)
    requires PortInvariant(allowed, s) && e.event.CallBack? && PortEnabled(s, e)
    ensures PortInvariant(allowed, PortNext(s, blocks, e))
  {
    var CallBack(name, again, outcome) := e.event;
    assert Comes(allowed, name, e.port);
    var called := CalledBack(s.system, name, again);
    ResolvedPorts(allowed, called, s.ports, blocks, Query(name, e.port), outcome);
    var t := s.(system := Next(s.system, blocks, e.event));
    ResolvingPorts(allowed, t, blocks, Query(name, e.port), again, outcome);
    hide FollowUpOf, Comes, CertificateRuns.OnResolved, Resolving, SystemPorts, QueryPorts, AllOfPort;
  }

  lemma CheckedPorts(allowed: iset<Query>, s: Ported, blocks: seq<Block>, e: PortEvent)
    requires PortInvariant(allowed, s) && e.event.Checked? && PortEnabled(s, e)
    ensures PortInvariant(allowed, PortNext(s, blocks, e))
  {
    hide Comes, Report;
    var Checked(w, i, ok) := e.event;
    var t := PortNext(s, blocks, e).system;
    forall v, x | 0 <= v < |t.workers| && x in t.workers[v].open
      ensures Comes(allowed, t.workers[v].host, x.port)
    {
      WorkerCameFrom(s.system, w, i, ok, v);
    }
    var open := s.system.workers[w].open;
    assert open[i] in open;
  }

  lemma PortStep(allowed: iset<Query>, s: Ported, blocks: seq<Block>, e: PortEvent)
    requires PortInvariant(allowed, s) && (e.event.Ask? ==> Query(e.event.host, e.port) in allowed)
    ensures PortInvariant(allowed, PortNext(s, blocks, e))
  {
    hide Comes;
    if PortEnabled(s, e) {
      match e.event
      case Ask(_) => AskPorts(allowed, s, blocks, e);
      case CallBack(_, _, _) => CallBackPorts(allowed, s, blocks, e);
      case Checked(_, _, _) => CheckedPorts(allowed, s, blocks, e);
      case Wait(_) =>
      case ResolverDone(_) =>
    }
  }

  lemma {:induction false} PortRunKeeps(allowed: iset<Query>, blocks: seq<Block>, events: seq<PortEvent>)
    requires Within(allowed, events)
    ensures PortInvariant(allowed, PortRun(blocks, events))
    decreases |events|
  {
    hide PortNext;
    if events != [] {
      var n := |events| - 1;
      hide PortInvariant;
      PortRunKeeps(allowed, blocks, events[..n]);
      PortStep(allowed, PortRun(blocks, events[..n]), blocks, events[n]);
    }
  }

  lemma KeptWithOnePort(allowed: iset<Query>, blocks: seq<Block>, events: seq<PortEvent>)
    requires OnePort(allowed) && Within(allowed, events)
    ensures PortsKept(PortRun(blocks, events))
  {
    var s := PortRun(blocks, events);
    PortRunKeeps(allowed, blocks, events);
    RunsOfTheChecker(blocks, events);
    var plain :| s.system == Run(CertificateRuns.INITIAL, blocks, plain);
    RunKeeps(CertificateRuns.INITIAL, blocks, plain);
    hide PortRun, Run;
    forall i, e | 0 <= i < |s.system.store.calls| && e in s.system.store.calls[i].endpoints
      ensures var call := s.system.store.calls[i]; call.handler < |s.ports| && e.port == s.ports[call.handler]
    {
      var call := s.system.store.calls[i];
      assert (call.host, e) in s.system.good;
      var q :| q in allowed && q.port == (call.host, e).1.port && Related(q.name, call.host);
      assert Query(call.host, s.ports[call.handler]) in allowed;
    }
  }

  // ---- requests that do not agree

  /** Some worker checks an endpoint of a host that the second handler waits for, with another port than it asked for. */
  predicate WrongWait(s: Ported, host: Host, x: Endpoint) {
    && |s.ports| == 2 && s.ports[1] != x.port
    && s.system.store.cached == map[] && s.system.store.calls == []
    && host in s.system.store.pending && 1 in s.system.store.pending[host]
    && |s.system.workers| == 1 && s.system.workers[0].host == host && s.system.workers[0].open == [x]
  }

  lemma HandedWrong(s: Ported, blocks: seq<Block>, host: Host, x: Endpoint)
    requires WrongWait(s, host, x)
    ensures !PortsKept(PortNext(s, blocks, PortEvent(Checked(0, 0, true), 0)))
  {
    var t := PortNext(s, blocks, PortEvent(Checked(0, 0, true), 0));
    var waiting := s.system.store.pending[host];
    assert TrustedOf(t.system.store.cached, host) == [x];
    assert t.system.store.calls == CallsFor(waiting, host, [x]);
    var i :| 0 <= i < |waiting| && waiting[i] == 1;
    assert t.system.store.calls[i] == Call(1, host, [x]) && x in [x];
  }

  /** One request has been made, and its name is under resolution. */
  predicate OneAsked(s: Ported, host: Host, port: nat) {
    && s.system.store == Store(map[], map[host := [0]], []) && s.system.hosts == [host] && s.ports == [port]
    && s.system.unanswered == multiset{host} && s.unanswered == multiset{Query(host, port)}
    && s.system.workers == [] && s.system.made == []
  }

  lemma AskedOne(blocks: seq<Block>, host: Host, port: nat)
    ensures OneAsked(PortNext(START, blocks, PortEvent(Ask(host), port)), host, port)
  {
    FirstAsked(blocks, host);
    assert multiset{} + multiset{Query(host, port)} == multiset{Query(host, port)};
    assert [] + [port] == [port];
    assert Request(CertificateRuns.INITIAL.store, host, 0, 0).1;
    hide Next, Request;
  }

  /** The answer to a name under resolution with its port: one endpoint that may be used. */
  lemma AnsweredOne(s: Ported, blocks: seq<Block>, q: Query, x: Endpoint)
    requires q.name in s.system.unanswered && q in s.unanswered && s.system.workers == []
    requires Acceptable(blocks, x) && x.port == q.port
    ensures var t := PortNext(s, blocks, PortEvent(CallBack(q.name, false, Resolved([x])), q.port));
            && t.system.store == s.system.store && t.system.hosts == s.system.hosts && t.ports == s.ports
            && |t.system.workers| == 1 && t.system.workers[0].host == q.name && t.system.workers[0].open == [x]
  {
    KeptOne(blocks, x);
    hide Kept;
    assert FollowUpOf(blocks, q.name, Resolved([x])) == CheckAll([x]);
    hide FollowUpOf;
  }

  lemma KeptOne(blocks: seq<Block>, x: Endpoint)
    ensures Kept(blocks, [x]) == if Acceptable(blocks, x) then [x] else []
  {
    assert [x][..0] == [];
  }

  /** The answer has no endpoint that may be used: the name in the proxy domain is resolved, with the same port. */
  lemma FallsBack(s: Ported, blocks: seq<Block>, host: Host, port: nat)
    requires OneAsked(s, host, port) && !EndsWithProxyDomain(host)
    ensures var t := PortNext(s, blocks, PortEvent(CallBack(host, false, Resolved([V6("", port)])), port));
            && t.system.store == s.system.store && t.system.hosts == s.system.hosts && t.ports == s.ports
            && t.system.workers == []
            && t.system.unanswered == multiset{host + PROXY_DOMAIN}
            && t.unanswered == multiset{Query(host + PROXY_DOMAIN, port)}
  {
    KeptOne(blocks, V6("", port));
    hide Kept;
    assert FollowUpOf(blocks, host, Resolved([V6("", port)])) == ResolveInstead(host + PROXY_DOMAIN);
    hide FollowUpOf;
  }

  lemma JoinsWaiting(s: Ported, blocks: seq<Block>, host: Host, port: nat)
    requires s.system.store == Store(map[], map[host := [0]], []) && |s.system.hosts| == 1
    ensures var t := PortNext(s, blocks, PortEvent(Ask(host), port));
            && t.system.store == Store(map[], map[host := [0, 1]], []) && t.ports == s.ports + [port]
            && t.system.workers == s.system.workers
  {
    var zero: seq<Handler> := [0];
    assert zero + [1] == [0, 1];
  }

  lemma WaitsBeside(s: Ported, blocks: seq<Block>, host: Host, other: Host, port: nat)
    requires s.system.store == Store(map[], map[host := [0]], []) && |s.system.hosts| == 1 && other != host
    ensures var t := PortNext(s, blocks, PortEvent(Ask(other), port));
            && t.system.store == Store(map[], map[host := [0], other := [1]], []) && t.ports == s.ports + [port]
            && t.system.workers == s.system.workers
            && s.system.unanswered <= t.system.unanswered && s.unanswered <= t.unanswered
  {
    var none: seq<Handler> := [];
    assert none + [1] == [1];
  }

  lemma OneMorePort(blocks: seq<Block>, events: seq<PortEvent>, e: PortEvent)
    ensures PortRun(blocks, events + [e]) == PortNext(PortRun(blocks, events), blocks, e)
  {
  }

  lemma WithinMore(allowed: iset<Query>, events: seq<PortEvent>, e: PortEvent)
    requires Within(allowed, events) && (e.event.Ask? ==> Query(e.event.host, e.port) in allowed)
    ensures Within(allowed, events + [e])
  {
  }

  /** One event more of a run within the requests. */
  lemma GoOn(allowed: iset<Query>, blocks: seq<Block>, events: seq<PortEvent>, e: PortEvent)
    returns (longer: seq<PortEvent>)
    requires Within(allowed, events) && (e.event.Ask? ==> Query(e.event.host, e.port) in allowed)
    ensures Within(allowed, longer) && PortRun(blocks, longer) == PortNext(PortRun(blocks, events), blocks, e)
  {
    OneMorePort(blocks, events, e);
    WithinMore(allowed, events, e);
    longer := events + [e];
  }

  /** Two requests for one host with different ports. */
  lemma SameHostWrong(allowed: iset<Query>, blocks: seq<Block>, q: Query, r: Query, address: Address)
    returns (events: seq<PortEvent>)
    requires q in allowed && r in allowed && q.name == r.name && q.port != r.port && !Blocked(blocks, address)
    ensures Within(allowed, events) && !PortsKept(PortRun(blocks, events))
  {
    hide PortNext, PortRun, PortsKept;
    var x := V4(address, q.port);
    StartRun(allowed, blocks);
    AskedOne(blocks, q.name, q.port);
    events := GoOn(allowed, blocks, [], PortEvent(Ask(q.name), q.port));
    AnsweredOne(PortRun(blocks, events), blocks, q, x);
    events := GoOn(allowed, blocks, events, PortEvent(CallBack(q.name, false, Resolved([x])), q.port));
    JoinsWaiting(PortRun(blocks, events), blocks, q.name, r.port);
    events := GoOn(allowed, blocks, events, PortEvent(Ask(r.name), r.port));
    HandedWrong(PortRun(blocks, events), blocks, q.name, x);
    events := GoOn(allowed, blocks, events, PortEvent(Checked(0, 0, true), 0));
  }

  lemma StartRun(allowed: iset<Query>, blocks: seq<Block>)
    ensures Within(allowed, []) && PortRun(blocks, []) == START
  {
  }

  /** A request for a host, and one with another port for its name in the proxy domain. */
  lemma FallbackWrong(allowed: iset<Query>, blocks: seq<Block>, q: Query, r: Query, address: Address)
    returns (events: seq<PortEvent>)
    requires q in allowed && r in allowed && q.port != r.port && !Blocked(blocks, address)
    requires !EndsWithProxyDomain(q.name) && r.name == q.name + PROXY_DOMAIN
    ensures Within(allowed, events) && !PortsKept(PortRun(blocks, events))
  {
    hide PortNext, PortRun, PortsKept;
    var x, fallback := V4(address, q.port), Query(r.name, q.port);
    StartRun(allowed, blocks);
    AskedOne(blocks, q.name, q.port);
    events := GoOn(allowed, blocks, [], PortEvent(Ask(q.name), q.port));
    FallsBack(PortRun(blocks, events), blocks, q.name, q.port);
    events := GoOn(allowed, blocks, events, PortEvent(CallBack(q.name, false, Resolved([V6("", q.port)])), q.port));
    assert |r.name| > |q.name|;
    WaitsBeside(PortRun(blocks, events), blocks, q.name, r.name, r.port);
    events := GoOn(allowed, blocks, events, PortEvent(Ask(r.name), r.port));
    AnsweredOne(PortRun(blocks, events), blocks, fallback, x);
    events := GoOn(allowed, blocks, events, PortEvent(CallBack(r.name, false, Resolved([x])), q.port));
    HandedWrong(PortRun(blocks, events), blocks, r.name, x);
    events := GoOn(allowed, blocks, events, PortEvent(Checked(0, 0, true), 0));
  }

  /** With every address blocked no endpoint is ever handed out. */
  lemma NothingHandedOut(allowed: iset<Query>, blocks: seq<Block>, events: seq<PortEvent>)
    requires Within(allowed, events) && forall a: Address :: Blocked(blocks, a)
    ensures PortsKept(PortRun(blocks, events))
  {
    var s := PortRun(blocks, events);
    PortRunKeeps(allowed, blocks, events);
    RunsOfTheChecker(blocks, events);
    var plain :| s.system == Run(CertificateRuns.INITIAL, blocks, plain);
    RunKeeps(CertificateRuns.INITIAL, blocks, plain);
    hide PortRun, Run;
    forall i | 0 <= i < |s.system.store.calls|
      ensures s.system.store.calls[i].endpoints == []
    {
      if s.system.store.calls[i].endpoints != [] {
        OnlyGoodHandedOut(blocks, plain, i, s.system.store.calls[i].endpoints[0]);
      }
    }
  }

  /**
   * With only these requests made, whatever happens, every handler is called with endpoints of the port it asked for
   * exactly if those for one host, or for a host and its name in the proxy domain, agree on the port; or if every
   * address is blocked.
   */
  lemma PortsKeptExactly(allowed: iset<Query>, blocks: seq<Block>)
    ensures (forall events :: Within(allowed, events) ==> PortsKept(PortRun(blocks, events)))
            <==> OnePort(allowed) || forall a: Address :: Blocked(blocks, a)
  {
    hide Within, PortRun, PortsKept;
    if OnePort(allowed) {
      forall events | Within(allowed, events)
        ensures PortsKept(PortRun(blocks, events))
      {
        KeptWithOnePort(allowed, blocks, events);
      }
    } else if address: Address :| !Blocked(blocks, address) {
      var q, r :| q in allowed && r in allowed && Related(q.name, r.name) && q.port != r.port;
      if q.name == r.name {
        var events := SameHostWrong(allowed, blocks, q, r, address);
      } else {
        var events := FallbackWrong(allowed, blocks, q, r, address);
      }
    } else {
      forall events | Within(allowed, events)
        ensures PortsKept(PortRun(blocks, events))
      {
        NothingHandedOut(allowed, blocks, events);
      }
    }
  }
}
