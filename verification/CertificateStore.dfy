/** The order of `std::map<std::string, ...>`, whose first entry is the one dropped when none has expired. */
module HostOrder {
  type Host = string

  predicate Before(a: Host, b: Host) {
    b != [] && (a == [] || a[0] < b[0] || (a[0] == b[0] && Before(a[1..], b[1..])))
  }

  lemma {:induction false} BeforeTotal(a: Host, b: Host)
    ensures a == b || Before(a, b) || Before(b, a)
    ensures !(Before(a, b) && Before(b, a)) && !Before(a, a)
  {
    if a != [] {
      BeforeTotal(a[1..], a[1..]);
    }
    if a != [] && b != [] {
      BeforeTotal(a[1..], b[1..]);
      assert a[0] == b[0] && a[1..] == b[1..] ==> a == b by {
        assert a == [a[0]] + a[1..] && b == [b[0]] + b[1..];
      }
    }
  }

  lemma {:induction false} BeforeTransitive(a: Host, b: Host, c: Host)
    requires Before(a, b) && Before(b, c)
    ensures Before(a, c)
  {
    if a != [] && a[0] == b[0] == c[0] {
      BeforeTransitive(a[1..], b[1..], c[1..]);
    }
  }

  predicate IsFirst(hosts: set<Host>, h: Host) {
    h in hosts && forall k :: k in hosts ==> k == h || Before(h, k)
  }

  lemma {:induction false} FirstExists(hosts: set<Host>)
    requires hosts != {}
    ensures exists h :: IsFirst(hosts, h)
  {
    var h :| h in hosts;
    var rest := hosts - {h};
    if rest == {} {
      assert hosts == {h};
      assert IsFirst(hosts, h);
    } else {
      FirstExists(rest);
      var f :| IsFirst(rest, f);
      BeforeTotal(h, f);
      var first := if Before(h, f) then h else f;
      forall k | k in hosts
        ensures k == first || Before(first, k)
      {
        if k != h && Before(h, f) && k != f {
          BeforeTransitive(h, f, k);
        }
      }
      assert IsFirst(hosts, first);
    }
  }

  /** The first of some hosts. */
  function First(hosts: set<Host>): (h: Host)
    requires hosts != {}
    ensures IsFirst(hosts, h)
  {
    FirstExists(hosts);
    assert forall a, b :: IsFirst(hosts, a) && IsFirst(hosts, b) ==> a == b by {
      forall a, b | IsFirst(hosts, a) && IsFirst(hosts, b)
        ensures a == b
      {
        BeforeTotal(a, b);
      }
    }
    var h :| IsFirst(hosts, h);
    h
  }
}

/** The cache of checked hosts and the handlers that wait, as values. */
module CertificateStore {
  import opened HostOrder
  import opened Network

  const LIFESPAN := 30_000_000_000  // nanoseconds
  const SIZE_LIMIT := 4096

  /** Handlers are numbered in the order they come. */
  type Handler = nat

  datatype ResultCache = ResultCache(trusted: seq<Endpoint>, creationTime: int)

  /** A name to be resolved, and the port its endpoints are to have. */
  datatype Query = Query(name: Host, port: nat)

  /** A call of a handler with the endpoints found for its host. */
  datatype Call = Call(handler: Handler, host: Host, endpoints: seq<Endpoint>)

  datatype Store = Store(
    cached: map<Host, ResultCache>,
    pending: map<Host, seq<Handler>>,
    calls: seq<Call>)

  function Expired(cached: map<Host, ResultCache>, now: int): set<Host> {
    set h | h in cached && now - cached[h].creationTime > LIFESPAN
  }

  /** Room for one more host: all that has expired goes, or else the first entry. */
  function Evicted(cached: map<Host, ResultCache>, now: int): map<Host, ResultCache>
    requires cached != map[]
  {
    if Expired(cached, now) != {} then cached - Expired(cached, now)
    else cached - {First(cached.Keys)}
  }

  function Trusting(cached: map<Host, ResultCache>, host: Host, endpoint: Endpoint, now: int): map<Host, ResultCache> {
    if host in cached then cached[host := ResultCache(cached[host].trusted + [endpoint], now)]
    else (if |cached| > SIZE_LIMIT then Evicted(cached, now) else cached)[host := ResultCache([endpoint], now)]
  }

  function TrustedOf(cached: map<Host, ResultCache>, host: Host): seq<Endpoint> {
    if host in cached then cached[host].trusted else []
  }

  function CallsFor(handlers: seq<Handler>, host: Host, endpoints: seq<Endpoint>): (calls: seq<Call>)
    ensures |calls| == |handlers|
    ensures forall i :: 0 <= i < |handlers| ==> calls[i] == Call(handlers[i], host, endpoints)
  {
    seq(|handlers|, i requires 0 <= i < |handlers| => Call(handlers[i], host, endpoints))
  }

  /** All that waits for a host is called with what is known of it. */
  function Drained(s: Store, host: Host): Store {
    if host in s.pending then
      s.(pending := s.pending - {host}, calls := s.calls + CallsFor(s.pending[host], host, TrustedOf(s.cached, host)))
    else s
  }

  /** `WorkerResultHandler`: a result for one endpoint, good or not, perhaps the last one of its worker. */
  function Report(s: Store, host: Host, endpoint: Endpoint, good: bool, finished: bool, now: int): Store {
    var s := if good then s.(cached := Trusting(s.cached, host, endpoint, now)) else s;
    if good || finished then Drained(s, host) else s
  }

  predicate Hit(s: Store, host: Host, now: int) {
    host in s.cached && now - s.cached[host].creationTime < LIFESPAN
  }

  /** `CheckCertificateOf`: answered from the cache, joined to those that wait, or the first to wait. */
  function Request(s: Store, host: Host, handler: Handler, now: int): (r: (Store, bool)) {
    if Hit(s, host, now) then
      (s.(calls := s.calls + [Call(handler, host, s.cached[host].trusted)]), false)
    else
      var s := s.(cached := s.cached - {host});
      if host in s.pending && |s.pending[host]| > 0 then
        (s.(pending := s.pending[host := s.pending[host] + [handler]]), false)
      else
        (s.(pending := s.pending[host := (if host in s.pending then s.pending[host] else []) + [handler]]), true)
  }

  // ---- what a name resolves to

  const PROXY_DOMAIN := ".hood-proxy"

  predicate EndsWithProxyDomain(host: Host) {
    |host| >= |PROXY_DOMAIN| && host[|host| - |PROXY_DOMAIN|..] == PROXY_DOMAIN
  }

  const NO_ENDPOINT := V4(0, 0)

  datatype Outcome = ResolveError | Resolved(endpoints: seq<Endpoint>)

  /** What follows a resolution: an error for all that wait, another resolution, or a check of the endpoints left. */
  datatype FollowUp = GiveUp | ResolveInstead(name: Host) | CheckAll(endpoints: seq<Endpoint>)

  function FollowUpOf(blocks: seq<Block>, host: Host, outcome: Outcome): FollowUp {
    if outcome.ResolveError? || outcome.endpoints == [] then GiveUp
    else if Kept(blocks, outcome.endpoints) != [] then CheckAll(Kept(blocks, outcome.endpoints))
    else if EndsWithProxyDomain(host) then GiveUp
    else ResolveInstead(host + PROXY_DOMAIN)
  }
}
