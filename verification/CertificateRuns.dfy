/** Runs of the certificate checker with its resolvers and workers. */
module CertificateRuns {
  import opened HostOrder
  import opened Network
  import opened CertificateStore

  /** A worker: the endpoints it has not reported on yet, and its countdown. */
  datatype Worker = Worker(id: nat, host: Host, open: seq<Endpoint>, countdown: int)

  datatype System = System(
    store: Store,
    now: int,
    hosts: seq<Host>,                // the host each handler asked for
    unanswered: multiset<Host>,      // name resolutions that have not called back
    answered: multiset<Host>,        // those that have, and may again
    workers: seq<Worker>,            // those that have endpoints left
    made: seq<Worker>,               // every worker as it was made, numbered
    good: set<(Host, Endpoint)>,     // every good result so far
    lastGood: map<Host, int>,        // when the last of a host came
    fellBack: set<Host>)             // hosts given up for their name in the proxy domain

  datatype Event =
    | Ask(host: Host)
    | Wait(time: nat)
    | CallBack(name: Host, again: bool, outcome: Outcome)
    | ResolverDone(name: Host)
    | Checked(worker: nat, index: nat, ok: bool)

  const INITIAL := System(Store(map[], map[], []), 0, [], multiset{}, multiset{}, [], [], {}, map[], {})

  predicate Enabled(s: System, e: Event) {
    match e
    case Ask(_) => true
    case Wait(_) => true
    case CallBack(name, again, _) => if again then name in s.answered else name in s.unanswered
    case ResolverDone(name) => name in s.answered
    case Checked(w, i, _) => w < |s.workers| && i < |s.workers[w].open|
  }

  /** The resolution of a name that calls back has called back, and may again. */
  function CalledBack(s: System, name: Host, again: bool): System {
    if again then s
    else s.(unanswered := s.unanswered - multiset{name}, answered := s.answered + multiset{name})
  }

  /** An error for the host, the last result there will be. */
  function GivenUp(s: System, host: Host): System {
    s.(store := Report(s.store, host, NO_ENDPOINT, false, true, s.now))
  }

  /** A worker is made for the endpoints, and begins to check them all. */
  function Checking(s: System, host: Host, endpoints: seq<Endpoint>): System {
    var worker := Worker(|s.made|, host, endpoints, |endpoints|);
    s.(workers := s.workers + [worker], made := s.made + [worker])
  }

  function OnResolved(s: System, blocks: seq<Block>, host: Host, outcome: Outcome): System {
    match FollowUpOf(blocks, host, outcome)
    case GiveUp => GivenUp(s, host)
    case ResolveInstead(name) => s.(unanswered := s.unanswered + multiset{name}, fellBack := s.fellBack + {host})
    case CheckAll(endpoints) => Checking(s, host, endpoints)
  }

  function OnChecked(s: System, w: nat, i: nat, ok: bool): System
    requires w < |s.workers| && i < |s.workers[w].open|
  {
    var Worker(id, host, open, countdown) := s.workers[w];
    var left := open[..i] + open[i + 1..];
    s.(store := Report(s.store, host, open[i], ok, countdown - 1 == 0, s.now),
       workers := if left == [] then s.workers[..w] + s.workers[w + 1..]
                  else s.workers[w := Worker(id, host, left, countdown - 1)],
       good := if ok then s.good + {(host, open[i])} else s.good,
       lastGood := if ok then s.lastGood[host := s.now] else s.lastGood)
  }

  function Next(s: System, blocks: seq<Block>, e: Event): System {
    if !Enabled(s, e) then s
    else
      match e
      case Ask(host) =>
        var (store, resolve) := Request(s.store, host, |s.hosts|, s.now);
        s.(store := store, hosts := s.hosts + [host],
           unanswered := if resolve then s.unanswered + multiset{host} else s.unanswered)
      case Wait(time) => s.(now := s.now + time)
      case CallBack(name, again, outcome) =>
        OnResolved(CalledBack(s, name, again), blocks, name, outcome)
      case ResolverDone(name) => s.(answered := s.answered - multiset{name})
      case Checked(w, i, ok) => OnChecked(s, w, i, ok)
  }

  function Run(s: System, blocks: seq<Block>, events: seq<Event>): System
    decreases |events|
  {
    if events == [] then s
    else Next(Run(s, blocks, events[..|events| - 1]), blocks, events[|events| - 1])
  }

  // ---- requests are conserved

  predicate IsCalled(calls: seq<Call>, handler: Handler) {
    exists i :: 0 <= i < |calls| && calls[i].handler == handler
  }

  /** No handler is called twice, and each is called for the host it asked for. */
  predicate CalledOnce(s: System) {
    && (forall i, j :: 0 <= i < j < |s.store.calls| ==> s.store.calls[i].handler != s.store.calls[j].handler)
    && (forall i :: 0 <= i < |s.store.calls| ==>
          s.store.calls[i].handler < |s.hosts| && s.hosts[s.store.calls[i].handler] == s.store.calls[i].host)
  }

  /** The handlers that wait for a host asked for it, are different, and have not been called. */
  predicate Waiting(s: System) {
    forall h :: h in s.store.pending ==>
      && s.store.pending[h] != []
      && (forall i, j :: 0 <= i < j < |s.store.pending[h]| ==> s.store.pending[h][i] < s.store.pending[h][j])
      && (forall i :: 0 <= i < |s.store.pending[h]| ==>
            && s.store.pending[h][i] < |s.hosts|
            && s.hosts[s.store.pending[h][i]] == h
            && !IsCalled(s.store.calls, s.store.pending[h][i]))
  }

  /** Every handler has been called or waits. */
  predicate NoneLost(s: System) {
    forall handler :: 0 <= handler < |s.hosts| ==>
      IsCalled(s.store.calls, handler) ||
      (s.hosts[handler] in s.store.pending && handler in s.store.pending[s.hosts[handler]])
  }

  predicate HasWorker(workers: seq<Worker>, host: Host) {
    exists w :: 0 <= w < |workers| && workers[w].host == host
  }

  /**
   * For a host with handlers waiting, except those in `but`, a resolution or a worker is under way; or the host was
   * given up for its name in the proxy domain.
   */
  predicate Attended(s: System, but: set<Host>) {
    && (forall w :: 0 <= w < |s.workers| ==> s.workers[w].open != [] && s.workers[w].countdown == |s.workers[w].open|)
    && (forall h :: h in s.store.pending && h !in but ==>
          h in s.unanswered || HasWorker(s.workers, h) || h in s.fellBack)
    && (forall h :: h in s.fellBack ==> !EndsWithProxyDomain(h))
  }

  // ---- what is handed out is sound

  predicate CacheSound(s: System) {
    && |s.store.cached| <= SIZE_LIMIT + 1
    && (forall h :: h in s.store.cached ==>
          && s.store.cached[h].trusted != []
          && h in s.lastGood && s.lastGood[h] == s.store.cached[h].creationTime
          && forall e :: e in s.store.cached[h].trusted ==> (h, e) in s.good)
  }

  predicate CallsSound(s: System) {
    forall i :: 0 <= i < |s.store.calls| ==>
      forall e :: e in s.store.calls[i].endpoints ==> (s.store.calls[i].host, e) in s.good
  }

  predicate OnlyAcceptable(s: System, blocks: seq<Block>) {
    && (forall w :: 0 <= w < |s.workers| ==> forall e :: e in s.workers[w].open ==> Acceptable(blocks, e))
    && (forall g :: g in s.good ==> Acceptable(blocks, g.1))
  }

  /** All but that the hosts that wait are attended to. */
  predicate Sound(s: System, blocks: seq<Block>) {
    CalledOnce(s) && Waiting(s) && NoneLost(s) && CacheSound(s) && CallsSound(s) && OnlyAcceptable(s, blocks)
  }

  predicate Invariant(s: System, blocks: seq<Block>) {
    Sound(s, blocks) && Attended(s, {})
  }

  // ---- every event keeps it

  /** The calls and waiting lists of requests, as far as conservation goes. */
  predicate Conserved(s: System) {
    CalledOnce(s) && Waiting(s) && NoneLost(s)
  }

  lemma CalledAppend(calls: seq<Call>, more: seq<Call>, handler: Handler)
    ensures IsCalled(calls + more, handler) <==> IsCalled(calls, handler) || IsCalled(more, handler)
  {
    assert forall i :: 0 <= i < |calls| ==> (calls + more)[i] == calls[i];
    assert forall i :: 0 <= i < |more| ==> (calls + more)[|calls| + i] == more[i];
  }

  lemma CalledFor(handlers: seq<Handler>, host: Host, endpoints: seq<Endpoint>, handler: Handler)
    ensures IsCalled(CallsFor(handlers, host, endpoints), handler) <==> handler in handlers
  {
  }

  /** Calling all that wait for a host loses none and calls none twice. */
  lemma DrainConserves(s: System, t: System, host: Host)
    requires Conserved(s) && t.hosts == s.hosts
    requires t.store.pending == Drained(s.store.(cached := t.store.cached), host).pending
    requires t.store.calls == Drained(s.store.(cached := t.store.cached), host).calls
    ensures Conserved(t)
  {
    if host in s.store.pending {
      var waiting := s.store.pending[host];
      var more := CallsFor(waiting, host, TrustedOf(t.store.cached, host));
      assert t.store.calls == s.store.calls + more;
      forall handler: Handler
        ensures IsCalled(t.store.calls, handler) <==> IsCalled(s.store.calls, handler) || handler in waiting
      {
        CalledAppend(s.store.calls, more, handler);
        CalledFor(waiting, host, TrustedOf(t.store.cached, host), handler);
      }
      assert CalledOnce(t) by {
        forall i, j | 0 <= i < j < |t.store.calls|
          ensures t.store.calls[i].handler != t.store.calls[j].handler
        {
          var n := |s.store.calls|;
          if i < n <= j {
            assert !IsCalled(s.store.calls, waiting[j - n]);
            assert t.store.calls[i].handler == s.store.calls[i].handler;
          } else if n <= i {
            assert waiting[i - n] < waiting[j - n];
          }
        }
      }
      assert Waiting(t) by {
        forall h, i | h in t.store.pending && 0 <= i < |t.store.pending[h]|
          ensures !IsCalled(t.store.calls, t.store.pending[h][i])
        {
          assert t.store.pending[h] == s.store.pending[h];
          assert s.hosts[t.store.pending[h][i]] == h;
        }
      }
    }
  }

  lemma RequestConserves(s: System, host: Host)
    requires Conserved(s)
    ensures Conserved(s.(store := Request(s.store, host, |s.hosts|, s.now).0, hosts := s.hosts + [host]))
  {
    var t := s.(store := Request(s.store, host, |s.hosts|, s.now).0, hosts := s.hosts + [host]);
    assert !IsCalled(s.store.calls, |s.hosts|);
    if Hit(s.store, host, s.now) {
      HitConserves(s, t, host);
    } else {
      MissConserves(s, t, host);
    }
  }

  lemma HitConserves(s: System, t: System, host: Host)
    requires Conserved(s) && !IsCalled(s.store.calls, |s.hosts|)
    requires t.hosts == s.hosts + [host] && t.store.pending == s.store.pending
    requires exists endpoints :: t.store.calls == s.store.calls + [Call(|s.hosts|, host, endpoints)]
    ensures Conserved(t)
  {
    var n := |s.hosts|;
    var endpoints :| t.store.calls == s.store.calls + [Call(n, host, endpoints)];
    var more := [Call(n, host, endpoints)];
    assert forall k :: 0 <= k < n ==> t.hosts[k] == s.hosts[k];
    forall handler: Handler
      ensures IsCalled(t.store.calls, handler) <==> IsCalled(s.store.calls, handler) || handler == n
    {
      CalledAppend(s.store.calls, more, handler);
      assert more[0].handler == n;
    }
  }

  lemma MissConserves(s: System, t: System, host: Host)
    requires Conserved(s) && !IsCalled(s.store.calls, |s.hosts|)
    requires t.hosts == s.hosts + [host] && t.store.calls == s.store.calls
    requires var before := if host in s.store.pending then s.store.pending[host] else [];
             t.store.pending == s.store.pending[host := before + [|s.hosts|]]
    ensures Conserved(t)
  {
    var n := |s.hosts|;
    var before := if host in s.store.pending then s.store.pending[host] else [];
    assert forall k :: 0 <= k < n ==> t.hosts[k] == s.hosts[k];
    forall handler | 0 <= handler < |t.hosts| && !IsCalled(t.store.calls, handler)
      ensures t.hosts[handler] in t.store.pending && handler in t.store.pending[t.hosts[handler]]
    {
      if handler < n {
        assert handler in s.store.pending[s.hosts[handler]];
      } else {
        assert t.store.pending[host][|before|] == n;
      }
    }
  }

  /** There is room for one more host. */
  function Roomy(cached: map<Host, ResultCache>, now: int): map<Host, ResultCache> {
    if |cached| > SIZE_LIMIT then Evicted(cached, now) else cached
  }

  lemma RoomMade(cached: map<Host, ResultCache>, now: int)
    requires |cached| <= SIZE_LIMIT + 1
    ensures |Roomy(cached, now)| <= SIZE_LIMIT
    ensures forall h :: h in Roomy(cached, now) ==> h in cached && Roomy(cached, now)[h] == cached[h]
  {
    if |cached| > SIZE_LIMIT {
      var gone := if Expired(cached, now) != {} then Expired(cached, now) else {First(cached.Keys)};
      hide Expired;
      assert Evicted(cached, now) == cached - gone;
      var h :| h in gone;
      assert h in cached && h !in cached - gone;
      FewerHosts((cached - gone).Keys, cached.Keys, h);
    }
  }

  lemma FewerHosts(some: set<Host>, all: set<Host>, h: Host)
    requires some <= all && h in all && h !in some
    ensures |some| < |all|
  {
    assert some <= all - {h};
    FewerOrAll(some, all - {h});
  }

  lemma {:induction false} FewerOrAll(some: set<Host>, all: set<Host>)
    requires some <= all
    ensures |some| <= |all|
  {
    if some != {} {
      var h :| h in some;
      FewerOrAll(some - {h}, all - {h});
    }
  }

  /** A good result goes into a cache that stays sound and bounded. */
  lemma TrustingSound(s: System, t: System, host: Host, endpoint: Endpoint)
    requires CacheSound(s)
    requires t.store.cached == Trusting(s.store.cached, host, endpoint, s.now)
    requires t.good == s.good + {(host, endpoint)} && t.lastGood == s.lastGood[host := s.now]
    ensures CacheSound(t)
  {
    RoomMade(s.store.cached, s.now);
    hide Evicted;
    if host !in s.store.cached {
      assert t.store.cached == Roomy(s.store.cached, s.now)[host := ResultCache([endpoint], s.now)];
    }
  }

  lemma GivenUpKeeps(s: System, blocks: seq<Block>, host: Host)
    requires Sound(s, blocks) && Attended(s, {host})
    ensures Invariant(GivenUp(s, host), blocks)
  {
    var t := GivenUp(s, host);
    DrainConserves(s, t, host);
    DrainSound(s, t, host);
  }

  /** What the handlers are called with has been reported good. */
  lemma DrainSound(s: System, t: System, host: Host)
    requires CallsSound(s) && CacheSound(t) && s.good <= t.good
    requires t.store.calls == Drained(s.store.(cached := t.store.cached), host).calls
    ensures CallsSound(t)
  {
  }

  lemma AskKeeps(s: System, blocks: seq<Block>, host: Host)
    requires Invariant(s, blocks)
    ensures Invariant(Next(s, blocks, Ask(host)), blocks)
  {
    var t := Next(s, blocks, Ask(host));
    RequestConserves(s, host);
    assert Conserved(t);
    AskSound(s, t, host);
    AskAttended(s, t, host);
  }

  lemma AskSound(s: System, t: System, host: Host)
    requires CacheSound(s) && CallsSound(s)
    requires t.store == Request(s.store, host, |s.hosts|, s.now).0 && t.good == s.good && t.lastGood == s.lastGood
    ensures CacheSound(t) && CallsSound(t)
  {
    hide CallsSound;
    AskCallsSound(s, t, host);
  }

  lemma AskCallsSound(s: System, t: System, host: Host)
    requires CacheSound(s) && CallsSound(s)
    requires t.store == Request(s.store, host, |s.hosts|, s.now).0 && t.good == s.good
    ensures CallsSound(t)
  {
  }

  /** The first to wait for a host has its name resolved. */
  lemma AskAttended(s: System, t: System, host: Host)
    requires Attended(s, {}) && Waiting(s)
    requires t == Next(s, [], Ask(host))
    ensures Attended(t, {})
  {
  }

  lemma CheckingKeeps(s: System, blocks: seq<Block>, host: Host, endpoints: seq<Endpoint>)
    requires Sound(s, blocks) && Attended(s, {host})
    requires endpoints != [] && forall e :: e in endpoints ==> Acceptable(blocks, e)
    ensures Invariant(Checking(s, host, endpoints), blocks)
  {
    var t := Checking(s, host, endpoints);
    assert t.workers[|s.workers|].host == host;
    assert forall w :: 0 <= w < |s.workers| ==> t.workers[w] == s.workers[w];
    assert forall h :: HasWorker(s.workers, h) ==> HasWorker(t.workers, h);
  }

  lemma OnResolvedKeeps(s: System, blocks: seq<Block>, host: Host, outcome: Outcome)
    requires Sound(s, blocks) && Attended(s, {host})
    ensures Invariant(OnResolved(s, blocks, host, outcome), blocks)
  {
    if outcome.ResolveError? || outcome.endpoints == [] {
      GivenUpKeeps(s, blocks, host);
    } else if Kept(blocks, outcome.endpoints) != [] {
      CheckingKeeps(s, blocks, host, Kept(blocks, outcome.endpoints));
    } else if EndsWithProxyDomain(host) {
      GivenUpKeeps(s, blocks, host);
    }
  }

  lemma OnCheckedKeeps(s: System, blocks: seq<Block>, w: nat, i: nat, ok: bool)
    requires Invariant(s, blocks) && w < |s.workers| && i < |s.workers[w].open|
    ensures Invariant(OnChecked(s, w, i, ok), blocks)
  {
    var t := OnChecked(s, w, i, ok);
    var Worker(_, host, open, _) := s.workers[w];
    var left := open[..i] + open[i + 1..];
    assert open[i] in open && Acceptable(blocks, open[i]);
    if ok {
      TrustingSound(s, t, host, open[i]);
    }
    if ok || left == [] {
      DrainConserves(s, t, host);
      DrainSound(s, t, host);
    }
    assert OnlyAcceptable(t, blocks) by {
      forall v, e | 0 <= v < |t.workers| && e in t.workers[v].open
        ensures Acceptable(blocks, e)
      {
        WorkerCameFrom(s, w, i, ok, v);
      }
    }
    CheckedAttended(s, w, i, ok);
  }

  /** The workers after a result: the same, but for the endpoint reported on. */
  lemma WorkerCameFrom(s: System, w: nat, i: nat, ok: bool, v: nat)
    requires w < |s.workers| && i < |s.workers[w].open| && v < |OnChecked(s, w, i, ok).workers|
    ensures var t := OnChecked(s, w, i, ok);
            exists u :: 0 <= u < |s.workers| && t.workers[v].host == s.workers[u].host
                        && forall e :: e in t.workers[v].open ==> e in s.workers[u].open
  {
  }

  lemma CheckedAttended(s: System, w: nat, i: nat, ok: bool)
    requires Attended(s, {}) && w < |s.workers| && i < |s.workers[w].open|
    ensures Attended(OnChecked(s, w, i, ok), {})
  {
    var t := OnChecked(s, w, i, ok);
    var host := s.workers[w].host;
    forall h | h in t.store.pending && HasWorker(s.workers, h)
      ensures HasWorker(t.workers, h)
    {
      var u :| 0 <= u < |s.workers| && s.workers[u].host == h;
      if |t.workers| == |s.workers| {
        assert t.workers[u].host == h;
      } else {
        assert h != host;
        assert t.workers[if u < w then u else u - 1] == s.workers[u];
      }
    }
  }

  lemma NextKeeps(s: System, blocks: seq<Block>, e: Event)
    requires Invariant(s, blocks)
    ensures Invariant(Next(s, blocks, e), blocks)
  {
    if Enabled(s, e) {
      match e
      case Ask(host) => AskKeeps(s, blocks, host);
      case Wait(_) =>
      case CallBack(name, again, outcome) => OnResolvedKeeps(CalledBack(s, name, again), blocks, name, outcome);
      case ResolverDone(_) =>
      case Checked(w, i, ok) => OnCheckedKeeps(s, blocks, w, i, ok);
    }
  }

  lemma {:induction false} RunKeeps(s: System, blocks: seq<Block>, events: seq<Event>)
    requires Invariant(s, blocks)
    ensures Invariant(Run(s, blocks, events), blocks)
    decreases |events|
  {
    if events != [] {
      RunKeeps(s, blocks, events[..|events| - 1]);
      NextKeeps(Run(s, blocks, events[..|events| - 1]), blocks, events[|events| - 1]);
    }
  }

  // ---- main results, for every run

  predicate Waits(s: System, handler: Handler) {
    handler < |s.hosts| && s.hosts[handler] in s.store.pending && handler in s.store.pending[s.hosts[handler]]
  }

  /**
   * Requests are conserved: every handler ever given is called or waits, and not both; none is called twice, and
   * each is called for the host it asked for.
   */
  lemma RequestsConserved(blocks: seq<Block>, events: seq<Event>)
    ensures var s := Run(INITIAL, blocks, events);
            && CalledOnce(s)
            && forall handler :: 0 <= handler < |s.hosts| ==> (IsCalled(s.store.calls, handler) <==> !Waits(s, handler))
  {
    RunKeeps(INITIAL, blocks, events);
  }

  /** No resolution and no worker is under way. */
  predicate Quiet(s: System) {
    s.unanswered == multiset{} && s.answered == multiset{} && s.workers == []
  }

  /** Handlers wait for the host, and nothing is under way that could answer them. */
  predicate Stuck(s: System, host: Host) {
    && host in s.store.pending
    && host !in s.unanswered && host !in s.answered
    && !HasWorker(s.workers, host)
    && !EndsWithProxyDomain(host)
  }

  /** When nothing is under way every handler has been called exactly once, but for those of hosts that are stuck. */
  lemma AllCalledWhenQuiet(blocks: seq<Block>, events: seq<Event>)
    requires Quiet(Run(INITIAL, blocks, events))
    ensures var s := Run(INITIAL, blocks, events);
            forall handler :: 0 <= handler < |s.hosts| ==>
              IsCalled(s.store.calls, handler) || (Waits(s, handler) && Stuck(s, s.hosts[handler]))
    ensures var s := Run(INITIAL, blocks, events);
            s.fellBack == {} ==>
              s.store.pending == map[] && forall handler :: 0 <= handler < |s.hosts| ==> IsCalled(s.store.calls, handler)
  {
    RunKeeps(INITIAL, blocks, events);
  }

  lemma StuckStays(s: System, blocks: seq<Block>, e: Event, host: Host)
    requires Invariant(s, blocks) && Stuck(s, host)
    ensures Stuck(Next(s, blocks, e), host)
    ensures s.store.pending[host] <= Next(s, blocks, e).store.pending[host]
  {
    if Enabled(s, e) {
      match e
      case Ask(asked) => StuckWhileAsked(s, blocks, asked, host);
      case Wait(_) =>
      case CallBack(name, again, outcome) => StuckWhileResolved(CalledBack(s, name, again), blocks, name, outcome, host);
      case ResolverDone(_) =>
      case Checked(w, i, ok) => StuckWhileChecked(s, w, i, ok, host);
    }
  }

  lemma StuckWhileAsked(s: System, blocks: seq<Block>, asked: Host, host: Host)
    requires Invariant(s, blocks) && Stuck(s, host)
    ensures Stuck(Next(s, blocks, Ask(asked)), host)
    ensures s.store.pending[host] <= Next(s, blocks, Ask(asked)).store.pending[host]
  {
  }

  lemma StuckWhileResolved(s: System, blocks: seq<Block>, name: Host, outcome: Outcome, host: Host)
    requires Stuck(s, host) && name != host
    ensures Stuck(OnResolved(s, blocks, name, outcome), host)
    ensures OnResolved(s, blocks, name, outcome).store.pending[host] == s.store.pending[host]
  {
  }

  lemma StuckWhileChecked(s: System, w: nat, i: nat, ok: bool, host: Host)
    requires w < |s.workers| && i < |s.workers[w].open| && s.workers[w].host != host && Stuck(s, host)
    ensures Stuck(OnChecked(s, w, i, ok), host)
    ensures OnChecked(s, w, i, ok).store.pending[host] == s.store.pending[host]
  {
  }

  /** A handler of a stuck host is never called, whatever comes. */
  lemma {:induction false} StuckForever(s: System, blocks: seq<Block>, events: seq<Event>, host: Host)
    requires Invariant(s, blocks) && Stuck(s, host)
    ensures var t := Run(s, blocks, events);
            && Stuck(t, host) && s.store.pending[host] <= t.store.pending[host]
            && forall handler :: handler in s.store.pending[host] ==> !IsCalled(t.store.calls, handler)
    decreases |events|
  {
    RunKeeps(s, blocks, events);
    if events != [] {
      var before := events[..|events| - 1];
      StuckForever(s, blocks, before, host);
      RunKeeps(s, blocks, before);
      StuckStays(Run(s, blocks, before), blocks, events[|events| - 1], host);
    }
  }

  /**
   * When the last resolution of a host that handlers wait for calls back, they are stuck exactly if it found
   * endpoints, every one of them is blocked or of version 6, and the name is not in the proxy domain: the name
   * resolved next has the domain's suffix, and its answer is looked up under that name.
   */
  lemma LastCallBackSticks(s: System, blocks: seq<Block>, host: Host, outcome: Outcome)
    requires host in s.store.pending && s.unanswered[host] == 1 && host !in s.answered && !HasWorker(s.workers, host)
    ensures var t := Next(Next(s, blocks, CallBack(host, false, outcome)), blocks, ResolverDone(host));
            Stuck(t, host) <==> (&& outcome.Resolved? && outcome.endpoints != []
                                 && (forall e :: e in outcome.endpoints ==> !Acceptable(blocks, e))
                                 && !EndsWithProxyDomain(host))
  {
    var called := CalledBack(s, host, false);
    var t := OnResolved(called, blocks, host, outcome);
    if outcome.Resolved? && outcome.endpoints != [] {
      var kept := Kept(blocks, outcome.endpoints);
      if kept != [] {
        assert t.workers[|s.workers|].host == host;
      } else {
        assert |host + PROXY_DOMAIN| > |host|;
      }
    }
  }

  lemma FirstAsked(blocks: seq<Block>, host: Host)
    ensures Next(INITIAL, blocks, Ask(host))
         == INITIAL.(store := Store(map[], map[host := [0]], []), hosts := [host], unanswered := multiset{host})
  {
    assert map[] - {host} == INITIAL.store.cached;
    var first: seq<Handler> := [0];
    assert [] + first == first && map[][host := first] == map[host := first];
    assert [] + [host] == [host] && multiset{} + multiset{host} == multiset{host};
  }

  /** The one request of a run: it is stuck once its host resolves to blocked endpoints alone. */
  lemma OneRequestSticks(blocks: seq<Block>, host: Host, endpoints: seq<Endpoint>)
    requires endpoints != [] && !EndsWithProxyDomain(host)
    requires forall e :: e in endpoints ==> !Acceptable(blocks, e)
    ensures var t := Run(INITIAL, blocks, [Ask(host), CallBack(host, false, Resolved(endpoints)), ResolverDone(host)]);
            Stuck(t, host)
  {
    FirstAsked(blocks, host);
    var asked := Next(INITIAL, blocks, Ask(host));
    LastCallBackSticks(asked, blocks, host, Resolved(endpoints));
    ThreeEvents(blocks, Ask(host), CallBack(host, false, Resolved(endpoints)), ResolverDone(host));
  }

  lemma ThreeEvents(blocks: seq<Block>, a: Event, b: Event, c: Event)
    ensures Run(INITIAL, blocks, [a, b, c]) == Next(Next(Next(INITIAL, blocks, a), blocks, b), blocks, c)
  {
    assert [a, b, c][..2] == [a, b] && [a, b][..1] == [a] && [a][..0] == [];
    assert Run(INITIAL, blocks, [a]) == Next(Run(INITIAL, blocks, []), blocks, a);
    assert Run(INITIAL, blocks, [a, b]) == Next(Run(INITIAL, blocks, [a]), blocks, b);
  }

  /** What a handler is called with has been reported good for its host, and is an unblocked address of version 4. */
  lemma OnlyGoodHandedOut(blocks: seq<Block>, events: seq<Event>, i: nat, e: Endpoint)
    requires i < |Run(INITIAL, blocks, events).store.calls| && e in Run(INITIAL, blocks, events).store.calls[i].endpoints
    ensures var s := Run(INITIAL, blocks, events);
            (s.store.calls[i].host, e) in s.good && Acceptable(blocks, e)
  {
    RunKeeps(INITIAL, blocks, events);
    var s := Run(INITIAL, blocks, events);
    assert Acceptable(blocks, (s.store.calls[i].host, e).1);
  }

  /** The cache is bounded, and answers only for less than its lifespan after the last good result for the host. */
  lemma CacheBounded(blocks: seq<Block>, events: seq<Event>, host: Host)
    ensures var s := Run(INITIAL, blocks, events);
            && |s.store.cached| <= SIZE_LIMIT + 1
            && (Hit(s.store, host, s.now) ==>
                  && host in s.lastGood && s.now - s.lastGood[host] < LIFESPAN
                  && s.store.cached[host].trusted != []
                  && forall e :: e in s.store.cached[host].trusted ==> (host, e) in s.good)
  {
    RunKeeps(INITIAL, blocks, events);
  }
}
