/** Runs of one relayed connection, until it is stopped. */
module RelayRuns {
  import opened Options
  import opened TlsDefinition
  import opened SecurityPolicy
  import opened RelaySpec
  import opened RelayGates

  /** A write begun on a server's socket: the record, and the connection's number and host. */
  datatype Sent = Sent(record: Record, link: nat, host: HostName)

  datatype Relay = Relay(
    pair: Pair,
    fromClient: seq<Record>,       // non-empty records the client context was shown
    fromServer: seq<Record>,
    checks: multiset<HostName>,    // certificate checks asked for and not answered
    approved: set<HostName>,       // hosts a non-empty endpoint list was delivered for
    connects: multiset<HostName>,  // connections being made, by the host that was checked
    asked: nat,                    // certificate checks asked for in all
    links: nat,                    // connections made
    host: HostName,                // the host of the last of them
    toServer: seq<Sent>,           // writes begun towards the server
    toClient: seq<Record>,         // writes begun towards the client
    serverDone: nat,               // how many of them have completed
    clientDone: nat)

  datatype Event =
    | ClientRecord(record: Record)
    | ServerRecord(record: Record)
    | ReaderFailed
    | Checked(checked: HostName, anyEndpoint: bool)
    | Connected(connected: HostName, ok: bool)
    | WroteToServer(ok: bool)
    | WroteToClient(ok: bool)

  const INITIAL := Relay(Pair(ACCEPTED, FRESH), [], [], multiset{}, {}, multiset{}, 0, 0, [], [], [], 0, 0)

  /** The event can come: the connection is not stopped, and what completes was begun. */
  predicate Enabled(s: Relay, e: Event) {
    s.pair.client.running &&
    match e
    case ClientRecord(_) => true
    case ServerRecord(_) => s.pair.server.running
    case ReaderFailed => true
    case Checked(host, _) => host in s.checks
    case Connected(host, _) => host in s.connects
    case WroteToServer(_) => s.pair.server.writing.Sending?
    case WroteToClient(_) => s.pair.client.writing.Sending?
  }

  function NewToServer(s: Relay, pair: Pair): seq<Sent> {
    if s.pair.server.writing.Idle? && pair.server.writing.Sending? then
      [Sent(pair.server.writing.record, s.links, s.host)]
    else []
  }

  function Begun(was: Ctx, now: Ctx): seq<Record> {
    if was.writing.Idle? && now.writing.Sending? then [now.writing.record] else []
  }

  /** The state with a new pair, and the writes noted that the old pair had not begun. */
  function WithPair(s: Relay, pair: Pair): Relay {
    s.(pair := pair,
       toServer := s.toServer + NewToServer(s, pair),
       toClient := s.toClient + Begun(s.pair.client, pair.client))
  }

  function Logged(s: Relay, record: Record, ask: Option<HostName>): Relay {
    s.(fromClient := if record == [] then s.fromClient else s.fromClient + [record],
       checks := if ask.None? then s.checks else s.checks + multiset{ask.value},
       asked := if ask.None? then s.asked else s.asked + 1)
  }

  /** A record of the client is taken; the writes it begins are begun even if it stops the connection then. */
  function AfterRecord(s: Relay, record: Record, taken: Reaction): Relay {
    var t := WithPair(Logged(s, record, taken.ask), taken.pair);
    if taken.stops then t.(pair := Stopped(taken.pair)) else t
  }

  function Next(s: Relay, e: Event): Relay {
    if !Enabled(s, e) then s
    else
      match e
      case ClientRecord(record) =>
        AfterRecord(s, record, TakeClientRecord(s.pair, record))
      case ServerRecord(record) =>
        WithPair(s.(fromServer := s.fromServer + [record]), OnServerRecord(s.pair, record))
      case ReaderFailed => s.(pair := Stopped(s.pair))
      case Checked(host, anyEndpoint) =>
        var answered := s.(checks := s.checks - multiset{host});
        if anyEndpoint then
          answered.(approved := s.approved + {host}, connects := s.connects + multiset{host})
        else answered.(pair := Stopped(s.pair))
      case Connected(host, ok) =>
        var made := s.(connects := s.connects - multiset{host});
        if ok then WithPair(made.(links := s.links + 1, host := host), OnConnected(s.pair))
        else made.(pair := Stopped(s.pair))
      case WroteToServer(ok) =>
        if ok then
          var idle := s.(pair := s.pair.(server := s.pair.server.(writing := Idle)), serverDone := s.serverDone + 1);
          WithPair(idle, s.pair.(server := WriteDone(s.pair.server)))
        else s.(pair := Stopped(s.pair))
      case WroteToClient(ok) =>
        if ok then
          var idle := s.(pair := s.pair.(client := s.pair.client.(writing := Idle)), clientDone := s.clientDone + 1);
          WithPair(idle, s.pair.(client := WriteDone(s.pair.client)))
        else s.(pair := Stopped(s.pair))
  }

  function Run(events: seq<Event>): Relay {
    if events == [] then INITIAL
    else Next(Run(events[..|events| - 1]), events[|events| - 1])
  }

  // ---- what the logs should look like, without queues

  /** The record holds a ClientHello that lets the client on to the server. */
  predicate IsAcceptedHello(record: Record) {
    && Read(record).Good? && Read(record).value.content.Handshake?
    && Read(record).value.recordVersion >= TLS_1_0
    && FirstClientHello(Read(record).value.content.messages).Some?
    && OffersAllowedSuite(FirstClientHello(Read(record).value.content.messages).value.cipherSuites)
  }

  function HelloHost(record: Record): HostName
    requires IsAcceptedHello(record)
  {
    HostNameOf(FirstClientHello(Read(record).value.content.messages).value.extensions)
  }

  predicate HasChangeCipherSpec(log: seq<Record>) {
    exists i :: 0 <= i < |log| && IsChangeCipherSpec(log[i])
  }

  /**
   * The client's records from the first accepted ClientHello on. After a change_cipher_spec no hello is looked
   * for any more.
   */
  function Relayed(log: seq<Record>): seq<Record> {
    if log == [] then []
    else if IsAcceptedHello(log[0]) then log
    else if IsChangeCipherSpec(log[0]) then []
    else Relayed(log[1..])
  }

  /** Every record up to the first change_cipher_spec, that one included, passes. */
  predicate ServerGate(log: seq<Record>) {
    forall i :: 0 <= i < |log| && !HasChangeCipherSpec(log[..i]) ==> Passes(log[i])
  }

  lemma {:induction false} RelayedAppend(log: seq<Record>, record: Record)
    ensures Relayed(log + [record])
         == if Relayed(log) != [] then Relayed(log) + [record]
            else if IsAcceptedHello(record) && !HasChangeCipherSpec(log) then [record]
            else []
  {
    if log == [] {
      assert [record][1..] == [];
    } else {
      assert (log + [record])[1..] == log[1..] + [record];
      RelayedAppend(log[1..], record);
      HasAppend(log[..1], log[1..]);
      assert log[..1] + log[1..] == log;
    }
  }

  lemma HasAppend(a: seq<Record>, b: seq<Record>)
    ensures HasChangeCipherSpec(a + b) <==> HasChangeCipherSpec(a) || HasChangeCipherSpec(b)
  {
    assert forall i :: 0 <= i < |a| ==> (a + b)[i] == a[i];
    assert forall i :: 0 <= i < |b| ==> (a + b)[|a| + i] == b[i];
  }

  lemma ServerGateAppend(log: seq<Record>, record: Record)
    requires ServerGate(log) && (HasChangeCipherSpec(log) || Passes(record))
    ensures ServerGate(log + [record])
  {
    var longer := log + [record];
    assert forall i :: 0 <= i <= |log| ==> longer[..i] == log[..i];
    assert log[..|log|] == log;
  }

  function Records(sent: seq<Sent>): (records: seq<Record>)
    ensures |records| == |sent|
    ensures forall i :: 0 <= i < |sent| ==> records[i] == sent[i].record
  {
    seq(|sent|, i requires 0 <= i < |sent| => sent[i].record)
  }

  // ---- the invariant

  /** Of the writes begun at most one is outstanding, and it is the last; a queue does not wait for nothing. */
  predicate Orderly(c: Ctx, begun: seq<Record>, done: nat) {
    && c.writing != Lost
    && |begun| == done + (if c.writing.Sending? then 1 else 0)
    && (c.writing.Sending? ==> begun[|begun| - 1] == c.writing.record)
    && (c.socket == OPEN && c.queue != [] ==> c.writing.Sending?)
    && (c.socket == NO_SOCKET ==> c.writing == Idle)
  }

  /** The flags and pairing say what the logs say. */
  ghost predicate Flagged(s: Relay) {
    var client, server := s.pair.client, s.pair.server;
    && (client.paired <==> s.fromClient != [])
    && (server.paired <==> Relayed(s.fromClient) != [])
    && (!server.paired ==> server == FRESH && s.asked == 0)
    && (client.clientEncrypted <==> HasChangeCipherSpec(s.fromClient))
    && (server.serverEncrypted <==> HasChangeCipherSpec(s.fromServer))
  }

  /** The sockets say whether a connection was made; checks, connects and connections are all that were asked for. */
  ghost predicate Linked(s: Relay) {
    var client, server := s.pair.client, s.pair.server;
    && client.socket == OPEN && server.socket != CLOSED
    && (s.links > 0 <==> server.running)
    && (s.links > 0 <==> server.socket == OPEN)
    && (s.links > 0 <==> client.connectedToHost)
    && s.asked == |s.checks| + |s.connects| + s.links
  }

  ghost predicate Coherent(s: Relay) {
    Flagged(s) && Linked(s)
  }

  /** A ClientHello of the log that let the client on names the host. */
  ghost predicate Named(log: seq<Record>, host: HostName) {
    host != [] && exists i :: 0 <= i < |log| && IsAcceptedHello(log[i]) && HelloHost(log[i]) == host
  }

  ghost predicate Asked(s: Relay) {
    && (forall h :: h in s.checks || h in s.connects ==> Named(s.fromClient, h))
    && (forall h :: h in s.connects ==> h in s.approved)
    && (s.links > 0 ==> Named(s.fromClient, s.host) && s.host in s.approved)
  }

  /** Everything written went over a connection to an approved host that a hello named. */
  ghost predicate Gated(s: Relay) {
    forall i :: 0 <= i < |s.toServer| ==>
      && 0 < s.toServer[i].link <= s.links
      && Named(s.fromClient, s.toServer[i].host)
      && s.toServer[i].host in s.approved
  }

  ghost predicate Invariant(s: Relay) {
    && Gated(s)
    && s.links <= s.asked
    && Records(s.toServer) <= Relayed(s.fromClient)
    && s.toClient <= s.fromServer
    && ServerGate(s.toClient)
    && (s.pair.client.running ==>
          && Coherent(s) && Asked(s)
          && Orderly(s.pair.server, Records(s.toServer), s.serverDone)
          && Orderly(s.pair.client, s.toClient, s.clientDone)
          && Records(s.toServer) + s.pair.server.queue == Relayed(s.fromClient)
          && s.toClient + s.pair.client.queue == s.fromServer
          && ServerGate(s.fromServer))
  }

  // ---- every event keeps it

  lemma NotesWrites(s: Relay, pair: Pair)
    ensures Records(WithPair(s, pair).toServer) == Records(s.toServer) + Begun(s.pair.server, pair.server)
  {
  }

  /** A step that begins no write. */
  lemma NoWrites(s: Relay, pair: Pair)
    requires NewToServer(s, pair) == [] && Begun(s.pair.client, pair.client) == []
    ensures WithPair(s, pair) == s.(pair := pair)
  {
  }

  /** Beginning a write moves the front of the queue to the writes begun. */
  lemma DoWriteOrderly(c: Ctx, begun: seq<Record>, done: nat)
    requires c.writing != Lost && c.socket != CLOSED && (c.socket == NO_SOCKET ==> c.writing == Idle)
    requires |begun| == done + (if c.writing.Sending? then 1 else 0)
    requires c.writing.Sending? ==> begun[|begun| - 1] == c.writing.record
    ensures var d := DoWrite(c);
            Orderly(d, begun + Begun(c, d), done) && begun + Begun(c, d) + d.queue == begun + c.queue
  {
  }

  lemma EnqueuedOrderly(c: Ctx, record: Record, begun: seq<Record>, done: nat)
    requires Orderly(c, begun, done) && c.socket != CLOSED
    ensures var d := Enqueued(c, record);
            Orderly(d, begun + Begun(c, d), done) && begun + Begun(c, d) + d.queue == begun + c.queue + [record]
  {
  }

  lemma NamedStays(log: seq<Record>, longer: seq<Record>)
    requires log <= longer
    ensures forall h :: Named(log, h) ==> Named(longer, h)
  {
  }

  lemma NamedByLast(log: seq<Record>, record: Record)
    requires IsAcceptedHello(record) && HelloHost(record) != []
    ensures Named(log + [record], HelloHost(record))
  {
    assert (log + [record])[|log|] == record;
  }

  lemma {:induction false} RelayedGrows(log: seq<Record>, longer: seq<Record>)
    requires log <= longer
    ensures Relayed(log) <= Relayed(longer)
  {
    if log != [] {
      RelayedGrows(log[1..], longer[1..]);
    }
  }

  /** A stopped connection keeps what was written; its logs may have grown by the record it stopped at. */
  lemma StoppedKeeps(s: Relay, t: Relay)
    requires Invariant(s) && s.pair.client.running && !t.pair.client.running
    requires t.toServer == s.toServer && t.toClient == s.toClient
    requires t.links == s.links && t.approved == s.approved && t.asked == s.asked
    requires s.fromClient <= t.fromClient && s.fromServer <= t.fromServer
    ensures Invariant(t)
  {
    RelayedGrows(s.fromClient, t.fromClient);
    NamedStays(s.fromClient, t.fromClient);
  }

  /** The pair `p` is ready to take the client's next record. */
  ghost predicate Ready(s: Relay, p: Pair, record: Record, ask: Option<HostName>) {
    && record != []
    && p.client == s.pair.client.(paired := true, clientEncrypted := p.client.clientEncrypted,
                                  hostName := p.client.hostName)
    && p.server == s.pair.server.(paired := p.server.paired)
    && (p.client.clientEncrypted <==> HasChangeCipherSpec(s.fromClient + [record]))
    && (p.server.paired <==> Relayed(s.fromClient + [record]) != [])
    && (ask.Some? ==> Named(s.fromClient + [record], ask.value) && p.server.paired)
  }

  function Forwarded(s: Relay, p: Pair, record: Record, ask: Option<HostName>): Relay {
    WithPair(Logged(s, record, ask), ToServer(p, record))
  }

  lemma ForwardCountsServer(s: Relay, p: Pair, record: Record, ask: Option<HostName>)
    requires Invariant(s) && s.pair.client.running && Ready(s, p, record, ask)
    ensures var t := Forwarded(s, p, record, ask);
            && Records(t.toServer) + t.pair.server.queue == Relayed(s.fromClient + [record])
            && Orderly(t.pair.server, Records(t.toServer), s.serverDone)
  {
    var l, q := Logged(s, record, ask), ToServer(p, record);
    RelayedAppend(s.fromClient, record);
    NotesWrites(l, q);
    if p.server.paired {
      EnqueuedOrderly(p.server, record, Records(s.toServer), s.serverDone);
      assert Begun(s.pair.server, q.server) == Begun(p.server, q.server);
    } else {
      assert Records(s.toServer) + [] == Records(s.toServer);
    }
  }

  lemma ForwardCountsClient(s: Relay, p: Pair, record: Record, ask: Option<HostName>)
    requires Invariant(s) && s.pair.client.running && Ready(s, p, record, ask)
    ensures var t := Forwarded(s, p, record, ask);
            && t.toClient == s.toClient && t.pair.client == p.client
            && Orderly(p.client, s.toClient, s.clientDone)
  {
    NotesWrites(Logged(s, record, ask), ToServer(p, record));
    assert s.toClient + [] == s.toClient;
  }

  lemma ForwardFlagged(s: Relay, p: Pair, record: Record, ask: Option<HostName>)
    requires Invariant(s) && s.pair.client.running && Ready(s, p, record, ask)
    ensures Flagged(Forwarded(s, p, record, ask))
  {
    RelayedAppend(s.fromClient, record);
    if s.pair.server.paired {
      assert p.server.paired;
    }
  }

  lemma ForwardLinked(s: Relay, p: Pair, record: Record, ask: Option<HostName>)
    requires Invariant(s) && s.pair.client.running && Ready(s, p, record, ask)
    ensures Linked(Forwarded(s, p, record, ask))
  {
    hide Gated, ServerGate, Relayed, Asked, Records, HasChangeCipherSpec, Named;
  }

  lemma ForwardAsked(s: Relay, p: Pair, record: Record, ask: Option<HostName>)
    requires Invariant(s) && s.pair.client.running && Ready(s, p, record, ask)
    ensures Asked(Forwarded(s, p, record, ask))
  {
    NamedStays(s.fromClient, s.fromClient + [record]);
  }

  /** The log, links and hosts of `t` after a step that may add to the log and begin writes. */
  lemma GatedStays(s: Relay, t: Relay, more: seq<Sent>)
    requires Gated(s) && t.toServer == s.toServer + more
    requires s.fromClient <= t.fromClient && s.links <= t.links && s.approved <= t.approved
    requires forall m :: m in more ==> m.link == t.links > 0 && m.host == t.host
    requires t.links > 0 ==> Named(t.fromClient, t.host) && t.host in t.approved
    ensures Gated(t)
  {
  }

  /** The same without writes. */
  lemma GatedStill(s: Relay, t: Relay)
    requires Gated(s) && t.toServer == s.toServer
    requires s.fromClient <= t.fromClient && s.links <= t.links && s.approved <= t.approved
    ensures Gated(t)
  {
  }

  lemma ForwardGated(s: Relay, p: Pair, record: Record, ask: Option<HostName>)
    requires Gated(s) && Asked(Forwarded(s, p, record, ask)) && Linked(Forwarded(s, p, record, ask))
    requires p.server == s.pair.server.(paired := p.server.paired)
    ensures Gated(Forwarded(s, p, record, ask))
  {
    var more := NewToServer(Logged(s, record, ask), ToServer(p, record));
    if more != [] {
      assert more == [Sent(ToServer(p, record).server.writing.record, s.links, s.host)];
      assert p.server.socket != NO_SOCKET;
    }
    GatedStays(s, Forwarded(s, p, record, ask), more);
  }

  /** What a live connection is, put together. */
  lemma LiveInvariant(t: Relay)
    requires Gated(t) && Coherent(t) && Asked(t)
    requires Orderly(t.pair.server, Records(t.toServer), t.serverDone)
    requires Orderly(t.pair.client, t.toClient, t.clientDone)
    requires Records(t.toServer) + t.pair.server.queue == Relayed(t.fromClient)
    requires t.toClient + t.pair.client.queue == t.fromServer
    requires ServerGate(t.fromServer)
    ensures Invariant(t)
  {
    assert forall i :: 0 <= i <= |t.toClient| ==> t.toClient[..i] == t.fromServer[..i];
  }

  /** A record of the client that is let on, `p` being the pair that takes it. */
  lemma ForwardKeeps(s: Relay, p: Pair, record: Record, ask: Option<HostName>)
    requires Invariant(s) && s.pair.client.running && Ready(s, p, record, ask)
    ensures Invariant(Forwarded(s, p, record, ask))
  {
    ForwardCountsServer(s, p, record, ask);
    ForwardCountsClient(s, p, record, ask);
    ForwardFlagged(s, p, record, ask);
    ForwardLinked(s, p, record, ask);
    ForwardAsked(s, p, record, ask);
    ForwardGated(s, p, record, ask);
    LiveInvariant(Forwarded(s, p, record, ask));
  }

  lemma ClientRecordKeeps(s: Relay, record: Record)
    requires Invariant(s) && s.pair.client.running
    ensures Invariant(Next(s, ClientRecord(record)))
  {
    if record == [] {
      EmptyRecord(s);
    } else if !OnClientRecord(s.pair, record).0.client.running {
      StoppedClientRecord(s, record);
    } else {
      TakenClientRecord(s, record);
    }
  }

  lemma EmptyRecord(s: Relay)
    requires s.pair.client.running
    ensures Next(s, ClientRecord([])) == s
  {
  }

  lemma TakenClientRecord(s: Relay, record: Record)
    requires Invariant(s) && s.pair.client.running && record != []
    requires OnClientRecord(s.pair, record).0.client.running
    ensures Invariant(Next(s, ClientRecord(record)))
  {
    var p, ask := Taker(s.pair, record), OnClientRecord(s.pair, record).1;
    TakenByTaker(s.pair, record);
    AskerReady(s, record, ask);
    assert Next(s, ClientRecord(record)) == Forwarded(s, p, record, ask);
    ForwardKeeps(s, p, record, ask);
  }

  /** A record either stops everything and asks for nothing, or the pair goes on. */
  lemma StopsOrGoesOn(p: Pair, record: Record)
    requires p.client.running
    ensures var (q, ask) := OnClientRecord(p, record);
            q.client.running || (q == Stopped(p) && ask == None)
    ensures TakeClientRecord(p, record).stops <==> !OnClientRecord(p, record).0.client.running
  {
  }

  /** The client context has a server context to give its records to. */
  function Paired(p: Pair): Pair {
    if p.client.paired then p else Pair(p.client.(paired := true), FRESH)
  }

  /** A record that stops everything has been queued before exactly if it is a hello with an allowed suite. */
  lemma StoppingTakes(p: Pair, record: Record)
    requires p.client.running && TakeClientRecord(p, record).stops
    ensures record != [] && TakeClientRecord(p, record).ask == None && !p.client.clientEncrypted
    ensures var q := Paired(p);
            TakeClientRecord(p, record).pair
            == if IsAcceptedHello(record) then ToServer(q.(server := q.server.(paired := true)), record) else q
  {
  }

  lemma StoppedClientRecord(s: Relay, record: Record)
    requires Invariant(s) && s.pair.client.running && record != []
    requires !OnClientRecord(s.pair, record).0.client.running
    ensures Invariant(Next(s, ClientRecord(record)))
  {
    StopsOrGoesOn(s.pair, record);
    StoppingTakes(s.pair, record);
    var taken, q := TakeClientRecord(s.pair, record), Paired(s.pair);
    if IsAcceptedHello(record) {
      StoppedHello(s, q.(server := q.server.(paired := true)), record);
    } else {
      StoppedElse(s, q, record);
    }
  }

  /** A hello that stops the connection may first begin a write, as one that is let on. */
  lemma StoppedHello(s: Relay, p: Pair, record: Record)
    requires Invariant(s) && s.pair.client.running && record != []
    requires IsAcceptedHello(record) && !s.pair.client.clientEncrypted
    requires p == Paired(s.pair).(server := Paired(s.pair).server.(paired := true))
    ensures Invariant(AfterRecord(s, record, Reaction(ToServer(p, record), None, true)))
  {
    TakerReady(s, record);
    assert !IsChangeCipherSpec(record);
    assert Ready(s, p, record, None);
    ForwardKeeps(s, p, record, None);
    var live, stopped := Forwarded(s, p, record, None), Stopped(ToServer(p, record));
    assert live.pair.client.running;
    assert Records(live.toServer) <= Relayed(live.fromClient) by {
      assert Records(live.toServer) + live.pair.server.queue == Relayed(live.fromClient);
    }
    assert AfterRecord(s, record, Reaction(ToServer(p, record), None, true)) == live.(pair := stopped);
    StoppedKeeps(live, live.(pair := stopped));
  }

  lemma StoppedElse(s: Relay, q: Pair, record: Record)
    requires Invariant(s) && s.pair.client.running && record != [] && q == Paired(s.pair)
    ensures Invariant(AfterRecord(s, record, Reaction(q, None, true)))
  {
    var l := Logged(s, record, None);
    assert NewToServer(l, q) == [] && Begun(l.pair.client, q.client) == [];
    NoWrites(l, q);
    StoppedKeeps(s, l.(pair := Stopped(q)));
  }

  lemma StopAfterLogging(s: Relay, l: Relay)
    requires Invariant(s) && s.pair.client.running
    requires exists r :: l == s.(fromServer := s.fromServer + [r])
    ensures Invariant(WithPair(l, Stopped(s.pair)))
  {
    NoWrites(l, Stopped(s.pair));
    StoppedKeeps(s, l.(pair := Stopped(s.pair)));
  }

  /** The pair as it is when it takes a record that does not stop it. */
  function Taker(p: Pair, record: Record): Pair {
    var p := Paired(p);
    if p.client.clientEncrypted then p
    else if IsAcceptedHello(record) then
      Pair(if p.client.connectedToHost then p.client else p.client.(hostName := HelloHost(record)),
           p.server.(paired := true))
    else if IsChangeCipherSpec(record) then p.(client := p.client.(clientEncrypted := true))
    else p
  }

  lemma TakenByTaker(p: Pair, record: Record)
    requires record != [] && OnClientRecord(p, record).0.client.running && p.client.running
    ensures OnClientRecord(p, record).0 == ToServer(Taker(p, record), record)
    ensures OnClientRecord(p, record).1
         == if !p.client.clientEncrypted && IsAcceptedHello(record) && !p.client.connectedToHost
            then Some(HelloHost(record)) else None
    ensures OnClientRecord(p, record).1 != Some([])
  {
  }

  /** The pair that takes a record is ready for it. */
  lemma TakerReady(s: Relay, record: Record)
    requires Invariant(s) && s.pair.client.running && record != []
    ensures Ready(s, Taker(s.pair, record), record, None)
  {
    HasAppend(s.fromClient, [record]);
    HasOne(record);
    RelayedAppend(s.fromClient, record);
  }

  lemma AskerReady(s: Relay, record: Record, ask: Option<HostName>)
    requires Invariant(s) && s.pair.client.running && record != []
    requires ask.Some? ==>
      !s.pair.client.clientEncrypted && IsAcceptedHello(record) && ask.value == HelloHost(record) != []
    ensures Ready(s, Taker(s.pair, record), record, ask)
  {
    TakerReady(s, record);
    if ask.Some? {
      NamedByLast(s.fromClient, record);
    }
  }

  lemma HasOne(record: Record)
    ensures HasChangeCipherSpec([record]) <==> IsChangeCipherSpec(record)
  {
    assert [record][0] == record;
  }

  // ---- records of the server

  /** The server's record is let on to the client; `server` is its context with the encryption flag up to date. */
  lemma BackKeeps(s: Relay, record: Record, server: Ctx)
    requires Invariant(s) && s.pair.client.running && s.pair.server.running
    requires server == s.pair.server.(serverEncrypted := server.serverEncrypted)
    requires server.serverEncrypted <==> HasChangeCipherSpec(s.fromServer + [record])
    requires ServerGate(s.fromServer + [record])
    ensures Invariant(WithPair(s.(fromServer := s.fromServer + [record]), ToClient(Pair(s.pair.client, server), record)))
  {
    var l := s.(fromServer := s.fromServer + [record]);
    var q := ToClient(Pair(s.pair.client, server), record);
    var t := WithPair(l, q);
    assert t.toServer == s.toServer + [] == s.toServer;
    assert s.pair.client.paired;
    EnqueuedOrderly(s.pair.client, record, s.toClient, s.clientDone);
    GatedStill(s, t);
    LiveInvariant(t);
  }

  lemma ServerRecordKeeps(s: Relay, record: Record)
    requires Invariant(s) && s.pair.client.running && s.pair.server.running
    ensures Invariant(Next(s, ServerRecord(record)))
  {
    var t := Next(s, ServerRecord(record));
    var pair := OnServerRecord(s.pair, record);
    var l := s.(fromServer := s.fromServer + [record]);
    HasAppend(s.fromServer, [record]);
    HasOne(record);
    if pair == Stopped(s.pair) {
      StopAfterLogging(s, l);
    } else {
      ServerGateAppend(s.fromServer, record);
      var changes := !s.pair.server.serverEncrypted && IsChangeCipherSpec(record);
      var server := if changes then s.pair.server.(serverEncrypted := true) else s.pair.server;
      assert pair == ToClient(Pair(s.pair.client, server), record);
      BackKeeps(s, record, server);
    }
  }

  // ---- checks, connections, writes

  lemma CheckedKeeps(s: Relay, host: HostName, anyEndpoint: bool)
    requires Invariant(s) && Enabled(s, Checked(host, anyEndpoint))
    ensures Invariant(Next(s, Checked(host, anyEndpoint)))
  {
    var t := Next(s, Checked(host, anyEndpoint));
    if anyEndpoint {
      assert |s.checks - multiset{host}| == |s.checks| - 1;
      GatedStill(s, t);
      LiveInvariant(t);
    } else {
      StoppedKeeps(s, t);
    }
  }

  /** The server context `c` begins a write if it can; `l` is the state but for that. */
  lemma ServerBegins(l: Relay, client: Ctx, c: Ctx)
    requires Coherent(l.(pair := Pair(client, c))) && Asked(l) && Gated(l) && client.running
    requires client.writing == l.pair.client.writing && c.writing == l.pair.server.writing
    requires c.writing != Lost && (c.socket == NO_SOCKET ==> c.writing == Idle)
    requires |l.toServer| == l.serverDone + (if c.writing.Sending? then 1 else 0)
    requires c.writing.Sending? ==> l.toServer[|l.toServer| - 1].record == c.writing.record
    requires Records(l.toServer) + c.queue == Relayed(l.fromClient)
    requires Orderly(client, l.toClient, l.clientDone) && l.toClient + client.queue == l.fromServer
    requires l.links > 0
    requires ServerGate(l.fromServer)
    ensures Invariant(WithPair(l, Pair(client, DoWrite(c))))
  {
    var pair := Pair(client, DoWrite(c));
    var t := WithPair(l, pair);
    NotesWrites(l, pair);
    assert l.toClient + [] == l.toClient;
    DoWriteOrderly(c, Records(l.toServer), l.serverDone);
    GatedStays(l, t, NewToServer(l, pair));
    LiveInvariant(t);
  }

  /** The state with a connection more, its server context not yet writing. */
  function Connecting(s: Relay, host: HostName): Relay {
    s.(connects := s.connects - multiset{host}, links := s.links + 1, host := host,
       pair := Pair(s.pair.client.(connectedToHost := true), s.pair.server.(running := true, socket := OPEN)))
  }

  lemma ConnectingCoherent(s: Relay, host: HostName)
    requires Coherent(s) && host in s.connects
    ensures Coherent(Connecting(s, host))
  {
  }

  lemma ConnectingGated(s: Relay, host: HostName)
    requires Asked(s) && Gated(s) && host in s.connects
    ensures Asked(Connecting(s, host)) && Gated(Connecting(s, host))
  {
  }

  lemma ConnectionKeeps(s: Relay, host: HostName)
    requires Invariant(s) && Enabled(s, Connected(host, true))
    ensures Invariant(Next(s, Connected(host, true)))
  {
    hide Gated, ServerGate, Relayed, Records, Flagged, Asked;
    var made := Connecting(s, host);
    ConnectingCoherent(s, host);
    ConnectingGated(s, host);
    ServerBegins(made, made.pair.client, made.pair.server);
    var l, pair := made.(pair := s.pair), OnConnected(s.pair);
    assert pair == Pair(made.pair.client, DoWrite(made.pair.server));
    assert NewToServer(l, pair) == NewToServer(made, pair) && Begun(l.pair.client, pair.client) == [];
    assert Next(s, Connected(host, true)) == WithPair(l, pair) == WithPair(made, pair);
  }

  lemma ConnectedKeeps(s: Relay, host: HostName, ok: bool)
    requires Invariant(s) && Enabled(s, Connected(host, ok))
    ensures Invariant(Next(s, Connected(host, ok)))
  {
    if ok {
      ConnectionKeeps(s, host);
    } else {
      StoppedKeeps(s, Next(s, Connected(host, ok)));
    }
  }

  lemma WroteToServerKeeps(s: Relay, ok: bool)
    requires Invariant(s) && Enabled(s, WroteToServer(ok))
    ensures Invariant(Next(s, WroteToServer(ok)))
  {
    if ok {
      var c := s.pair.server.(writing := Idle);
      ServerBegins(s.(pair := s.pair.(server := c), serverDone := s.serverDone + 1), s.pair.client, c);
    } else {
      StoppedKeeps(s, Next(s, WroteToServer(ok)));
    }
  }

  lemma WroteToClientKeeps(s: Relay, ok: bool)
    requires Invariant(s) && Enabled(s, WroteToClient(ok))
    ensures Invariant(Next(s, WroteToClient(ok)))
  {
    if ok {
      ClientBegins(s);
    } else {
      StoppedKeeps(s, Next(s, WroteToClient(ok)));
    }
  }

  lemma ClientBegins(s: Relay)
    requires Invariant(s) && Enabled(s, WroteToClient(true))
    ensures Invariant(Next(s, WroteToClient(true)))
  {
    var t := Next(s, WroteToClient(true));
    assert t.toServer == s.toServer + [] == s.toServer;
    DoWriteOrderly(s.pair.client.(writing := Idle), s.toClient, s.clientDone + 1);
    GatedStill(s, t);
    LiveInvariant(t);
  }

  lemma NextKeeps(s: Relay, e: Event)
    requires Invariant(s)
    ensures Invariant(Next(s, e))
  {
    if Enabled(s, e) {
      match e
      case ClientRecord(record) => ClientRecordKeeps(s, record);
      case ServerRecord(record) => ServerRecordKeeps(s, record);
      case ReaderFailed => StoppedKeeps(s, Next(s, e));
      case Checked(host, anyEndpoint) => CheckedKeeps(s, host, anyEndpoint);
      case Connected(host, ok) => ConnectedKeeps(s, host, ok);
      case WroteToServer(ok) => WroteToServerKeeps(s, ok);
      case WroteToClient(ok) => WroteToClientKeeps(s, ok);
    }
  }

  lemma {:induction false} RunKeeps(events: seq<Event>)
    ensures Invariant(Run(events))
    decreases |events|
  {
    if events != [] {
      RunKeeps(events[..|events| - 1]);
      NextKeeps(Run(events[..|events| - 1]), events[|events| - 1]);
    } else {
      assert INITIAL.toClient + INITIAL.pair.client.queue == [];
      assert Records(INITIAL.toServer) == [];
    }
  }

  // ---- main results, for every run

  /**
   * Nothing is lost, changed or reordered: while the connection lives, what was written towards the server, the
   * write in flight and what is queued make up the client's records from the first accepted hello on. At most one
   * write is outstanding, and it is the last begun.
   */
  lemma ClientRecordsConserved(events: seq<Event>)
    ensures var s := Run(events);
            && Records(s.toServer) <= Relayed(s.fromClient)
            && (s.pair.client.running ==>
                  && Records(s.toServer) + s.pair.server.queue == Relayed(s.fromClient)
                  && Orderly(s.pair.server, Records(s.toServer), s.serverDone))
  {
    RunKeeps(events);
  }

  lemma ServerRecordsConserved(events: seq<Event>)
    ensures var s := Run(events);
            && s.toClient <= s.fromServer
            && (s.pair.client.running ==>
                  && s.toClient + s.pair.client.queue == s.fromServer
                  && Orderly(s.pair.client, s.toClient, s.clientDone))
  {
    RunKeeps(events);
  }

  /**
   * Whatever is written towards a server goes over a connection to a host that an accepted ClientHello of this
   * client names and that endpoints were delivered for; and it was written from a hello with an allowed suite on.
   */
  lemma NothingSentUngated(events: seq<Event>, i: nat)
    requires i < |Run(events).toServer|
    ensures var s := Run(events);
            && s.toServer[i].host in s.approved
            && Named(s.fromClient, s.toServer[i].host)
            && IsAcceptedHello(s.toServer[0].record)
  {
    RunKeeps(events);
    var s := Run(events);
    RelayedStartsAccepted(s.fromClient);
    assert Records(s.toServer)[0] == Relayed(s.fromClient)[0];
  }

  lemma {:induction false} RelayedStartsAccepted(log: seq<Record>)
    ensures Relayed(log) != [] ==> IsAcceptedHello(Relayed(log)[0])
  {
    if log != [] {
      RelayedStartsAccepted(log[1..]);
    }
  }

  /**
   * What the client is sent up to the server's change_cipher_spec was decoded, and is no handshake record below
   * TLS 1.0, nor one with a ServerHello that may not pass and none before it.
   */
  lemma NothingReturnedUngated(events: seq<Event>, i: nat)
    requires i < |Run(events).toClient|
    requires forall j :: 0 <= j < i ==>
               Read(Run(events).toClient[j]).Good? ==> Read(Run(events).toClient[j]).value.kind != CHANGE_CIPHER_SPEC
    ensures !StopsServer(Run(events).toClient[i])
  {
    hide Run, StopsServer, Passes;
    RunKeeps(events);
    PassesExactly(Run(events).toClient[i]);
  }

  /** What ends a relay: records that may not come, a failure of a reader, a check, a connection or a write. */
  ghost predicate Ends(p: Pair, e: Event) {
    match e
    case ClientRecord(record) => record != [] && !p.client.clientEncrypted && StopsClient(p.client, record)
    case ServerRecord(record) => record == [] || (!p.server.serverEncrypted && StopsServer(record))
    case ReaderFailed => true
    case Checked(_, anyEndpoint) => !anyEndpoint
    case Connected(_, ok) => !ok
    case WroteToServer(ok) => !ok
    case WroteToClient(ok) => !ok
  }

  /** An event stops a live relay exactly if it is one of these; nothing comes of any after that. */
  lemma EndsExactly(s: Relay, e: Event)
    requires Enabled(s, e)
    ensures Next(s, e).pair.client.running <==> !Ends(s.pair, e)
    ensures Ends(s.pair, e) ==> forall later :: !Enabled(Next(s, e), later)
  {
    hide TakeClientRecord, OnServerRecord, StopsClient, StopsServer, HasHello, HostNameOf;
    if e.ClientRecord? {
      ClientStopsExactly(s.pair, e.record);
    } else if e.ServerRecord? {
      ServerStopsExactly(s.pair, e.record);
    }
  }

  /** An accepted hello by the messages of its record, and the host it names. */
  lemma AcceptedHelloExactly(record: Record)
    ensures IsAcceptedHello(record) <==>
            && Read(record).Good? && Read(record).value.recordVersion >= TLS_1_0
            && exists hello :: HasHello(record, hello) && OffersAllowedSuite(hello.cipherSuites)
    ensures forall hello :: IsAcceptedHello(record) && HasHello(record, hello) ==>
              NamesHost(hello.extensions, HelloHost(record))
  {
    hide Read, FirstClientHello, HasFirst, NamesHost, HostNameOf;
    var r := Read(record);
    if r.Good? && r.value.content.Handshake? {
      forall hello
        ensures HasHello(record, hello) <==> FirstClientHello(r.value.content.messages) == Some(hello)
        ensures HasHello(record, hello) ==> NamesHost(hello.extensions, HostNameOf(hello.extensions))
      {
        HasHelloExactly(record, hello);
        if HasHello(record, hello) {
          HostNameExactly(hello.extensions, HostNameOf(hello.extensions));
        }
      }
    }
  }

  lemma NonEmpty(m: multiset<HostName>)
    ensures |m| > 0 <==> exists h :: h in m
  {
  }
}
