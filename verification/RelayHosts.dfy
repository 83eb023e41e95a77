/** Which host a relayed connection is made to, and over which connections the client's records go. */
module RelayHosts {
  import opened Bytes
  import opened Options
  import opened TlsDefinition
  import opened TlsReading
  import opened SecurityPolicy
  import opened RelaySpec
  import opened RelayRuns
  import TlsWire
  import TlsRoundTrip
  import TlsFrames

  // ---- which host

  /** All that is outstanding, and the last connection, is for the host name the client context holds. */
  ghost predicate Aligned(s: Relay) {
    && (forall h :: h in s.checks || h in s.connects ==> h == s.pair.client.hostName)
    && (s.links > 0 ==> s.host == s.pair.client.hostName)
  }

  /** An accepted hello before the connection that names another host while a check or connect is outstanding. */
  predicate Renames(s: Relay, e: Event) {
    && e.ClientRecord? && e.record != []
    && !s.pair.client.clientEncrypted && !s.pair.client.connectedToHost
    && IsAcceptedHello(e.record)
    && HelloHost(e.record) != [] && HelloHost(e.record) != s.pair.client.hostName
    && |s.checks| + |s.connects| > 0
  }

  /** `t` holds the same name as `s`, and its hosts were all there before. */
  ghost predicate HostsFrom(s: Relay, t: Relay) {
    && t.pair.client.hostName == s.pair.client.hostName
    && (forall h :: h in t.checks || h in t.connects ==> h in s.checks || h in s.connects)
    && (t.links > 0 ==> t.host in s.connects || (s.links > 0 && t.host == s.host))
  }

  lemma HostsFromEvent(s: Relay, e: Event)
    requires Enabled(s, e) && Next(s, e).pair.client.running
    requires e.Checked? || e.Connected?
    ensures HostsFrom(s, Next(s, e))
  {
  }

  lemma HostsFromWrite(s: Relay, e: Event)
    requires Enabled(s, e) && Next(s, e).pair.client.running
    requires e.WroteToServer? || e.WroteToClient? || (e.ClientRecord? && e.record == [])
    ensures HostsFrom(s, Next(s, e))
  {
  }

  lemma ServerRecordHost(p: Pair, record: Record)
    ensures OnServerRecord(p, record).client.hostName == p.client.hostName
  {
    hide Read;
  }

  lemma HostsFromServerRecord(s: Relay, record: Record)
    requires Enabled(s, ServerRecord(record)) && Next(s, ServerRecord(record)).pair.client.running
    ensures HostsFrom(s, Next(s, ServerRecord(record)))
  {
    hide OnServerRecord;
    ServerRecordHost(s.pair, record);
  }

  /** What a record of the client does to the hosts. */
  lemma ClientRecordHosts(s: Relay, record: Record)
    requires Invariant(s) && s.pair.client.running && record != []
    requires OnClientRecord(s.pair, record).0.client.running
    ensures var t, ask := Next(s, ClientRecord(record)), OnClientRecord(s.pair, record).1;
            && t.pair.client.hostName == (if ask.Some? then ask.value else s.pair.client.hostName)
            && t.links == s.links && t.host == s.host && t.connects == s.connects
            && t.checks == (if ask.Some? then s.checks + multiset{ask.value} else s.checks)
            && (ask.Some? ==> s.links == 0)
  {
    hide TakeClientRecord, Read, Gated, ServerGate, Relayed, Flagged, Asked;
    TakenByTaker(s.pair, record);
  }

  lemma AlignedClientRecord(s: Relay, record: Record)
    requires Invariant(s) && s.pair.client.running && Aligned(s) && record != []
    requires OnClientRecord(s.pair, record).0.client.running
    ensures Aligned(Next(s, ClientRecord(record))) <==> !Renames(s, ClientRecord(record))
  {
    hide Read, OnClientRecord, Gated, ServerGate, Relayed, Flagged, Asked;
    TakenByTaker(s.pair, record);
    ClientRecordHosts(s, record);
    NonEmpty(s.checks);
    NonEmpty(s.connects);
    var t, ask := Next(s, ClientRecord(record)), OnClientRecord(s.pair, record).1;
    if ask.None? {
      assert HostsFrom(s, t);
    } else if Renames(s, ClientRecord(record)) {
      var h :| h in s.checks || h in s.connects;
      assert h in t.checks || h in t.connects;
    } else {
      assert forall h :: h in t.checks ==> h in s.checks || h == ask.value;
    }
  }

  lemma AlignedFrom(s: Relay, t: Relay)
    requires Aligned(s) && HostsFrom(s, t)
    ensures Aligned(t)
  {
  }

  lemma HostsFromOther(s: Relay, e: Event)
    requires Enabled(s, e) && Next(s, e).pair.client.running && (e.ClientRecord? ==> e.record == [])
    ensures HostsFrom(s, Next(s, e))
  {
    match e
    case ServerRecord(record) => HostsFromServerRecord(s, record);
    case Checked(_, _) => HostsFromEvent(s, e);
    case Connected(_, _) => HostsFromEvent(s, e);
    case ReaderFailed =>
    case _ => HostsFromWrite(s, e);
  }

  /** A step that leaves the connection alive keeps the hosts aligned exactly when it is no renaming hello. */
  lemma AlignedExactly(s: Relay, e: Event)
    requires Invariant(s) && Enabled(s, e) && Aligned(s) && Next(s, e).pair.client.running
    ensures Aligned(Next(s, e)) <==> !Renames(s, e)
  {
    if e.ClientRecord? && e.record != [] {
      AlignedClientRecord(s, e.record);
    } else {
      HostsFromOther(s, e);
      AlignedFrom(s, Next(s, e));
    }
  }

  /** In a run without renaming hellos the connection is to the host the context holds. */
  lemma {:induction false} AlignedRun(events: seq<Event>)
    requires forall k :: 0 <= k < |events| ==> !Renames(Run(events[..k]), events[k])
    ensures Run(events).pair.client.running ==> Aligned(Run(events))
    decreases |events|
  {
    if events != [] {
      var n := |events| - 1;
      var front, e := events[..n], events[n];
      assert forall k :: 0 <= k < n ==> front[..k] == events[..k];
      AlignedRun(front);
      RunKeeps(front);
      if Enabled(Run(front), e) && Run(events).pair.client.running {
        AlignedExactly(Run(front), e);
      }
    }
  }

  /** With one check asked for, all writes go over one connection. */
  lemma OneConnection(events: seq<Event>, i: nat)
    requires Run(events).asked <= 1 && i < |Run(events).toServer|
    ensures Run(events).toServer[i].link == 1
  {
    RunKeeps(events);
  }

  // ---- versions

  function WithoutVersions(es: seq<Extension>): seq<Extension> {
    if es == [] then []
    else (if es[0].kind == SUPPORTED_VERSIONS then [] else [es[0]]) + WithoutVersions(es[1..])
  }

  lemma {:induction false} HostNameStays(es: seq<Extension>)
    ensures HostNameOf(WithoutVersions(es)) == HostNameOf(es)
  {
    if es != [] {
      HostNameStays(es[1..]);
      var rest := WithoutVersions(es[1..]);
      assert [] + rest == rest;
      if es[0].kind != SUPPORTED_VERSIONS {
        assert ([es[0]] + rest)[1..] == rest;
      }
    }
  }

  /** No version is refused: what becomes of a hello does not depend on any of the versions it names. */
  lemma VersionsIgnored(p: Pair, record: Record, a: ClientHello, b: ClientHello)
    requires a.cipherSuites == b.cipherSuites && WithoutVersions(a.extensions) == WithoutVersions(b.extensions)
    ensures TakeClientHello(p, record, a) == TakeClientHello(p, record, b)
  {
    HostNameStays(a.extensions);
    HostNameStays(b.extensions);
  }

  // ---- such runs exist

  const ZEROS: Random := [0, 0, 0, 0, 0, 0, 0, 0, 0, 0, 0, 0, 0, 0, 0, 0, 0, 0, 0, 0, 0, 0, 0, 0, 0, 0, 0, 0, 0, 0, 0, 0]

  /** The shortest hello for a host: one allowed suite, and the host's name. */
  function HelloFor(host: HostName): HandshakeMessage {
    HandshakeMessage(CLIENT_HELLO, OfClient(
      ClientHello(TLS_1_2, ZEROS, [], [0x1301], [], [Extension(SERVER_NAME, ServerName(host))])))
  }

  function HelloRecord(host: HostName): Record
    requires WellTyped(HelloFor(host))
  {
    TlsWire.RecordBytes(HANDSHAKE, TLS_1_0, TlsWire.HandshakeBytes(HelloFor(host)))
  }

  /** The record is a hello that has a host connected to. */
  predicate IsHelloFor(record: Record, host: HostName) {
    record != [] && IsAcceptedHello(record) && host != [] && HelloHost(record) == host
  }

  lemma HelloFits(host: HostName)
    requires 0 < |host| <= 65480
    ensures WellTyped(HelloFor(host)) && TlsWire.Encodable(HelloFor(host))
    ensures TlsRoundTrip.DerivedHandshake(HelloFor(host)) == HelloFor(host)
  {
    var h := HelloFor(host);
    var hello := h.content.client;
    assert hello.extensions[1..] == [];
    assert TlsWire.ExtensionListSize(hello.extensions) == TlsWire.ExtensionSize(hello.extensions[0]);
  }

  lemma HelloOffers(host: HostName)
    ensures var hello := HelloFor(host).content.client;
            && FirstClientHello([HelloFor(host)]) == Some(hello)
            && OffersAllowedSuite(hello.cipherSuites) && HostNameOf(hello.extensions) == host
  {
    assert HelloFor(host).content.client.cipherSuites[0] in ALLOWED_CIPHER_SUITES;
  }

  lemma HelloReadBack(host: HostName)
    requires 0 < |host| <= 65480
    ensures WellTyped(HelloFor(host)) && HelloRecord(host) != []
    ensures Read(HelloRecord(host))
         == Good(Message(HANDSHAKE, TLS_1_0, Handshake([HelloFor(host)])), |HelloRecord(host)|)
  {
    hide HelloFor, WellTyped, TlsWire.Encodable, TlsWire.HandshakeBytes, TlsWire.RecordBytes, MessageAt;
    hide TlsRoundTrip.DerivedHandshake;
    HelloFits(host);
    var h, record := HelloFor(host), HelloRecord(host);
    TlsRoundTrip.DecodeUndoesEncode(TLS_1_0, h, [], 0);
    assert record + [] == record;
  }

  lemma HelloAccepted(host: HostName)
    requires 0 < |host| <= 65480
    ensures WellTyped(HelloFor(host)) && IsHelloFor(HelloRecord(host), host)
  {
    hide Read, WellTyped, FirstClientHello, OffersAllowedSuite, HostNameOf, HelloRecord, HelloFor;
    HelloReadBack(host);
    HelloOffers(host);
  }

  /** The name in an extension stands behind nine bytes of headers. */
  lemma {:induction false} NamesFit(memory: seq<byte>, size: nat, offset: nat, end: nat)
    requires end <= size <= |memory| && ExtensionListAt(memory, size, offset, end).Some?
    ensures var host := HostNameOf(ExtensionListAt(memory, size, offset, end).value);
            host != [] ==> offset + 9 + |host| <= end
    decreases end - offset
  {
    hide NumberAt, NumberVectorAt;
    if offset < end {
      var piece := ExtensionAt(memory, size, offset, end);
      var es := ExtensionListAt(memory, size, offset, end).value;
      if !piece.last {
        NamesFit(memory, size, piece.next, end);
        assert es[1..] == ExtensionListAt(memory, size, piece.next, end).value;
      }
    }
  }

  lemma HelloNameFits(memory: seq<byte>, size: nat, from: nat)
    requires size <= |memory| && ClientHelloAt(memory, size, from).Good?
    ensures var m := ClientHelloAt(memory, size, from).value;
            var host := HostNameOf(m.extensions);
            host != [] && m.cipherSuites != [] ==> from + 51 + |host| <= size
  {
    hide ClientHelloAt, NumberAt, ExtensionListAt, TlsFrames.ClientBlock;
    TlsFrames.ClientHelloEnds(memory, size, from);
    var block := TlsFrames.ClientBlock(memory, from);
    NamesFit(memory, size, block + 2, block + 2 + NumberAt(memory, block));
  }

  lemma {:induction false} FirstHelloFits(memory: seq<byte>, size: nat, from: nat)
    requires size <= |memory| && HandshakesAt(memory, size, from).Some?
    ensures var first := FirstClientHello(HandshakesAt(memory, size, from).value);
            first.Some? && first.value.cipherSuites != [] && HostNameOf(first.value.extensions) != [] ==>
              from + 55 + |HostNameOf(first.value.extensions)| <= size
    decreases size - from
  {
    hide ClientHelloAt, ServerHelloAt, HostNameOf;
    if from < size {
      var h := HandshakeAt(memory, size, from).value;
      var hs, end := HandshakesAt(memory, size, from).value, HandshakeEnd(memory, from);
      if h.kind == CLIENT_HELLO {
        HelloNameFits(memory, size, from + 4);
      } else {
        FirstHelloFits(memory, size, end);
        assert hs[1..] == HandshakesAt(memory, size, end).value;
      }
    }
  }

  lemma AcceptedNameFits(record: Record, host: HostName)
    requires IsHelloFor(record, host)
    ensures |host| <= 65480
  {
    hide HandshakesAt, NumberAt, HostNameOf;
    FirstHelloFits(record, 5 + NumberAt(record, 3), 5);
  }

  /** There is a hello that the relay takes for a host exactly up to the size that still fits a record. */
  lemma HostAcceptedExactly(host: HostName)
    ensures (exists record :: IsHelloFor(record, host)) <==> 0 < |host| <= 65480
  {
    hide IsAcceptedHello, HelloHost;
    if 0 < |host| <= 65480 {
      HelloAccepted(host);
      assert IsHelloFor(HelloRecord(host), host);
    }
    if record :| IsHelloFor(record, host) {
      AcceptedNameFits(record, host);
    }
  }

  /** An accepted hello before the connection is queued and its host asked for. */
  lemma HelloStep(s: Relay, record: Record)
    requires s.pair.client.running && !s.pair.client.clientEncrypted && !s.pair.client.connectedToHost
    requires s.pair.client.paired || s.pair.server == FRESH
    requires s.pair.server.socket == NO_SOCKET
    requires record != [] && IsAcceptedHello(record) && HelloHost(record) != []
    ensures var t := Next(s, ClientRecord(record));
            t == s.(pair := Pair(s.pair.client.(paired := true, hostName := HelloHost(record)),
                                 s.pair.server.(paired := true, queue := s.pair.server.queue + [record])),
                    fromClient := s.fromClient + [record],
                    checks := s.checks + multiset{HelloHost(record)},
                    asked := s.asked + 1)
  {
  }

  lemma RunOne(events: seq<Event>, e: Event)
    ensures Run(events + [e]) == Next(Run(events), e)
  {
  }

  /** The state after these hellos, all before the connection; the last is for the host. */
  function Asking(records: seq<Record>, checks: multiset<HostName>, host: HostName): Relay {
    INITIAL.(pair := Pair(ACCEPTED.(paired := true, hostName := host), FRESH.(paired := true, queue := records)),
             fromClient := records, checks := checks, asked := |records|)
  }

  /** Two hellos, for the same host or another. */
  lemma TwoHellos(first: Record, second: Record, a: HostName, b: HostName)
    requires IsHelloFor(first, a) && IsHelloFor(second, b)
    ensures Next(Next(INITIAL, ClientRecord(first)), ClientRecord(second)) == Asking([first, second], multiset{a, b}, b)
  {
    HelloStep(INITIAL, first);
    assert [] + [first] == [first] && multiset{} + multiset{a} == multiset{a};
    HelloStep(Asking([first], multiset{a}, a), second);
    assert [first] + [second] == [first, second] && multiset{a} + multiset{b} == multiset{a, b};
  }

  /** The server context that begins to write what waits in its queue. */
  function Beginning(c: Ctx): Ctx
    requires c.queue != []
  {
    c.(running := true, socket := OPEN, queue := c.queue[1..], writing := Sending(c.queue[0]))
  }

  lemma WriteStep(s: Relay, host: HostName)
    requires s.pair.client.running && host in s.connects
    requires s.pair.server.queue != [] && s.pair.server.writing.Idle?
    ensures Next(s, Connected(host, true))
         == s.(connects := s.connects - multiset{host}, links := s.links + 1, host := host,
               pair := Pair(s.pair.client.(connectedToHost := true), Beginning(s.pair.server)),
               toServer := s.toServer + [Sent(s.pair.server.queue[0], s.links + 1, host)])
  {
  }

  /** Endpoints for a host are found and the connection is made: the first record waiting is written. */
  lemma ConnectStep(s: Relay, host: HostName)
    requires s.pair.client.running && host in s.checks
    requires s.pair.server.queue != [] && s.pair.server.writing.Idle?
    ensures Next(Next(s, Checked(host, true)), Connected(host, true))
         == s.(checks := s.checks - multiset{host}, approved := s.approved + {host},
               connects := s.connects + multiset{host} - multiset{host}, links := s.links + 1, host := host,
               pair := Pair(s.pair.client.(connectedToHost := true), Beginning(s.pair.server)),
               toServer := s.toServer + [Sent(s.pair.server.queue[0], s.links + 1, host)])
  {
    WriteStep(Next(s, Checked(host, true)), host);
  }

  lemma RunOfSteps(a: Event, b: Event, c: Event, d: Event)
    ensures Run([a, b, c, d]) == Next(Next(Next(Next(INITIAL, a), b), c), d)
  {
    assert [a, b, c, d][..3] == [a, b, c] && [a, b, c][..2] == [a, b] && [a, b][..1] == [a] && [a][..0] == [];
    assert Run([a]) == Next(Run([]), a);
    assert Run([a, b]) == Next(Run([a]), b);
    assert Run([a, b, c]) == Next(Run([a, b]), c);
  }

  /**
   * Two hellos for different hosts before the connection: what was endpoints for the first is connected to, though
   * the context holds the second, and the hello for the first is sent there.
   */
  lemma RenamedMisses(first: Record, second: Record, a: HostName, b: HostName)
    requires IsHelloFor(first, a) && IsHelloFor(second, b) && a != b
    ensures var s := Run([ClientRecord(first), ClientRecord(second), Checked(a, true), Connected(a, true)]);
            && s.pair.client.running && s.pair.client.hostName == b
            && s.links == 1 && s.host == a
            && s.toServer == [Sent(first, 1, a)]
            && s.pair.server.queue == [second]
  {
    RunOfSteps(ClientRecord(first), ClientRecord(second), Checked(a, true), Connected(a, true));
    TwoHellos(first, second, a, b);
    ConnectStep(Asking([first, second], multiset{a, b}, b), a);
  }

  /** A second connection while the first write is in flight takes over the rest of the records. */
  lemma ReconnectStep(s: Relay, host: HostName)
    requires s.pair.client.running && host in s.checks
    requires s.pair.server.queue != [] && s.pair.server.writing.Sending?
    ensures var t := Next(Next(Next(s, Checked(host, true)), Connected(host, true)), WroteToServer(true));
            && t.pair.client.running && t.links == s.links + 1
            && t.toServer == s.toServer + [Sent(s.pair.server.queue[0], s.links + 1, host)]
  {
    var connected := Next(Next(s, Checked(host, true)), Connected(host, true));
    assert s.toServer + [] == s.toServer && s.toClient + [] == s.toClient;
    assert connected.pair.server == s.pair.server.(running := true, socket := OPEN);
    assert connected.toServer == s.toServer && connected.host == host;
  }

  /** Two hellos for one host before the connection: the client's records are split over two connections. */
  lemma TwoConnections(first: Record, second: Record, a: HostName)
    requires IsHelloFor(first, a) && IsHelloFor(second, a)
    ensures var s := Run([ClientRecord(first), ClientRecord(second), Checked(a, true), Connected(a, true)]
                         + [Checked(a, true)] + [Connected(a, true)] + [WroteToServer(true)]);
            && s.pair.client.running
            && s.toServer == [Sent(first, 1, a), Sent(second, 2, a)]
  {
    hide Next, Run, IsHelloFor;
    var four := [ClientRecord(first), ClientRecord(second), Checked(a, true), Connected(a, true)];
    RunOfSteps(ClientRecord(first), ClientRecord(second), Checked(a, true), Connected(a, true));
    TwoHellos(first, second, a, a);
    ConnectStep(Asking([first, second], multiset{a, a}, a), a);
    RunOne(four, Checked(a, true));
    RunOne(four + [Checked(a, true)], Connected(a, true));
    RunOne(four + [Checked(a, true)] + [Connected(a, true)], WroteToServer(true));
    ReconnectStep(Run(four), a);
  }
}
