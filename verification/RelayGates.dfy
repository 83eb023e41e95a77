/** Which records stop the two contexts, said of the decoded messages themselves. */
module RelayGates {
  import opened Bytes
  import opened Options
  import opened TlsDefinition
  import opened TlsReading
  import opened TlsLocality
  import opened SecurityPolicy
  import opened RelaySpec

  /** A message of this type and content, and none of this type before it. */
  predicate HasFirst(hs: seq<HandshakeMessage>, kind: byte, content: HandshakeContent) {
    exists i :: 0 <= i < |hs| && IsFirst(hs, i, kind) && hs[i].content == content
  }

  predicate IsFirst(hs: seq<HandshakeMessage>, i: nat, kind: byte) {
    i < |hs| && hs[i].kind == kind && forall j :: 0 <= j < i ==> hs[j].kind != kind
  }

  /** The extension at `i` is the first server_name. */
  predicate IsFirstName(es: seq<Extension>, i: nat) {
    i < |es| && es[i].kind == SERVER_NAME && forall j :: 0 <= j < i ==> es[j].kind != SERVER_NAME
  }

  /** The first server_name holds the host; none at all stands for no name. */
  predicate NamesHost(es: seq<Extension>, host: HostName) {
    || (exists i :: 0 <= i < |es| && IsFirstName(es, i) && es[i].content == ServerName(host))
    || (host == [] && forall i :: 0 <= i < |es| ==> es[i].kind != SERVER_NAME)
  }

  lemma {:induction false} HostNameExactly(es: seq<Extension>, host: HostName)
    requires AllWellTyped(es)
    ensures NamesHost(es, host) <==> host == HostNameOf(es)
  {
    if es != [] && es[0].kind != SERVER_NAME {
      var rest := es[1..];
      HostNameExactly(rest, host);
      assert forall i :: 0 < i < |es| ==> es[i] == rest[i - 1];
      if NamesHost(es, host) && !(forall i :: 0 <= i < |es| ==> es[i].kind != SERVER_NAME) {
        var i :| 0 <= i < |es| && IsFirstName(es, i) && es[i].content == ServerName(host);
        assert IsFirstName(rest, i - 1);
      }
      if j :| 0 <= j < |rest| && IsFirstName(rest, j) && rest[j].content == ServerName(host) {
        assert IsFirstName(es, j + 1);
      }
    } else if es != [] {
      assert WellTypedExtension(es[0]);
      assert IsFirstName(es, 0);
    }
  }

  // ---- the hello of a record

  predicate AllTyped(hs: seq<HandshakeMessage>) {
    forall h :: h in hs ==> WellTyped(h)
  }

  lemma HasFirstAfter(hs: seq<HandshakeMessage>, kind: byte, content: HandshakeContent)
    requires hs != [] && hs[0].kind != kind
    ensures HasFirst(hs, kind, content) <==> HasFirst(hs[1..], kind, content)
  {
    var rest := hs[1..];
    assert forall j :: 0 < j < |hs| ==> hs[j] == rest[j - 1];
    if i :| 0 <= i < |hs| && IsFirst(hs, i, kind) && hs[i].content == content {
      assert IsFirst(rest, i - 1, kind) && rest[i - 1].content == content;
    }
    if i :| 0 <= i < |rest| && IsFirst(rest, i, kind) && rest[i].content == content {
      assert IsFirst(hs, i + 1, kind) && hs[i + 1].content == content;
    }
  }

  lemma {:induction false} FirstServerHelloExactly(hs: seq<HandshakeMessage>, hello: ServerHello)
    requires AllTyped(hs)
    ensures FirstServerHello(hs) == Some(hello) <==> HasFirst(hs, SERVER_HELLO, OfServer(hello))
  {
    hide WellTyped;
    if hs != [] {
      assert WellTyped(hs[0]);
      Typed(hs[0]);
      if hs[0].kind == SERVER_HELLO {
        assert IsFirst(hs, 0, SERVER_HELLO);
      } else {
        FirstServerHelloExactly(hs[1..], hello);
        HasFirstAfter(hs, SERVER_HELLO, OfServer(hello));
      }
    }
  }

  lemma {:induction false} FirstClientHelloExactly(hs: seq<HandshakeMessage>, hello: ClientHello)
    requires AllTyped(hs)
    ensures FirstClientHello(hs) == Some(hello) <==> HasFirst(hs, CLIENT_HELLO, OfClient(hello))
    ensures FirstClientHello(hs) == Some(hello) ==> AllWellTyped(hello.extensions)
  {
    hide WellTyped;
    if hs != [] {
      assert WellTyped(hs[0]);
      Typed(hs[0]);
      if hs[0].kind == CLIENT_HELLO {
        assert IsFirst(hs, 0, CLIENT_HELLO);
      } else {
        FirstClientHelloExactly(hs[1..], hello);
        HasFirstAfter(hs, CLIENT_HELLO, OfClient(hello));
      }
    }
  }

  lemma Typed(h: HandshakeMessage)
    requires WellTyped(h)
    ensures h.kind == CLIENT_HELLO ==> h.content.OfClient? && AllWellTyped(h.content.client.extensions)
    ensures h.kind == SERVER_HELLO ==> h.content.OfServer?
  {
  }

  /** The handshake messages of a record that is decoded are what their types say. */
  lemma ReadTyped(record: Record)
    requires Read(record).Good? && Read(record).value.content.Handshake?
    ensures AllTyped(Read(record).value.content.messages)
  {
    hide NumberAt, At, HandshakesAt, WellTyped;
    DecodedWellTyped(record, 5 + NumberAt(record, 3), 5);
  }

  /** A record is a handshake by its type. */
  lemma ReadKind(record: Record)
    ensures Read(record).Good? ==> (Read(record).value.content.Handshake? <==> Read(record).value.kind == HANDSHAKE)
  {
  }

  // ---- the server's records

  /** A hello the server may not send: a retry other than that of TLS 1.3, or a suite that is not allowed. */
  predicate BadServerHello(hello: ServerHello) {
    || hello.retryType in {FOR_TLS_1_1, FOR_UNKNOWN}
    || hello.cipherSuite !in ALLOWED_CIPHER_SUITES
  }

  /** A record the server may not send before its change_cipher_spec. */
  ghost predicate StopsServer(record: Record) {
    var r := Read(record);
    || r.Bad?
    || (r.value.content.Handshake? &&
          (|| r.value.recordVersion < TLS_1_0
           || exists hello :: HasFirst(r.value.content.messages, SERVER_HELLO, OfServer(hello)) && BadServerHello(hello)))
  }

  lemma PassesExactly(record: Record)
    ensures Passes(record) <==> !StopsServer(record)
  {
    hide Read, FirstServerHello, HasFirst;
    var r := Read(record);
    if r.Good? && r.value.content.Handshake? {
      var hs := r.value.content.messages;
      ReadTyped(record);
      forall hello
        ensures FirstServerHello(hs) == Some(hello) <==> HasFirst(hs, SERVER_HELLO, OfServer(hello))
      {
        FirstServerHelloExactly(hs, hello);
      }
    }
  }

  /**
   * The server context stops both for an empty record, and before the server's change_cipher_spec for one that is
   * not decoded, a handshake record below TLS 1.0, and one whose first ServerHello asks for a retry other than that
   * of TLS 1.3 or names a suite that is not allowed. Any other record is queued for the client.
   */
  lemma ServerStopsExactly(p: Pair, record: Record)
    ensures var encrypted := p.server.serverEncrypted;
            var stops := record == [] || (!encrypted && StopsServer(record));
            var seen := p.(server := p.server.(serverEncrypted := encrypted || IsChangeCipherSpec(record)));
            && (Forwards(encrypted, record) <==> !stops)
            && OnServerRecord(p, record)
               == if stops then Stopped(p)
                  else if p.client.paired then seen.(client := Enqueued(p.client, record))
                  else seen
  {
    PassesExactly(record);
    hide MessageAt, FirstServerHello, StopsServer, DoWrite;
    ReadKind(record);
  }

  // ---- the client's records

  /** A hello that has no suite that is allowed, or does not name the host it has to. */
  predicate BadClientHello(client: Ctx, hello: ClientHello) {
    || (forall k :: 0 <= k < |hello.cipherSuites| ==> hello.cipherSuites[k] !in ALLOWED_CIPHER_SUITES)
    || (client.connectedToHost && !NamesHost(hello.extensions, client.hostName))
    || (!client.connectedToHost && NamesHost(hello.extensions, []))
  }

  /** The record holds the ClientHello, and no other comes before it. */
  predicate HasHello(record: Record, hello: ClientHello) {
    var r := Read(record);
    r.Good? && r.value.content.Handshake? && HasFirst(r.value.content.messages, CLIENT_HELLO, OfClient(hello))
  }

  /** A record the client may not send before its change_cipher_spec. */
  ghost predicate StopsClient(client: Ctx, record: Record) {
    var r := Read(record);
    || r.Bad?
    || (r.value.content.Handshake? && r.value.recordVersion < TLS_1_0)
    || exists hello :: HasHello(record, hello) && BadClientHello(client, hello)
  }

  lemma HasHelloExactly(record: Record, hello: ClientHello)
    requires Read(record).Good? && Read(record).value.content.Handshake?
    ensures HasHello(record, hello) <==> FirstClientHello(Read(record).value.content.messages) == Some(hello)
    ensures HasHello(record, hello) ==> AllWellTyped(hello.extensions)
  {
    hide Read, FirstClientHello, HasFirst;
    ReadTyped(record);
    FirstClientHelloExactly(Read(record).value.content.messages, hello);
  }

  lemma BadClientHelloExactly(client: Ctx, hello: ClientHello)
    requires AllWellTyped(hello.extensions)
    ensures var host := HostNameOf(hello.extensions);
            BadClientHello(client, hello) <==>
            || !OffersAllowedSuite(hello.cipherSuites)
            || (if client.connectedToHost then host != client.hostName else host == [])
  {
    hide NamesHost, HostNameOf;
    HostNameExactly(hello.extensions, client.hostName);
    HostNameExactly(hello.extensions, []);
  }

  /** The pair the client's record goes on from: linked, and encrypted from a change_cipher_spec on. */
  function Onward(p: Pair, record: Record): Pair {
    Pair(p.client.(paired := true, clientEncrypted := p.client.clientEncrypted || IsChangeCipherSpec(record)),
         if p.client.paired then p.server else FRESH)
  }

  /** The pair after a hello: linked back, and holding the host if it is still to be connected to. */
  function OnwardHello(p: Pair, host: HostName): Pair {
    Pair(p.client.(paired := true, hostName := if p.client.connectedToHost then p.client.hostName else host),
         (if p.client.paired then p.server else FRESH).(paired := true))
  }

  /**
   * The client's context stops both, before the client's change_cipher_spec, for a record that is not decoded, a
   * handshake record below TLS 1.0, and one whose first ClientHello has no suite that is allowed, or another host than
   * the one connected to, or none while there is no connection. Any other record goes on to the server's side; an
   * empty one, which a reader's notice is, does nothing.
   */
  lemma ClientStopsExactly(p: Pair, record: Record)
    ensures record == [] ==> TakeClientRecord(p, record) == Reaction(p, None, false)
    ensures record != [] ==>
            var taken, open := TakeClientRecord(p, record), !p.client.clientEncrypted;
            && (taken.stops <==> open && StopsClient(p.client, record))
            && (!taken.stops && !(open && exists hello :: HasHello(record, hello)) ==>
                  taken == Reaction(ToServer(Onward(p, record), record), None, false))
            && (forall hello :: !taken.stops && open && HasHello(record, hello) ==>
                  && NamesHost(hello.extensions, HostNameOf(hello.extensions))
                  && taken.pair == ToServer(OnwardHello(p, HostNameOf(hello.extensions)), record)
                  && taken.ask == if p.client.connectedToHost then None else Some(HostNameOf(hello.extensions)))
  {
    if record != [] && !p.client.clientEncrypted && Read(record).Good? {
      if exists hello :: HasHello(record, hello) {
        var hello :| HasHello(record, hello);
        HelloTaken(p, record, hello);
      } else {
        PlainTaken(p, record);
      }
    }
  }

  lemma HelloTaken(p: Pair, record: Record, hello: ClientHello)
    requires record != [] && !p.client.clientEncrypted && HasHello(record, hello)
    ensures forall other :: HasHello(record, other) ==> other == hello
    ensures NamesHost(hello.extensions, HostNameOf(hello.extensions))
    ensures var taken := TakeClientRecord(p, record);
            && (taken.stops <==> Read(record).value.recordVersion < TLS_1_0 || BadClientHello(p.client, hello))
            && (!taken.stops ==>
                  taken == Reaction(ToServer(OnwardHello(p, HostNameOf(hello.extensions)), record),
                                    if p.client.connectedToHost then None else Some(HostNameOf(hello.extensions)), false))
  {
    assert Read(record).Good? && Read(record).value.content.Handshake?;
    hide MessageAt, FirstClientHello, NamesHost, HostNameOf, DoWrite, HasHello, BadClientHello;
    forall other
      ensures HasHello(record, other) <==> FirstClientHello(Read(record).value.content.messages) == Some(other)
    {
      HasHelloExactly(record, other);
    }
    HasHelloExactly(record, hello);
    HostNameExactly(hello.extensions, HostNameOf(hello.extensions));
    BadClientHelloExactly(p.client, hello);
  }

  lemma PlainTaken(p: Pair, record: Record)
    requires record != [] && !p.client.clientEncrypted && Read(record).Good? && forall hello :: !HasHello(record, hello)
    ensures var low := Read(record).value.content.Handshake? && Read(record).value.recordVersion < TLS_1_0;
            && TakeClientRecord(p, record).stops == low
            && (!low ==> TakeClientRecord(p, record) == Reaction(ToServer(Onward(p, record), record), None, false))
  {
    hide MessageAt, FirstClientHello, DoWrite, HasHello;
    ReadKind(record);
    if Read(record).value.content.Handshake? {
      var first := FirstClientHello(Read(record).value.content.messages);
      if first.Some? {
        HasHelloExactly(record, first.value);
      }
    }
  }
}
