/** `tls::Context`: one end of a relayed connection. */
module Context {
  import opened Options
  import opened TlsDefinition
  import opened TlsReading
  import opened SecurityPolicy
  import opened RelaySpec
  import Network
  import TlsDecoder
  import TlsLocality

  class Context {
    var running: bool
    var socket: Socket
    var paired: Context?
    var connectedToHost: bool
    var clientEncrypted: bool
    var serverEncrypted: bool
    var hostName: HostName
    var queue: seq<Record>
    var writing: Writing

    ghost function View(): Ctx
      reads this
    {
      Ctx(running, socket, paired != null, connectedToHost, clientEncrypted, serverEncrypted, hostName, queue, writing)
    }

    /** This is the client context of a pair whose server context may not be paired back yet. */
    ghost predicate IsClient()
      reads this, paired
    {
      paired != null ==> paired != this && (paired.paired == null || paired.paired == this)
    }

    ghost function PairView(): RelaySpec.Pair
      reads this, paired
    {
      RelaySpec.Pair(View(), if paired == null then FRESH else paired.View())
    }

    constructor ()
      ensures View() == FRESH && paired == null
    {
      running, socket, paired := false, NO_SOCKET, null;
      connectedToHost, clientEncrypted, serverEncrypted := false, false, false;
      hostName, queue, writing := [], [], Idle;
    }

    /** Takes over a connected socket, starts the reader on it and sends what waits. */
    method Start()
      modifies this
      ensures paired == old(paired)
      ensures View() == RelaySpec.DoWrite(old(View()).(running := true, socket := OPEN))
    {
      socket := OPEN;
      running := true;
      DoWrite();
    }

    method Pair(another: Context?)
      modifies `paired
      ensures paired == another
    {
      paired := another;
    }

    /** Takes a record only from the context this one is paired with. */
    method Queue(from: Context, record: Record)
      modifies `queue, `writing
      ensures View() == if from == paired then Enqueued(old(View()), record) else old(View())
    {
      if from == paired {
        queue := queue + [record];
        DoWrite();
      }
    }

    method DoWrite()
      modifies `queue, `writing
      ensures View() == RelaySpec.DoWrite(old(View()))
      ensures old(writing) != Idle || old(queue) == [] || socket == NO_SOCKET ==>
                queue == old(queue) && writing == old(writing)
      ensures old(writing) == Idle && old(queue) != [] && socket != NO_SOCKET ==>
                && old(queue) == [old(queue)[0]] + queue
                && writing == if socket == OPEN then Sending(old(queue)[0]) else Lost
    {
      if writing != Idle {
        return;
      }
      if queue == [] {
        return;
      }
      if socket == NO_SOCKET {
        return;
      }
      writing := Lost;
      var task := queue[0];
      queue := queue[1..];
      if socket != OPEN {
        return;
      }
      writing := Sending(task);
    }

    /** Completion of the outstanding write. */
    method OnWritten(error: bool)
      requires paired != null ==> paired.paired == null || paired.paired == this
      modifies this, paired
      ensures error ==> View() == Closed(old(View()))
      ensures error && old(paired) != null && old(paired) != this ==> old(paired).View() == Closed(old(paired.View()))
      ensures !error ==> View() == WriteDone(old(View())) && paired == old(paired)
      ensures !error && paired != null && paired != this ==> paired.View() == old(paired.View())
    {
      if error {
        Stop();
        return;
      }
      writing := Idle;
      DoWrite();
    }

    /** Stops this context and the one it is paired with; neither keeps a link to the other. */
    method Stop()
      requires paired != null ==> paired.paired == null || paired.paired == this
      modifies this, paired
      ensures paired == null && View() == Closed(old(View()))
      ensures old(paired) != null && old(paired) != this ==>
                old(paired).paired == null && old(paired).View() == Closed(old(paired.View()))
      ensures !running && (socket == NO_SOCKET <==> old(socket) == NO_SOCKET) && socket != OPEN
      ensures queue == old(queue) && writing == old(writing) && hostName == old(hostName)
      decreases if paired == null then 0 else 1
    {
      running := false;
      if paired != null {
        var other := paired;
        other.Pair(null);
        other.Stop();
        paired := null;
      }
      if socket != NO_SOCKET {
        socket := CLOSED;
      }
    }

    /** A record the client sent; a server context that is given up may have begun to write it. */
    method HandleUserMessage(record: Record) returns (toCheck: Option<HostName>)
      requires IsClient()
      modifies this, paired
      ensures IsClient() && (paired == old(paired) || paired == null || fresh(paired))
      ensures (PairView(), toCheck) == OnClientRecord(old(PairView()), record)
      ensures old(paired) != null && paired == null ==>
        && old(paired).paired == null
        && old(paired).View() == Closed(TakeClientRecord(old(PairView()), record).pair.server)
    {
      toCheck := None;
      if record == [] {
        return;
      }
      if paired == null {
        var server := new Context();
        Pair(server);
      }
      if clientEncrypted {
        paired.Queue(this, record);
        return;
      }
      var decoded := TlsDecoder.DecodeMessage(record, |record|, 0);
      if decoded.Bad? {
        Stop();
        return;
      }
      var message := decoded.value;
      if message.kind == HANDSHAKE {
        if message.recordVersion < TLS_1_0 {
          Stop();
          return;
        }
        TlsLocality.DecodedWellTyped(record, 5 + NumberAt(record, 3), 5);
        var hello := FindClientHello(message.content.messages);
        if hello.Some? {
          toCheck := HandleClientHello(record, hello.value);
          return;
        }
      } else if message.kind == CHANGE_CIPHER_SPEC {
        clientEncrypted := true;
      }
      paired.Queue(this, record);
    }

    /** The loop over the handshake messages, which ends at the first ClientHello. */
    static method FindClientHello(messages: seq<HandshakeMessage>) returns (hello: Option<ClientHello>)
      requires forall h :: h in messages ==> WellTyped(h)
      ensures hello == FirstClientHello(messages)
      ensures hello.Some? ==> AllWellTyped(hello.value.extensions)
    {
      for i := 0 to |messages|
        invariant FirstClientHello(messages) == FirstClientHello(messages[i..])
      {
        assert WellTyped(messages[i]);
        if messages[i].kind == CLIENT_HELLO {
          return Some(messages[i].content.client);
        }
      }
      return None;
    }

    method HandleClientHello(record: Record, hello: ClientHello) returns (toCheck: Option<HostName>)
      requires IsClient() && paired != null
      requires AllWellTyped(hello.extensions)
      modifies this, paired
      ensures IsClient() && (paired == old(paired) || paired == null)
      ensures (PairView(), toCheck) == Settled(TakeClientHello(old(PairView()), record, hello))
      ensures paired == null ==>
        && old(paired).paired == null
        && old(paired).View() == Closed(TakeClientHello(old(PairView()), record, hello).pair.server)
    {
      toCheck := None;
      var ok := HardenVersions(HandshakeMessage(CLIENT_HELLO, OfClient(hello)));
      if !ok {
        // here the code stops
        assert false;
      }
      ok := CheckCipherSuites(hello.cipherSuites);
      if !ok {
        Stop();
        return;
      }
      var _, host := FindHostName(hello.extensions);
      paired.Pair(this);
      paired.Queue(this, record);
      if connectedToHost {
        if host != hostName {
          Stop();
        }
      } else {
        if |host| == 0 {
          Stop();
          return;
        }
        hostName := host;
        toCheck := Some(host);
      }
    }

    /** Gives the record to the context on the other side; `linked` says that there is one. */
    method Forward(record: Record) returns (linked: bool)
      requires paired != this
      modifies paired
      ensures linked <==> paired != null
      ensures linked ==> paired.paired == old(paired.paired)
      ensures linked ==> paired.View() == if paired.paired == this then Enqueued(old(paired.View()), record)
                                          else old(paired.View())
    {
      if paired == null {
        return false;
      }
      paired.Queue(this, record);
      return true;
    }

    /**
     * A record the server sent; this is the server context, paired with a client context and back, or stopped.
     * `linked` is false when the code calls the other context through a link that is not there.
     */
    method HandleServerMessage(record: Record) returns (linked: bool)
      requires paired != null ==> paired != this && paired.paired == this
      modifies this, paired
      ensures linked <==> old(paired) != null || !Forwards(old(serverEncrypted), record)
      ensures paired == old(paired) || paired == null
      ensures paired != null ==> paired.paired == this
      ensures old(paired) != null ==>
        && (paired == null <==> OnServerRecord(old(paired.PairView()), record) == Stopped(old(paired.PairView())))
        && old(paired).PairView() == OnServerRecord(old(paired.PairView()), record)
      ensures old(paired) == null && linked ==> View() == Closed(old(View()))
      ensures linked && Forwards(old(serverEncrypted), record) ==>
        paired == old(paired) && serverEncrypted == (old(serverEncrypted) || IsChangeCipherSpec(record))
      ensures !Forwards(old(serverEncrypted), record) ==> paired == null && serverEncrypted == old(serverEncrypted)
    {
      linked := true;
      if record == [] {
        Stop();
        return;
      }
      if serverEncrypted {
        linked := Forward(record);
        return;
      }
      var decoded := TlsDecoder.DecodeMessage(record, |record|, 0);
      if decoded.Bad? {
        Stop();
        return;
      }
      var message := decoded.value;
      if message.kind == HANDSHAKE {
        if message.recordVersion < TLS_1_0 {
          Stop();
          return;
        }
        TlsLocality.DecodedWellTyped(record, 5 + NumberAt(record, 3), 5);
        var refused := RefusesServerHello(message.content.messages);
        if refused {
          Stop();
          return;
        }
        linked := Forward(record);
        return;
      } else if message.kind == CHANGE_CIPHER_SPEC {
        serverEncrypted := true;
      }
      linked := Forward(record);
    }

    /** One turn of the reader: this handler asks for more whatever it does, so it is shown all the records. */
    method HandleServerTurn(records: seq<Record>) returns (linked: bool)
      requires paired != null ==> paired != this && paired.paired == this
      modifies this, paired
      ensures linked <==> !MeetsNoLink(old(paired != null), old(serverEncrypted), records)
    {
      ghost var client := paired;
      for i := 0 to |records|
        invariant paired == client || paired == null
        invariant paired != null ==> paired != this && paired.paired == this
        invariant MeetsNoLink(old(paired != null), old(serverEncrypted), records)
             <==> MeetsNoLink(paired != null, serverEncrypted, records[i..])
      {
        assert records[i..][1..] == records[i + 1..];
        linked := HandleServerMessage(records[i]);
        if !linked {
          return;
        }
      }
      return true;
    }

    /** The loop over the handshake messages, which ends at the first ServerHello. */
    static method RefusesServerHello(messages: seq<HandshakeMessage>) returns (refused: bool)
      requires forall h :: h in messages ==> WellTyped(h)
      ensures refused <==> FirstServerHello(messages).Some? && !AllowedServerHello(FirstServerHello(messages).value)
    {
      for i := 0 to |messages|
        invariant FirstServerHello(messages) == FirstServerHello(messages[i..])
      {
        assert WellTyped(messages[i]);
        if messages[i].kind == SERVER_HELLO {
          var hello := messages[i].content.server;
          if hello.retryType == FOR_TLS_1_1 || hello.retryType == FOR_UNKNOWN {
            return true;
          }
          return hello.cipherSuite !in ALLOWED_CIPHER_SUITES;
        }
      }
      return false;
    }

    /** The endpoints found for the host: without any everything stops, else one of them is connected to. */
    method DoConnectHost(endpoints: seq<Network.Endpoint>) returns (connecting: bool)
      requires IsClient()
      modifies this, paired
      ensures connecting <==> endpoints != []
      ensures connecting ==> PairView() == old(PairView()) && paired == old(paired)
      ensures !connecting ==> PairView() == Stopped(old(PairView()))
    {
      if |endpoints| == 0 {
        Stop();
        return false;
      }
      return true;
    }

    /**
     * The end of connecting to the host: the server context starts, or everything stops. A stop does not give up
     * the connecting, so the link to the server context may be gone by then: `linked` is false when the code
     * starts a context that is not there.
     */
    method HandleConnected(error: bool) returns (linked: bool)
      requires IsClient()
      modifies this, paired
      ensures linked <==> error || old(paired) != null
      ensures error ==> PairView() == Stopped(old(PairView()))
      ensures !error ==>
        paired == old(paired) && PairView() == if linked then OnConnected(old(PairView())) else old(PairView())
    {
      if error {
        Stop();
        return true;
      }
      if paired == null {
        return false;
      }
      paired.Start();
      connectedToHost := true;
      return true;
    }
  }
}
