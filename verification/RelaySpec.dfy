/** A pair of connected contexts as values, and what each event makes of it. */
module RelaySpec {
  import opened Bytes
  import opened Options
  import opened TlsDefinition
  import opened TlsReading
  import opened SecurityPolicy

  type Record = seq<byte>
  type HostName = seq<byte>

  datatype Socket = NO_SOCKET | OPEN | CLOSED

  /** The one write a context may have outstanding; `Lost` is a write begun on a closed socket. */
  datatype Writing = Idle | Sending(record: Record) | Lost

  datatype Ctx = Ctx(
    running: bool,
    socket: Socket,
    paired: bool,
    connectedToHost: bool,
    clientEncrypted: bool,
    serverEncrypted: bool,
    hostName: HostName,
    queue: seq<Record>,
    writing: Writing)

  /** A client context and the server context it is paired with (`FRESH` while there is none). */
  datatype Pair = Pair(client: Ctx, server: Ctx)

  const FRESH := Ctx(false, NO_SOCKET, false, false, false, false, [], [], Idle)

  /** A client context after `Start`. */
  const ACCEPTED := FRESH.(running := true, socket := OPEN)

  function DoWrite(c: Ctx): Ctx {
    if c.writing != Idle then c
    else if c.queue == [] then c
    else if c.socket == NO_SOCKET then c
    else c.(queue := c.queue[1..], writing := if c.socket == OPEN then Sending(c.queue[0]) else Lost)
  }

  function Enqueued(c: Ctx, record: Record): Ctx {
    DoWrite(c.(queue := c.queue + [record]))
  }

  /** A record of the client goes to the server context, which takes it only once it is paired back. */
  function ToServer(p: Pair, record: Record): Pair {
    if p.server.paired then p.(server := Enqueued(p.server, record)) else p
  }

  function ToClient(p: Pair, record: Record): Pair {
    if p.client.paired then p.(client := Enqueued(p.client, record)) else p
  }

  function Closed(c: Ctx): Ctx {
    c.(running := false, paired := false, socket := if c.socket == NO_SOCKET then NO_SOCKET else CLOSED)
  }

  /** After `Stop` the client context stands alone. */
  function Stopped(p: Pair): Pair {
    Pair(Closed(p.client), FRESH)
  }

  function FirstClientHello(hs: seq<HandshakeMessage>): Option<ClientHello> {
    if hs == [] then None
    else if hs[0].kind == CLIENT_HELLO && hs[0].content.OfClient? then Some(hs[0].content.client)
    else FirstClientHello(hs[1..])
  }

  function FirstServerHello(hs: seq<HandshakeMessage>): Option<ServerHello> {
    if hs == [] then None
    else if hs[0].kind == SERVER_HELLO && hs[0].content.OfServer? then Some(hs[0].content.server)
    else FirstServerHello(hs[1..])
  }

  function Read(record: Record): Decoded<Message> {
    MessageAt(record, |record|, 0)
  }

  /** What a record of the client does: the pair, the host whose certificate is to be checked, and whether it stops. */
  datatype Reaction = Reaction(pair: Pair, ask: Option<HostName>, stops: bool)

  /** `HandleUserMessage`, up to the stop it may end in. */
  function TakeClientRecord(p: Pair, record: Record): Reaction {
    if record == [] then Reaction(p, None, false)
    else
      var p := if p.client.paired then p else Pair(p.client.(paired := true), FRESH);
      if p.client.clientEncrypted then Reaction(ToServer(p, record), None, false)
      else
        match Read(record)
        case Bad => Reaction(p, None, true)
        case Good(m, _) =>
          if m.content.Handshake? then
            if m.recordVersion < TLS_1_0 then Reaction(p, None, true)
            else
              match FirstClientHello(m.content.messages)
              case None => Reaction(ToServer(p, record), None, false)
              case Some(hello) => TakeClientHello(p, record, hello)
          else if m.kind == CHANGE_CIPHER_SPEC then
            Reaction(ToServer(p.(client := p.client.(clientEncrypted := true)), record), None, false)
          else Reaction(ToServer(p, record), None, false)
  }

  /** The hello is queued before its host is looked at, so that a write may be begun and then stopped. */
  function TakeClientHello(p: Pair, record: Record, hello: ClientHello): Reaction {
    var hostName := HostNameOf(hello.extensions);
    var taken := ToServer(p.(server := p.server.(paired := true)), record);
    if !OffersAllowedSuite(hello.cipherSuites) then Reaction(p, None, true)
    else if p.client.connectedToHost then Reaction(taken, None, hostName != p.client.hostName)
    else if hostName == [] then Reaction(taken, None, true)
    else Reaction(taken.(client := taken.client.(hostName := hostName)), Some(hostName), false)
  }

  /** The pair afterwards, and the host whose certificate is to be checked. */
  function Settled(r: Reaction): (Pair, Option<HostName>) {
    (if r.stops then Stopped(r.pair) else r.pair, r.ask)
  }

  function OnClientRecord(p: Pair, record: Record): (Pair, Option<HostName>) {
    Settled(TakeClientRecord(p, record))
  }

  /** A ServerHello that may pass: an allowed suite, and no retry but the one for TLS 1.3. */
  predicate AllowedServerHello(hello: ServerHello) {
    && hello.retryType != FOR_TLS_1_1 && hello.retryType != FOR_UNKNOWN
    && hello.cipherSuite in ALLOWED_CIPHER_SUITES
  }

  predicate IsChangeCipherSpec(record: Record) {
    Read(record).Good? && Read(record).value.kind == CHANGE_CIPHER_SPEC
  }

  /** A record the server may send before its change_cipher_spec. */
  predicate Passes(record: Record) {
    && Read(record).Good?
    && (Read(record).value.content.Handshake? ==>
          && Read(record).value.recordVersion >= TLS_1_0
          && var hello := FirstServerHello(Read(record).value.content.messages);
             hello.Some? ==> AllowedServerHello(hello.value))
  }

  /** The server context lets the record on; any other stops it. */
  predicate Forwards(encrypted: bool, record: Record) {
    record != [] && (encrypted || Passes(record))
  }

  /** Of the records shown in one turn the server context lets one on after it has lost its link. */
  predicate MeetsNoLink(linked: bool, encrypted: bool, records: seq<Record>)
    decreases |records|
  {
    if records == [] then false
    else if Forwards(encrypted, records[0]) then
      !linked || MeetsNoLink(linked, encrypted || IsChangeCipherSpec(records[0]), records[1..])
    else MeetsNoLink(false, encrypted, records[1..])
  }

  /** `HandleServerMessage`. */
  function OnServerRecord(p: Pair, record: Record): Pair {
    if record == [] then Stopped(p)
    else if p.server.serverEncrypted then ToClient(p, record)
    else
      match Read(record)
      case Bad => Stopped(p)
      case Good(m, _) =>
        if m.content.Handshake? then
          if m.recordVersion < TLS_1_0 then Stopped(p)
          else
            match FirstServerHello(m.content.messages)
            case None => ToClient(p, record)
            case Some(hello) => if AllowedServerHello(hello) then ToClient(p, record) else Stopped(p)
        else if m.kind == CHANGE_CIPHER_SPEC then
          ToClient(p.(server := p.server.(serverEncrypted := true)), record)
        else ToClient(p, record)
  }

  /** A connection to the host: the server context starts on it. */
  function OnConnected(p: Pair): Pair {
    Pair(p.client.(connectedToHost := true), DoWrite(p.server.(running := true, socket := OPEN)))
  }

  function WriteDone(c: Ctx): Ctx {
    DoWrite(c.(writing := Idle))
  }
}
