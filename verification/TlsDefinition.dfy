/** The message tree of the TLS records that the proxy reads (sections 4 and 5.1 of RFC 8446). */
module TlsDefinition {
  import opened Bytes

  // ContentType
  const CHANGE_CIPHER_SPEC: byte := 20
  const HANDSHAKE: byte := 22

  // handshake::Type
  const CLIENT_HELLO: byte := 1
  const SERVER_HELLO: byte := 2

  // extension::Type
  const SERVER_NAME: uint16 := 0
  const SUPPORTED_GROUPS: uint16 := 10
  const SUPPORTED_VERSIONS: uint16 := 43

  const HOST_NAME: byte := 0

  const TLS_1_0: uint16 := 0x301
  const TLS_1_2: uint16 := 0x303

  datatype ExtensionContent =
    | Opaque(data: seq<byte>)
    | Numbers(numbers: seq<uint16>)
    | ServerName(hostName: seq<byte>)

  datatype Extension = Extension(kind: uint16, content: ExtensionContent)

  type Random = s: seq<byte> | |s| == 32 witness seq(32, _ => 0)

  datatype ClientHello = ClientHello(
    legacyVersion: uint16,
    random: Random,
    sessionId: seq<byte>,
    cipherSuites: seq<uint16>,
    compressionMethods: seq<byte>,
    extensions: seq<Extension>)

  datatype RetryType = NOT_RETRY | FOR_TLS_1_1 | FOR_TLS_1_2 | FOR_TLS_1_3 | FOR_UNKNOWN

  datatype ServerHello = ServerHello(
    legacyVersion: uint16,
    random: Random,
    retryType: RetryType,
    sessionIdEcho: seq<byte>,
    cipherSuite: uint16,
    compressionMethod: byte,
    extensions: seq<Extension>)

  datatype HandshakeContent =
    | OtherHandshake(data: seq<byte>)
    | OfClient(client: ClientHello)
    | OfServer(server: ServerHello)

  datatype HandshakeMessage = HandshakeMessage(kind: byte, content: HandshakeContent)

  datatype MessageContent =
    | OtherRecord(data: seq<byte>)
    | Handshake(messages: seq<HandshakeMessage>)

  datatype Message = Message(kind: byte, recordVersion: uint16, content: MessageContent)

  /** The variant an extension holds is the one its type calls for. */
  predicate WellTypedExtension(e: Extension) {
    if e.kind == SERVER_NAME then e.content.ServerName?
    else if e.kind == SUPPORTED_GROUPS || e.kind == SUPPORTED_VERSIONS then e.content.Numbers?
    else e.content.Opaque?
  }

  predicate AllWellTyped(es: seq<Extension>) {
    forall e :: e in es ==> WellTypedExtension(e)
  }

  predicate WellTyped(h: HandshakeMessage) {
    if h.kind == CLIENT_HELLO then
      h.content.OfClient? && AllWellTyped(h.content.client.extensions)
    else if h.kind == SERVER_HELLO then
      h.content.OfServer? && AllWellTyped(h.content.server.extensions)
    else h.content.OtherHandshake?
  }

  const RETRY_HEAD: seq<byte> :=
    [0xCF, 0x21, 0xAD, 0x74, 0xE5, 0x9A, 0x61, 0x11, 0xBE, 0x1D, 0x8C, 0x02,
     0x1E, 0x65, 0xB8, 0x91, 0xC2, 0xA2, 0x11, 0x16, 0x7A, 0xBB, 0x8C, 0x5E]
  const RETRY_TAIL_1_3: seq<byte> := [0x07, 0x9E, 0x09, 0xE2, 0xC8, 0xA8, 0x33, 0x9C]
  const RETRY_TAIL_1_2: seq<byte> := [0x07, 0x9E, 0x09, 0xE2, 0xC8, 0xA8, 0x33, 0x9C]
  const RETRY_TAIL_1_1: seq<byte> := [0x07, 0x9E, 0x09, 0xE2, 0xC8, 0xA8, 0x33, 0x9C]

  /** The kind of HelloRetryRequest a random value announces. */
  function RetryTypeOf(random: Random): RetryType {
    if random[..24] == RETRY_HEAD then
      if random[24..] == RETRY_TAIL_1_3 then FOR_TLS_1_3
      else if random[24..] == RETRY_TAIL_1_2 then FOR_TLS_1_2
      else if random[24..] == RETRY_TAIL_1_1 then FOR_TLS_1_1
      else FOR_UNKNOWN
    else NOT_RETRY
  }

  /** The three tails are the same, so a retry is never taken for TLS 1.1 or 1.2. */
  lemma RetryTypesSeen(random: Random)
    ensures RetryTypeOf(random) in {NOT_RETRY, FOR_TLS_1_3, FOR_UNKNOWN}
    ensures RetryTypeOf(random) == FOR_TLS_1_3 <==> random == RETRY_HEAD + RETRY_TAIL_1_3
    ensures RetryTypeOf(random) == NOT_RETRY <==> !(RETRY_HEAD <= random)
  {
  }

  /** `FindHostName`: the name in the first server_name extension, or none. */
  method FindHostName(extensions: seq<Extension>) returns (found: bool, hostName: seq<byte>)
    requires AllWellTyped(extensions)
    ensures found <==> exists e :: e in extensions && e.kind == SERVER_NAME
    ensures found ==>
      exists i :: 0 <= i < |extensions| && extensions[i] == Extension(SERVER_NAME, ServerName(hostName))
                  && forall k :: 0 <= k < i ==> extensions[k].kind != SERVER_NAME
    ensures !found ==> hostName == []
    ensures hostName == HostNameOf(extensions)
  {
    for i := 0 to |extensions|
      invariant forall k :: 0 <= k < i ==> extensions[k].kind != SERVER_NAME
      invariant HostNameOf(extensions) == HostNameOf(extensions[i..])
    {
      assert WellTypedExtension(extensions[i]);
      if extensions[i].kind != SERVER_NAME {
        continue;
      }
      return true, extensions[i].content.hostName;
    }
    return false, [];
  }

  /** The host name a list of extensions gives; empty when there is none. */
  function HostNameOf(extensions: seq<Extension>): seq<byte> {
    if extensions == [] then []
    else if extensions[0].kind == SERVER_NAME && extensions[0].content.ServerName? then extensions[0].content.hostName
    else HostNameOf(extensions[1..])
  }
}
