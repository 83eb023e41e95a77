/** The bytes of a TLS record, as functions of the message tree. */
module TlsWire {
  import opened Bytes
  import opened TlsDefinition

  /** A length field of one or two bytes. */
  function LengthBytes(width: nat, n: nat): (s: seq<byte>)
    ensures |s| == if width == 1 then 1 else 2
  {
    if width == 1 then [n % 0x100] else U16Bytes(n % 0x1_0000)
  }

  lemma TwoByteLength(n: uint16)
    ensures LengthBytes(2, n) == U16Bytes(n)
  {
    hide U16Bytes;
    assert n % 0x1_0000 == n;
  }

  function WidthLimit(width: nat): nat {
    if width == 1 then 0xFF else 0xFFFF
  }

  function NumberBytes(numbers: seq<uint16>): (s: seq<byte>)
    ensures |s| == 2 * |numbers|
  {
    if numbers == [] then [] else U16Bytes(numbers[0]) + NumberBytes(numbers[1..])
  }

  lemma {:induction false} NumberBytesAppend(numbers: seq<uint16>, n: uint16)
    ensures NumberBytes(numbers + [n]) == NumberBytes(numbers) + U16Bytes(n)
  {
    if numbers == [] {
      assert [n][1..] == [];
    } else {
      assert (numbers + [n])[1..] == numbers[1..] + [n];
      NumberBytesAppend(numbers[1..], n);
    }
  }

  /** A vector of bytes, and one of numbers, after its length in bytes. */
  function VectorBytes(width: nat, data: seq<byte>): (s: seq<byte>)
    ensures |s| == (if width == 1 then 1 else 2) + |data|
  {
    LengthBytes(width, |data|) + data
  }

  function ServerNameBytes(hostName: seq<byte>): (s: seq<byte>)
    ensures |s| == 5 + |hostName|
  {
    LengthBytes(2, 3 + |hostName|) + ([HOST_NAME] + LengthBytes(2, |hostName|) + hostName)
  }

  function ExtensionBody(e: Extension): seq<byte>
    requires WellTypedExtension(e)
  {
    if e.kind == SERVER_NAME then ServerNameBytes(e.content.hostName)
    else if e.kind == SUPPORTED_GROUPS then VectorBytes(2, NumberBytes(e.content.numbers))
    else if e.kind == SUPPORTED_VERSIONS then
      if |e.content.numbers| == 1 then U16Bytes(e.content.numbers[0])
      else VectorBytes(1, NumberBytes(e.content.numbers))
    else e.content.data
  }

  function ExtensionBytes(e: Extension): seq<byte>
    requires WellTypedExtension(e)
  {
    U16Bytes(e.kind) + LengthBytes(2, |ExtensionBody(e)|) + ExtensionBody(e)
  }

  function ExtensionListBytes(es: seq<Extension>): seq<byte>
    requires AllWellTyped(es)
  {
    if es == [] then [] else ExtensionBytes(es[0]) + ExtensionListBytes(es[1..])
  }

  function ExtensionsBytes(es: seq<Extension>): seq<byte>
    requires AllWellTyped(es)
  {
    VectorBytes(2, ExtensionListBytes(es))
  }

  lemma {:induction false} ExtensionListAppend(es: seq<Extension>, e: Extension)
    requires AllWellTyped(es + [e])
    ensures AllWellTyped(es)
    ensures ExtensionListBytes(es + [e]) == ExtensionListBytes(es) + ExtensionBytes(e)
  {
    assert forall x :: x in es ==> x in es + [e];
    if es == [] {
      assert ([] + [e])[1..] == [];
      assert ([] + [e])[0] == e;
    } else {
      assert (es + [e])[1..] == es[1..] + [e];
      assert forall x :: x in es[1..] + [e] ==> x in es + [e];
      ExtensionListAppend(es[1..], e);
      Regroup(ExtensionBytes(es[0]), ExtensionListBytes(es[1..]), ExtensionBytes(e));
    }
  }

  function ClientHelloBytes(m: ClientHello): seq<byte>
    requires AllWellTyped(m.extensions)
  {
    U16Bytes(m.legacyVersion) + m.random
    + VectorBytes(1, m.sessionId)
    + VectorBytes(2, NumberBytes(m.cipherSuites))
    + VectorBytes(1, m.compressionMethods)
    + ExtensionsBytes(m.extensions)
  }

  function ServerHelloBytes(m: ServerHello): seq<byte>
    requires AllWellTyped(m.extensions)
  {
    U16Bytes(m.legacyVersion) + m.random
    + VectorBytes(1, m.sessionIdEcho)
    + U16Bytes(m.cipherSuite)
    + [m.compressionMethod]
    + ExtensionsBytes(m.extensions)
  }

  function HandshakeBody(h: HandshakeMessage): seq<byte>
    requires WellTyped(h)
  {
    if h.kind == CLIENT_HELLO then ClientHelloBytes(h.content.client)
    else if h.kind == SERVER_HELLO then ServerHelloBytes(h.content.server)
    else h.content.data
  }

  function HandshakeBytes(h: HandshakeMessage): seq<byte>
    requires WellTyped(h)
  {
    [h.kind] + U24Bytes(|HandshakeBody(h)|) + HandshakeBody(h)
  }

  /** A record around its payload. */
  function RecordBytes(kind: byte, version: uint16, payload: seq<byte>): (s: seq<byte>)
    ensures |s| == 5 + |payload|
  {
    [kind] + U16Bytes(version) + LengthBytes(2, |payload|) + payload
  }

  // ---- when the lengths fit

  /** An extension the encoder takes, if there is room: a host name or version list is not empty. */
  predicate EncodableExtension(e: Extension)
    requires WellTypedExtension(e)
  {
    && (e.kind == SERVER_NAME ==> |e.content.hostName| > 0)
    && (e.kind == SUPPORTED_VERSIONS ==> 1 <= |e.content.numbers| <= 127)
  }

  /** The lengths inside an extension's body fit their fields. */
  predicate BodyFits(e: Extension)
    requires WellTypedExtension(e)
  {
    && (e.kind == SERVER_NAME ==> 3 + |e.content.hostName| <= 0xFFFF)
    && (e.kind == SUPPORTED_GROUPS ==> 2 * |e.content.numbers| <= 0xFFFF)
  }

  predicate AllEncodable(es: seq<Extension>)
    requires AllWellTyped(es)
  {
    forall e :: e in es ==> EncodableExtension(e)
  }

  predicate EncodableClientHello(m: ClientHello)
    requires AllWellTyped(m.extensions)
  {
    && |m.sessionId| <= 0xFF
    && |m.compressionMethods| <= 0xFF
    && AllEncodable(m.extensions)
  }

  predicate EncodableServerHello(m: ServerHello)
    requires AllWellTyped(m.extensions)
  {
    && |m.sessionIdEcho| <= 0xFF
    && AllEncodable(m.extensions)
  }

  /** The lengths of 8 and 16 bits inside a handshake message fit; its own 24-bit length is cut down to fit. */
  predicate PartsFit(h: HandshakeMessage)
    requires WellTyped(h)
  {
    if h.kind == CLIENT_HELLO then
      var m := h.content.client;
      EncodableClientHello(m) && 2 * |m.cipherSuites| <= 0xFFFF && ExtensionListSize(m.extensions) <= 0xFFFF
    else if h.kind == SERVER_HELLO then
      EncodableServerHello(h.content.server) && ExtensionListSize(h.content.server.extensions) <= 0xFFFF
    else true
  }

  /** What a caller can check before encoding: small parts, and a payload of at most 65535 bytes. */
  predicate Encodable(h: HandshakeMessage)
    requires WellTyped(h)
  {
    && (h.kind == CLIENT_HELLO ==> EncodableClientHello(h.content.client))
    && (h.kind == SERVER_HELLO ==> EncodableServerHello(h.content.server))
    && HandshakeSize(h) <= 0xFFFF
  }

  // ---- sizes, counted from the parts

  function ExtensionSize(e: Extension): nat
    requires WellTypedExtension(e)
  {
    4 + if e.kind == SERVER_NAME then 5 + |e.content.hostName|
        else if e.kind == SUPPORTED_GROUPS then 2 + 2 * |e.content.numbers|
        else if e.kind == SUPPORTED_VERSIONS then
          if |e.content.numbers| == 1 then 2 else 1 + 2 * |e.content.numbers|
        else |e.content.data|
  }

  function ExtensionListSize(es: seq<Extension>): nat
    requires AllWellTyped(es)
  {
    if es == [] then 0 else ExtensionSize(es[0]) + ExtensionListSize(es[1..])
  }

  function HandshakeSize(h: HandshakeMessage): nat
    requires WellTyped(h)
  {
    4 + if h.kind == CLIENT_HELLO then
          var m := h.content.client;
          40 + |m.sessionId| + 2 * |m.cipherSuites| + |m.compressionMethods| + ExtensionListSize(m.extensions)
        else if h.kind == SERVER_HELLO then
          var m := h.content.server;
          40 + |m.sessionIdEcho| + ExtensionListSize(m.extensions)
        else |h.content.data|
  }

  lemma {:induction false} ExtensionListSizes(es: seq<Extension>)
    requires AllWellTyped(es)
    ensures |ExtensionListBytes(es)| == ExtensionListSize(es)
    ensures forall e :: e in es ==> |ExtensionBytes(e)| == ExtensionSize(e) <= ExtensionListSize(es)
  {
    if es != [] {
      ExtensionListSizes(es[1..]);
      assert forall e :: e in es ==> e == es[0] || e in es[1..];
    }
  }

  /** The counted sizes are the sizes of the bytes. */
  lemma HandshakeSizes(h: HandshakeMessage)
    requires WellTyped(h)
    ensures |HandshakeBytes(h)| == HandshakeSize(h)
  {
    if h.kind == CLIENT_HELLO {
      ExtensionListSizes(h.content.client.extensions);
    } else if h.kind == SERVER_HELLO {
      ExtensionListSizes(h.content.server.extensions);
    }
  }
}
