/** Decoding what was encoded gives the message back. */
module TlsRoundTrip {
  import opened Bytes
  import opened Options
  import opened TlsDefinition
  import opened TlsWire
  import opened TlsReading
  import TlsEncoder

  /** `data` stands at `from`. */
  predicate Holds(memory: seq<byte>, from: nat, data: seq<byte>) {
    from + |data| <= |memory| && memory[from..from + |data|] == data
  }

  lemma HoldsParts(memory: seq<byte>, from: nat, a: seq<byte>, b: seq<byte>)
    requires Holds(memory, from, a + b)
    ensures Holds(memory, from, a) && Holds(memory, from + |a|, b)
  {
    SubSlice(memory, from, |a + b|, |a|);
    assert (a + b)[..|a|] == a && (a + b)[|a|..] == b;
  }

  /** A number that stands at `from` is read there. */
  lemma NumberRead(memory: seq<byte>, from: nat, n: uint16)
    requires Holds(memory, from, U16Bytes(n))
    ensures NumberAt(memory, from) == n
  {
  }

  lemma ByteRead(memory: seq<byte>, from: nat, b: byte)
    requires Holds(memory, from, [b])
    ensures At(memory, from) == b
  {
  }

  lemma LengthRead(memory: seq<byte>, width: nat, from: nat, n: nat)
    requires (width == 1 || width == 2) && n <= WidthLimit(width)
    requires Holds(memory, from, LengthBytes(width, n))
    ensures LengthAt(memory, width, from) == n
  {
  }

  lemma {:induction false} NumbersRead(memory: seq<byte>, from: nat, numbers: seq<uint16>)
    requires Holds(memory, from, NumberBytes(numbers))
    ensures NumbersAt(memory, from, |numbers|) == numbers
    decreases |numbers|
  {
    if numbers != [] {
      HoldsParts(memory, from, U16Bytes(numbers[0]), NumberBytes(numbers[1..]));
      NumberRead(memory, from, numbers[0]);
      NumbersRead(memory, from + 2, numbers[1..]);
      NumbersFirst(memory, from, |numbers|);
      assert [numbers[0]] + numbers[1..] == numbers;
    }
  }

  lemma NumbersFirst(memory: seq<byte>, from: nat, count: nat)
    requires count > 0
    ensures NumbersAt(memory, from, count) == [NumberAt(memory, from)] + NumbersAt(memory, from + 2, count - 1)
  {
  }

  lemma ByteVectorRead(memory: seq<byte>, size: nat, from: nat, data: seq<byte>)
    requires |data| <= 0xFF && Holds(memory, from, VectorBytes(1, data))
    requires from + 1 + |data| <= size <= |memory|
    ensures ByteVectorAt(memory, size, from) == Good(data, from + |VectorBytes(1, data)|)
  {
    HoldsParts(memory, from, LengthBytes(1, |data|), data);
    LengthRead(memory, 1, from, |data|);
  }

  lemma NumberVectorParts(memory: seq<byte>, size: nat, width: nat, from: nat, numbers: seq<uint16>)
    requires from + width + 2 * |numbers| <= size <= |memory|
    requires LengthAt(memory, width, from) == 2 * |numbers|
    requires NumbersAt(memory, from + width, |numbers|) == numbers
    ensures NumberVectorAt(memory, size, width, from) == Good(numbers, from + width + 2 * |numbers|)
  {
  }

  lemma NumberVectorRead(memory: seq<byte>, size: nat, width: nat, from: nat, numbers: seq<uint16>)
    requires width == 1 || width == 2
    requires 2 * |numbers| <= WidthLimit(width) && Holds(memory, from, VectorBytes(width, NumberBytes(numbers)))
    requires from + width + 2 * |numbers| <= size <= |memory|
    ensures NumberVectorAt(memory, size, width, from)
         == Good(numbers, from + |VectorBytes(width, NumberBytes(numbers))|)
  {
    hide Holds, NumberBytes, LengthBytes, LengthAt, NumbersAt;
    var length, content := LengthBytes(width, 2 * |numbers|), NumberBytes(numbers);
    HoldsParts(memory, from, length, content);
    LengthRead(memory, width, from, 2 * |numbers|);
    NumbersRead(memory, from + width, numbers);
    NumberVectorParts(memory, size, width, from, numbers);
  }

  lemma ServerNameRead(memory: seq<byte>, body: nat, hostName: seq<byte>)
    requires 0 < |hostName| <= 0xFFFF - 3 && Holds(memory, body, ServerNameBytes(hostName))
    ensures ServerNameAt(memory, body, |ServerNameBytes(hostName)|)
         == Taken(Extension(SERVER_NAME, ServerName(hostName)), false, body + |ServerNameBytes(hostName)|)
  {
    var name := [HOST_NAME] + LengthBytes(2, |hostName|);
    HoldsParts(memory, body, LengthBytes(2, 3 + |hostName|), name + hostName);
    HoldsParts(memory, body + 2, name, hostName);
    HoldsParts(memory, body + 2, [HOST_NAME], LengthBytes(2, |hostName|));
    ByteRead(memory, body + 2, HOST_NAME);
    LengthRead(memory, 2, body + 3, |hostName|);
  }

  /** The body of an extension is read as its type says, up to its end. */
  lemma ExtensionRead(memory: seq<byte>, size: nat, offset: nat, end: nat, e: Extension)
    requires WellTypedExtension(e) && EncodableExtension(e) && |ExtensionBody(e)| <= 0xFFFF
    requires Holds(memory, offset, ExtensionBytes(e))
    requires offset + |ExtensionBytes(e)| <= end <= size <= |memory|
    ensures ExtensionAt(memory, size, offset, end) == Taken(e, false, offset + |ExtensionBytes(e)|)
  {
    var body := ExtensionBody(e);
    HoldsParts(memory, offset, U16Bytes(e.kind) + LengthBytes(2, |body|), body);
    HoldsParts(memory, offset, U16Bytes(e.kind), LengthBytes(2, |body|));
    NumberRead(memory, offset, e.kind);
    LengthRead(memory, 2, offset + 2, |body|);
    if e.kind == SERVER_NAME {
      ServerNameRead(memory, offset + 4, e.content.hostName);
    } else if e.kind == SUPPORTED_GROUPS {
      NumberVectorRead(memory, size, 2, offset + 4, e.content.numbers);
    } else if e.kind == SUPPORTED_VERSIONS {
      if |e.content.numbers| == 1 {
        NumberRead(memory, offset + 4, e.content.numbers[0]);
      } else {
        NumberVectorRead(memory, size, 1, offset + 4, e.content.numbers);
      }
    }
  }

  predicate EncodableExtensions(es: seq<Extension>) {
    && AllWellTyped(es)
    && AllEncodable(es)
    && ExtensionListSize(es) <= 0xFFFF
  }

  lemma {:induction false} ExtensionListRead(memory: seq<byte>, size: nat, offset: nat, end: nat, es: seq<Extension>)
    requires EncodableExtensions(es)
    requires Holds(memory, offset, ExtensionListBytes(es))
    requires offset + |ExtensionListBytes(es)| == end <= size <= |memory|
    ensures ExtensionListAt(memory, size, offset, end) == Some(es)
    decreases |es|
  {
    hide ExtensionAt, ExtensionBody, ExtensionSize, Holds;
    ExtensionListSizes(es);
    if es != [] {
      var e, rest := es[0], es[1..];
      HoldsParts(memory, offset, ExtensionBytes(e), ExtensionListBytes(rest));
      ExtensionRead(memory, size, offset, end, e);
      ExtensionListRead(memory, size, offset + |ExtensionBytes(e)|, end, rest);
      assert [e] + rest == es;
    }
  }

  lemma ExtensionsRead(memory: seq<byte>, size: nat, from: nat, es: seq<Extension>)
    requires EncodableExtensions(es)
    requires Holds(memory, from, ExtensionsBytes(es))
    requires from + |ExtensionsBytes(es)| <= size <= |memory|
    ensures ExtensionsAt(memory, size, from) == Good(es, from + |ExtensionsBytes(es)|)
  {
    hide ExtensionListAt, ExtensionListBytes, ExtensionListSize, NumberAt, LengthBytes, Holds;
    var list := ExtensionListBytes(es);
    ExtensionListSizes(es);
    HoldsParts(memory, from, LengthBytes(2, |list|), list);
    assert NumberAt(memory, from) == |list| by {
      LengthRead(memory, 2, from, |list|);
    }
    ExtensionListRead(memory, size, from + 2, from + 2 + |list|, es);
    ExtensionsParts(memory, size, from, es, |list|);
  }

  lemma ExtensionsParts(memory: seq<byte>, size: nat, from: nat, es: seq<Extension>, length: nat)
    requires from + 2 + length <= size <= |memory| && NumberAt(memory, from) == length
    requires ExtensionListAt(memory, size, from + 2, from + 2 + length) == Some(es)
    ensures ExtensionsAt(memory, size, from) == Good(es, from + 2 + length)
  {
  }

  lemma HeaderRead(memory: seq<byte>, from: nat, version: uint16, random: Random)
    requires Holds(memory, from, U16Bytes(version) + random)
    ensures NumberAt(memory, from) == version && memory[from + 2..from + 34] == random
  {
    HoldsParts(memory, from, U16Bytes(version), random);
    NumberRead(memory, from, version);
  }

  /** Parts one after the other stand one after the other. */
  lemma FiveParts(memory: seq<byte>, from: nat, a: seq<byte>, b: seq<byte>, c: seq<byte>, d: seq<byte>, e: seq<byte>)
    requires Holds(memory, from, a + b + c + d + e)
    ensures Holds(memory, from, a)
    ensures Holds(memory, from + |a|, b)
    ensures Holds(memory, from + |a| + |b|, c)
    ensures Holds(memory, from + |a| + |b| + |c|, d)
    ensures Holds(memory, from + |a| + |b| + |c| + |d|, e)
  {
    hide Holds;
    HoldsParts(memory, from, a + b + c + d, e);
    HoldsParts(memory, from, a + b + c, d);
    HoldsParts(memory, from, a + b, c);
    HoldsParts(memory, from, a, b);
  }

  lemma ClientHelloRead(memory: seq<byte>, size: nat, from: nat, m: ClientHello)
    requires EncodableExtensions(m.extensions)
    requires |m.sessionId| <= 0xFF && |m.compressionMethods| <= 0xFF && 2 * |m.cipherSuites| <= 0xFFFF
    requires Holds(memory, from, ClientHelloBytes(m))
    requires from + |ClientHelloBytes(m)| <= size <= |memory|
    ensures ClientHelloAt(memory, size, from) == Good(m, from + |ClientHelloBytes(m)|)
  {
    hide ByteVectorAt, NumberVectorAt, ExtensionsAt, NumberAt, Holds, ExtensionsBytes, VectorBytes, NumberBytes;
    hide U16Bytes, AllWellTyped, AllEncodable;
    var a := VectorBytes(1, m.sessionId);
    var b := VectorBytes(2, NumberBytes(m.cipherSuites));
    var c := VectorBytes(1, m.compressionMethods);
    var d := ExtensionsBytes(m.extensions);
    FiveParts(memory, from, U16Bytes(m.legacyVersion) + m.random, a, b, c, d);
    HeaderRead(memory, from, m.legacyVersion, m.random);
    ByteVectorRead(memory, size, from + 34, m.sessionId);
    NumberVectorRead(memory, size, 2, from + 34 + |a|, m.cipherSuites);
    ByteVectorRead(memory, size, from + 34 + |a| + |b|, m.compressionMethods);
    ExtensionsRead(memory, size, from + 34 + |a| + |b| + |c|, m.extensions);
  }

  /** The decoder derives the kind of retry from the random value. */
  function Derived(m: ServerHello): ServerHello {
    m.(retryType := RetryTypeOf(m.random))
  }

  lemma ServerHelloRead(memory: seq<byte>, size: nat, from: nat, m: ServerHello)
    requires EncodableExtensions(m.extensions) && |m.sessionIdEcho| <= 0xFF
    requires Holds(memory, from, ServerHelloBytes(m))
    requires from + |ServerHelloBytes(m)| <= size <= |memory|
    ensures ServerHelloAt(memory, size, from) == Good(Derived(m), from + |ServerHelloBytes(m)|)
  {
    hide ByteVectorAt, ExtensionsAt, NumberAt, Holds, ExtensionsBytes, RetryTypeOf, At;
    var a := VectorBytes(1, m.sessionIdEcho);
    var b := U16Bytes(m.cipherSuite);
    var c := [m.compressionMethod];
    var d := ExtensionsBytes(m.extensions);
    FiveParts(memory, from, U16Bytes(m.legacyVersion) + m.random, a, b, c, d);
    HeaderRead(memory, from, m.legacyVersion, m.random);
    ByteVectorRead(memory, size, from + 34, m.sessionIdEcho);
    NumberRead(memory, from + 34 + |a|, m.cipherSuite);
    ByteRead(memory, from + 34 + |a| + |b|, m.compressionMethod);
    ExtensionsRead(memory, size, from + 34 + |a| + |b| + |c|, m.extensions);
  }

  function DerivedHandshake(h: HandshakeMessage): HandshakeMessage {
    if h.content.OfServer? then h.(content := OfServer(Derived(h.content.server))) else h
  }

  lemma LengthsFit(h: HandshakeMessage)
    requires WellTyped(h) && Encodable(h)
    ensures |HandshakeBytes(h)| == HandshakeSize(h) <= 0xFFFF
    ensures h.kind == CLIENT_HELLO ==>
              EncodableExtensions(h.content.client.extensions) && 2 * |h.content.client.cipherSuites| <= 0xFFFF
    ensures h.kind == SERVER_HELLO ==> EncodableExtensions(h.content.server.extensions)
  {
    HandshakeSizes(h);
  }

  lemma HandshakeEndRead(memory: seq<byte>, from: nat, length: seq<byte>)
    requires |length| == 3 && Holds(memory, from + 1, length)
    ensures HandshakeEnd(memory, from) == from + 4 + U24(length)
  {
    assert forall i :: 0 <= i < 3 ==> memory[from + 1 + i] == memory[from + 1..from + 4][i] == length[i];
    assert memory[from + 1] == length[0] && memory[from + 2] == length[1] && memory[from + 3] == length[2];
  }

  /** The body of a handshake message stands behind its header. */
  lemma HandshakeHeaderRead(memory: seq<byte>, from: nat, h: HandshakeMessage)
    requires WellTyped(h) && |HandshakeBody(h)| <= 0xFFFF && Holds(memory, from, HandshakeBytes(h))
    ensures At(memory, from) == h.kind && HandshakeEnd(memory, from) == from + 4 + |HandshakeBody(h)|
    ensures Holds(memory, from + 4, HandshakeBody(h))
  {
    hide HandshakeBody, Number24At, U24Bytes, Holds;
    var body := HandshakeBody(h);
    var length := U24Bytes(|body|);
    HoldsParts(memory, from, [h.kind] + length, body);
    HoldsParts(memory, from, [h.kind], length);
    ByteRead(memory, from, h.kind);
    HandshakeEndRead(memory, from, length);
    assert |body| % 0x100_0000 == |body|;
  }

  lemma HandshakeRead(memory: seq<byte>, size: nat, from: nat, h: HandshakeMessage)
    requires WellTyped(h) && Encodable(h)
    requires Holds(memory, from, HandshakeBytes(h))
    requires from + |HandshakeBytes(h)| <= size <= |memory|
    ensures HandshakeEnd(memory, from) == from + |HandshakeBytes(h)|
    ensures HandshakeAt(memory, size, from) == Some(DerivedHandshake(h))
  {
    LengthsFit(h);
    hide ClientHelloAt, ServerHelloAt, ClientHelloBytes, ServerHelloBytes, HandshakeEnd, U24Bytes;
    HandshakeHeaderRead(memory, from, h);
    if h.kind == CLIENT_HELLO {
      ClientHelloRead(memory, size, from + 4, h.content.client);
    } else if h.kind == SERVER_HELLO {
      ServerHelloRead(memory, size, from + 4, h.content.server);
    }
  }

  /**
   * A record encoded from one handshake message decodes, whatever bytes follow it, to that message alone, with
   * the same type and version, and is consumed whole.
   */
  lemma DecodeUndoesEncode(version: uint16, h: HandshakeMessage, more: seq<byte>, before: nat)
    requires WellTyped(h) && Encodable(h)
    ensures var record := RecordBytes(HANDSHAKE, version, HandshakeBytes(h));
            forall size :: |record| <= size <= |record + more| ==>
              MessageAt(record + more, size, before)
              == Good(Message(HANDSHAKE, version, Handshake([DerivedHandshake(h)])), |record|)
  {
    var payload := HandshakeBytes(h);
    var record := RecordBytes(HANDSHAKE, version, payload);
    var memory, end := record + more, |record|;
    LengthsFit(h);
    RecordRead(HANDSHAKE, version, payload, more);
    HandshakeRead(memory, end, 5, h);
    assert HandshakesAt(memory, end, 5) == Prepended([DerivedHandshake(h)], HandshakesAt(memory, end, end));
    assert [DerivedHandshake(h)] + [] == [DerivedHandshake(h)];
  }

  lemma RecordRead(kind: byte, version: uint16, payload: seq<byte>, more: seq<byte>)
    requires |payload| <= 0xFFFF
    ensures var memory := RecordBytes(kind, version, payload) + more;
            && At(memory, 0) == kind && NumberAt(memory, 1) == version && NumberAt(memory, 3) == |payload|
            && Holds(memory, 5, payload)
  {
  }

  /** The message comes back as it was exactly when a ServerHello names the retry its random value announces. */
  lemma SameMessageExactly(h: HandshakeMessage)
    ensures DerivedHandshake(h) == h <==>
            (h.content.OfServer? ==> h.content.server.retryType == RetryTypeOf(h.content.server.random))
  {
  }

  /** A record that is no handshake is encoded without its content, so only an empty one comes back. */
  lemma OtherRecordsComeBackEmpty(kind: byte, version: uint16, h: HandshakeMessage, before: nat)
    requires kind != HANDSHAKE
    ensures var record := RecordBytes(kind, version, TlsEncoder.Payload(kind, h));
            MessageAt(record, |record|, before) == Good(Message(kind, version, OtherRecord([])), |record|)
  {
    var record := RecordBytes(kind, version, []);
    RecordRead(kind, version, [], []);
    assert record + [] == record;
  }

  /**
   * Encoding after decoding may give other bytes: one version in a list is read from seven bytes, and encoded in six,
   * without the list's length.
   */
  lemma EncodeMayNotUndoDecode(memory: seq<byte>, size: nat, offset: nat, end: nat)
    requires offset + 7 <= end <= size <= |memory|
    requires NumberAt(memory, offset) == SUPPORTED_VERSIONS && NumberAt(memory, offset + 2) == 3
    requires At(memory, offset + 4) == 2
    ensures var version := Extension(SUPPORTED_VERSIONS, Numbers([NumberAt(memory, offset + 5)]));
            && ExtensionAt(memory, size, offset, end) == Taken(version, false, offset + 7)
            && |ExtensionBytes(version)| == 6
  {
    hide NumberAt, U16Bytes;
    assert NumbersAt(memory, offset + 5, 1) == [NumberAt(memory, offset + 5)];
  }
}
