/**
 * Where each part of a record stands, by its offset (sections 4, 4.1.2, 4.1.3, 4.2 and 5.1 of RFC 8446, section 3 of
 * RFC 6066).
 */
module TlsLayouts {
  import opened Bytes
  import opened TlsDefinition
  import opened TlsWire
  import opened TlsRoundTrip

  /** The number that stands at `i`, most significant byte first. */
  predicate Number(s: seq<byte>, i: nat, n: nat) {
    i + 2 <= |s| && var high: int, low: int := s[i], s[i + 1]; high * 0x100 + low == n
  }

  predicate Number24(s: seq<byte>, i: nat, n: nat) {
    && i + 3 <= |s|
    && var high: int, middle: int, low: int := s[i], s[i + 1], s[i + 2];
       high * 0x1_0000 + middle * 0x100 + low == n
  }

  predicate Byte(s: seq<byte>, i: nat, n: nat) {
    i < |s| && s[i] == n
  }

  predicate Numbers(s: seq<byte>, i: nat, numbers: seq<uint16>) {
    forall k :: 0 <= k < |numbers| ==> Number(s, i + 2 * k, numbers[k])
  }

  lemma NumberStands(s: seq<byte>, i: nat, n: uint16)
    requires Holds(s, i, U16Bytes(n))
    ensures Number(s, i, n)
  {
    var t := U16Bytes(n);
    assert s[i] == s[i..i + 2][0] == t[0] && s[i + 1] == s[i..i + 2][1] == t[1];
  }

  lemma LengthStands(s: seq<byte>, i: nat, width: nat, n: nat)
    requires (width == 1 || width == 2) && n <= WidthLimit(width) && Holds(s, i, LengthBytes(width, n))
    ensures if width == 1 then Byte(s, i, n) else Number(s, i, n)
  {
    hide U16Bytes;
    if width == 2 {
      TwoByteLength(n);
      NumberStands(s, i, n);
    } else {
      assert s[i] == s[i..i + 1][0];
    }
  }

  lemma {:induction false} NumbersStand(s: seq<byte>, i: nat, numbers: seq<uint16>)
    requires Holds(s, i, NumberBytes(numbers))
    ensures Numbers(s, i, numbers)
    decreases |numbers|
  {
    hide Number, Holds;
    if numbers != [] {
      HoldsParts(s, i, U16Bytes(numbers[0]), NumberBytes(numbers[1..]));
      NumberStands(s, i, numbers[0]);
      NumbersStand(s, i + 2, numbers[1..]);
      forall k | 0 < k < |numbers|
        ensures Number(s, i + 2 * k, numbers[k])
      {
        assert Number(s, i + 2 + 2 * (k - 1), numbers[1..][k - 1]);
      }
    }
  }

  /** A vector of bytes behind its length. */
  lemma VectorStands(s: seq<byte>, i: nat, width: nat, data: seq<byte>)
    requires (width == 1 || width == 2) && |data| <= WidthLimit(width) && Holds(s, i, VectorBytes(width, data))
    ensures if width == 1 then Byte(s, i, |data|) else Number(s, i, |data|)
    ensures Holds(s, i + width, data)
  {
    hide Holds;
    HoldsParts(s, i, LengthBytes(width, |data|), data);
    LengthStands(s, i, width, |data|);
  }

  lemma Whole(s: seq<byte>)
    ensures Holds(s, 0, s)
  {
  }

  /** A record: type, version, length and payload. */
  lemma RecordLayout(kind: byte, version: uint16, payload: seq<byte>)
    requires |payload| <= 0xFFFF
    ensures var s := RecordBytes(kind, version, payload);
            && |s| == 5 + |payload|
            && Byte(s, 0, kind) && Number(s, 1, version) && Number(s, 3, |payload|) && Holds(s, 5, payload)
  {
    hide Holds, U16Bytes, LengthBytes, Number;
    var s, length := RecordBytes(kind, version, payload), LengthBytes(2, |payload|);
    Whole(s);
    HoldsParts(s, 0, [kind] + U16Bytes(version) + length, payload);
    HoldsParts(s, 0, [kind] + U16Bytes(version), length);
    HoldsParts(s, 0, [kind], U16Bytes(version));
    NumberStands(s, 1, version);
    LengthStands(s, 3, 2, |payload|);
  }

  /** A handshake message: type, length in three bytes and body. */
  lemma HandshakeLayout(h: HandshakeMessage)
    requires WellTyped(h) && |HandshakeBody(h)| < 0x100_0000
    ensures var s := HandshakeBytes(h);
            Byte(s, 0, h.kind) && Number24(s, 1, |s| - 4) && Holds(s, 4, HandshakeBody(h))
  {
    hide HandshakeBody, Holds, U24Bytes;
    var s, length := HandshakeBytes(h), U24Bytes(|HandshakeBody(h)|);
    Whole(s);
    HoldsParts(s, 0, [h.kind] + length, HandshakeBody(h));
    assert |HandshakeBody(h)| % 0x100_0000 == |HandshakeBody(h)|;
    assert s[1] == length[0] && s[2] == length[1] && s[3] == length[2];
  }

  lemma VersionAndRandom(s: seq<byte>, version: uint16, random: Random)
    requires Holds(s, 0, U16Bytes(version) + random)
    ensures Number(s, 0, version) && Holds(s, 2, random)
  {
    hide Holds, U16Bytes, Number;
    HoldsParts(s, 0, U16Bytes(version), random);
    NumberStands(s, 0, version);
  }

  /** A ClientHello: version, random, session id, cipher suites, compression methods and extensions. */
  lemma ClientHelloLayout(m: ClientHello)
    requires AllWellTyped(m.extensions) && |ExtensionListBytes(m.extensions)| <= 0xFFFF
    requires |m.sessionId| <= 0xFF && |m.compressionMethods| <= 0xFF && 2 * |m.cipherSuites| <= 0xFFFF
    ensures var s, es := ClientHelloBytes(m), ExtensionListBytes(m.extensions);
            var suites := 35 + |m.sessionId|;
            var methods := suites + 2 + 2 * |m.cipherSuites|;
            var extensions := methods + 1 + |m.compressionMethods|;
            && Number(s, 0, m.legacyVersion)
            && Holds(s, 2, m.random)
            && Byte(s, 34, |m.sessionId|) && Holds(s, 35, m.sessionId)
            && Number(s, suites, 2 * |m.cipherSuites|) && Numbers(s, suites + 2, m.cipherSuites)
            && Byte(s, methods, |m.compressionMethods|) && Holds(s, methods + 1, m.compressionMethods)
            && Number(s, extensions, |es|) && Holds(s, extensions + 2, es)
            && |s| == extensions + 2 + |es|
  {
    hide Holds, U16Bytes, Number, Numbers, VectorBytes, NumberBytes, ExtensionListBytes;
    var s := ClientHelloBytes(m);
    var a := VectorBytes(1, m.sessionId);
    var b := VectorBytes(2, NumberBytes(m.cipherSuites));
    var c := VectorBytes(1, m.compressionMethods);
    var d := VectorBytes(2, ExtensionListBytes(m.extensions));
    Whole(s);
    FiveParts(s, 0, U16Bytes(m.legacyVersion) + m.random, a, b, c, d);
    VersionAndRandom(s, m.legacyVersion, m.random);
    VectorStands(s, 34, 1, m.sessionId);
    VectorStands(s, 34 + |a|, 2, NumberBytes(m.cipherSuites));
    NumbersStand(s, 36 + |a|, m.cipherSuites);
    VectorStands(s, 34 + |a| + |b|, 1, m.compressionMethods);
    VectorStands(s, 34 + |a| + |b| + |c|, 2, ExtensionListBytes(m.extensions));
  }

  /** A ServerHello: version, random, session id, cipher suite, compression method and extensions. */
  lemma ServerHelloLayout(m: ServerHello)
    requires AllWellTyped(m.extensions) && |ExtensionListBytes(m.extensions)| <= 0xFFFF && |m.sessionIdEcho| <= 0xFF
    ensures var s, es := ServerHelloBytes(m), ExtensionListBytes(m.extensions);
            var suite := 35 + |m.sessionIdEcho|;
            && Number(s, 0, m.legacyVersion)
            && Holds(s, 2, m.random)
            && Byte(s, 34, |m.sessionIdEcho|) && Holds(s, 35, m.sessionIdEcho)
            && Number(s, suite, m.cipherSuite)
            && Byte(s, suite + 2, m.compressionMethod)
            && Number(s, suite + 3, |es|) && Holds(s, suite + 5, es)
            && |s| == suite + 5 + |es|
  {
    hide Holds, U16Bytes, Number, VectorBytes, ExtensionListBytes;
    var s := ServerHelloBytes(m);
    var a := VectorBytes(1, m.sessionIdEcho);
    var b, c := U16Bytes(m.cipherSuite), [m.compressionMethod];
    var d := VectorBytes(2, ExtensionListBytes(m.extensions));
    Whole(s);
    FiveParts(s, 0, U16Bytes(m.legacyVersion) + m.random, a, b, c, d);
    VersionAndRandom(s, m.legacyVersion, m.random);
    VectorStands(s, 34, 1, m.sessionIdEcho);
    NumberStands(s, 34 + |a|, m.cipherSuite);
    ByteStands(s, 34 + |a| + |b|, m.compressionMethod);
    VectorStands(s, 34 + |a| + |b| + 1, 2, ExtensionListBytes(m.extensions));
  }

  lemma ByteStands(s: seq<byte>, i: nat, b: byte)
    requires Holds(s, i, [b])
    ensures Byte(s, i, b)
  {
    assert s[i] == s[i..i + 1][0];
  }

  /** An extension: type, length, and a body by its type. */
  lemma ExtensionLayout(e: Extension)
    requires WellTypedExtension(e) && EncodableExtension(e) && |ExtensionBody(e)| <= 0xFFFF
    ensures var s := ExtensionBytes(e);
            && Number(s, 0, e.kind) && Number(s, 2, |s| - 4)
            && (e.content.Opaque? ==> s[4..] == e.content.data)
            && (e.kind == SERVER_NAME ==>
                  var name := e.content.hostName;
                  && Number(s, 4, 3 + |name|) && Byte(s, 6, 0) && Number(s, 7, |name|) && s[9..] == name)
            && (e.kind == SUPPORTED_GROUPS ==>
                  Number(s, 4, 2 * |e.content.numbers|) && Numbers(s, 6, e.content.numbers)
                  && |s| == 6 + 2 * |e.content.numbers|)
            && (e.kind == SUPPORTED_VERSIONS && |e.content.numbers| == 1 ==>
                  Number(s, 4, e.content.numbers[0]) && |s| == 6)
            && (e.kind == SUPPORTED_VERSIONS && |e.content.numbers| != 1 ==>
                  Byte(s, 4, 2 * |e.content.numbers|) && Numbers(s, 5, e.content.numbers)
                  && |s| == 5 + 2 * |e.content.numbers|)
  {
    hide U16Bytes, Number, Numbers, LengthBytes, NumberBytes, Holds;
    var s, body := ExtensionBytes(e), ExtensionBody(e);
    Whole(s);
    HoldsParts(s, 0, U16Bytes(e.kind) + LengthBytes(2, |body|), body);
    HoldsParts(s, 0, U16Bytes(e.kind), LengthBytes(2, |body|));
    NumberStands(s, 0, e.kind);
    LengthStands(s, 2, 2, |body|);
    assert s[4..] == body;
    if e.kind == SERVER_NAME {
      ServerNameLayout(s, e.content.hostName);
    } else if e.kind == SUPPORTED_GROUPS {
      VectorStands(s, 4, 2, NumberBytes(e.content.numbers));
      NumbersStand(s, 6, e.content.numbers);
    } else if e.kind == SUPPORTED_VERSIONS {
      if |e.content.numbers| == 1 {
        NumberStands(s, 4, e.content.numbers[0]);
      } else {
        VectorStands(s, 4, 1, NumberBytes(e.content.numbers));
        NumbersStand(s, 5, e.content.numbers);
      }
    }
  }

  lemma ServerNameLayout(s: seq<byte>, hostName: seq<byte>)
    requires |hostName| <= 0xFFFF - 3 && Holds(s, 4, ServerNameBytes(hostName)) && |s| == 9 + |hostName|
    ensures Number(s, 4, 3 + |hostName|) && Byte(s, 6, 0) && Number(s, 7, |hostName|) && s[9..] == hostName
  {
    hide U16Bytes, Number, LengthBytes;
    var name := [HOST_NAME] + LengthBytes(2, |hostName|);
    HoldsParts(s, 4, LengthBytes(2, 3 + |hostName|), name + hostName);
    HoldsParts(s, 6, name, hostName);
    HoldsParts(s, 6, [HOST_NAME], LengthBytes(2, |hostName|));
    LengthStands(s, 4, 2, 3 + |hostName|);
    ByteStands(s, 6, HOST_NAME);
    LengthStands(s, 7, 2, |hostName|);
    assert s[9..] == s[9..9 + |hostName|];
  }
}
