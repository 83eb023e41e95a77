/** Where the decoder's readings end, by the length fields alone: an extension, its list, a hello. */
module TlsFrames {
  import opened Bytes
  import opened Options
  import opened TlsDefinition
  import opened TlsWire
  import opened TlsReading
  import opened TlsRoundTrip
  import opened TlsLocality

  function ExtensionKind(memory: seq<byte>, offset: nat): uint16 {
    NumberAt(memory, offset)
  }

  function ExtensionLength(memory: seq<byte>, offset: nat): uint16 {
    NumberAt(memory, offset + 2)
  }

  /** Where the extension at `offset` says it ends. */
  function ExtensionStop(memory: seq<byte>, offset: nat): nat {
    offset + 4 + ExtensionLength(memory, offset)
  }

  /** No name, or a list that says it is shorter or longer than its extension. */
  predicate EndsEarly(memory: seq<byte>, offset: nat) {
    var kind, length, body := ExtensionKind(memory, offset), ExtensionLength(memory, offset), offset + 4;
    if kind == SERVER_NAME then length == 0
    else if kind == SUPPORTED_GROUPS then 2 + NumberAt(memory, body) != length
    else kind == SUPPORTED_VERSIONS && length > 2 && 1 + At(memory, body) != length
  }

  /** An extension that is taken goes to its own end, and is the last exactly if it ends the list early. */
  lemma EarlyExactly(memory: seq<byte>, size: nat, offset: nat, end: nat)
    requires offset < end <= size <= |memory| && ExtensionAt(memory, size, offset, end).Taken?
    ensures var piece := ExtensionAt(memory, size, offset, end);
            && piece.next == ExtensionStop(memory, offset)
            && piece.extension.kind == ExtensionKind(memory, offset)
            && (piece.last <==> EndsEarly(memory, offset))
  {
    hide NumberAt, At, NumbersAt;
  }

  // ---- an extension list

  /** Where each extension of a block would start if none ended it early. */
  function ExtensionStarts(memory: seq<byte>, offset: nat, end: nat): (starts: seq<nat>)
    ensures forall start :: start in starts ==> start < end
    decreases end - offset
  {
    if offset >= end then [] else [offset] + ExtensionStarts(memory, ExtensionStop(memory, offset), end)
  }

  /** Where the reading of a list stops. */
  function ListStop(memory: seq<byte>, offset: nat, end: nat): nat
    decreases end - offset
  {
    if offset >= end then offset
    else
      var stop := ExtensionStop(memory, offset);
      if EndsEarly(memory, offset) then stop else ListStop(memory, stop, end)
  }

  /** An early end with bytes of the block after it. */
  predicate CutsShort(memory: seq<byte>, start: nat, end: nat) {
    EndsEarly(memory, start) && ExtensionStop(memory, start) < end
  }

  /** Each extension starts where the one before says it ends, from `offset` to `end`. */
  predicate Tiles(memory: seq<byte>, starts: seq<nat>, es: seq<Extension>, offset: nat, end: nat) {
    if starts == [] || es == [] then starts == [] && es == [] && offset == end
    else
      && starts[0] == offset && es[0].kind == ExtensionKind(memory, offset)
      && Tiles(memory, starts[1..], es[1..], ExtensionStop(memory, offset), end)
  }

  /**
   * What is decoded of a list are its extensions from the first on, in frames without gap or overlap up to where
   * the reading stops; that is the end of the block, and nothing is lost, exactly if no extension that ends the
   * list early is followed by anything.
   */
  lemma {:induction false} ListFilledExactly(memory: seq<byte>, size: nat, offset: nat, end: nat)
    requires offset <= end <= size <= |memory| && ExtensionListAt(memory, size, offset, end).Some?
    ensures ListStop(memory, offset, end) <= end
    ensures var es := ExtensionListAt(memory, size, offset, end).value;
            var starts := ExtensionStarts(memory, offset, end);
            && |es| <= |starts| && Tiles(memory, starts[..|es|], es, offset, ListStop(memory, offset, end))
            && (ListStop(memory, offset, end) == end <==>
                 forall start :: start in starts ==> !CutsShort(memory, start, end))
            && (ListStop(memory, offset, end) == end <==> |es| == |starts|)
    decreases end - offset
  {
    hide ExtensionAt, ExtensionKind, ExtensionLength, EndsEarly;
    if offset < end {
      EarlyExactly(memory, size, offset, end);
      var piece := ExtensionAt(memory, size, offset, end);
      var stop := ExtensionStop(memory, offset);
      var es, starts := ExtensionListAt(memory, size, offset, end).value, ExtensionStarts(memory, offset, end);
      var rest := ExtensionStarts(memory, stop, end);
      assert starts == [offset] + rest && offset in starts;
      if piece.last {
        assert starts[..1] == [offset];
        assert stop == end ==> rest == [];
        assert stop < end ==> CutsShort(memory, offset, end);
      } else {
        ListFilledExactly(memory, size, stop, end);
        var tail := ExtensionListAt(memory, size, stop, end).value;
        assert es == [piece.extension] + tail;
        assert starts[..|es|] == [offset] + rest[..|tail|];
        assert es[1..] == tail && starts[..|es|][1..] == rest[..|tail|];
        assert !CutsShort(memory, offset, end);
      }
    }
  }

  /** After an empty server_name nothing of the block is looked at, whatever it is. */
  lemma EmptyNameEndsList(memory: seq<byte>, size: nat, offset: nat, end: nat)
    requires offset + 4 <= end <= size <= |memory|
    requires ExtensionKind(memory, offset) == SERVER_NAME && ExtensionLength(memory, offset) == 0
    ensures ExtensionListAt(memory, size, offset, end) == Some([NAMELESS])
    ensures ListStop(memory, offset, end) == offset + 4
  {
  }

  // ---- a hello

  /** Where the extensions of the ClientHello at `from` begin. */
  function ClientBlock(memory: seq<byte>, from: nat): nat {
    var suites := from + 35 + At(memory, from + 34);
    var methods := suites + 2 + NumberAt(memory, suites);
    methods + 1 + At(memory, methods)
  }

  function ServerBlock(memory: seq<byte>, from: nat): nat {
    from + 38 + At(memory, from + 34)
  }

  /** Where the hello at `from` ends, by the lengths of its parts. */
  function ClientHelloEnd(memory: seq<byte>, from: nat): nat {
    ClientBlock(memory, from) + 2 + NumberAt(memory, ClientBlock(memory, from))
  }

  function ServerHelloEnd(memory: seq<byte>, from: nat): nat {
    ServerBlock(memory, from) + 2 + NumberAt(memory, ServerBlock(memory, from))
  }

  lemma ClientHelloEnds(memory: seq<byte>, size: nat, from: nat)
    requires size <= |memory| && ClientHelloAt(memory, size, from).Good?
    ensures ClientHelloAt(memory, size, from).end == ClientHelloEnd(memory, from) <= size
    ensures var m := ClientHelloAt(memory, size, from).value;
            ClientBlock(memory, from) == from + 38 + |m.sessionId| + 2 * |m.cipherSuites| + |m.compressionMethods|
    ensures ExtensionsAt(memory, size, ClientBlock(memory, from))
         == Good(ClientHelloAt(memory, size, from).value.extensions, ClientHelloEnd(memory, from))
  {
    hide NumberAt, At, ExtensionListAt, NumbersAt;
  }

  lemma ServerHelloEnds(memory: seq<byte>, size: nat, from: nat)
    requires size <= |memory| && ServerHelloAt(memory, size, from).Good?
    ensures ServerHelloAt(memory, size, from).end == ServerHelloEnd(memory, from) <= size
    ensures ServerBlock(memory, from) == from + 38 + |ServerHelloAt(memory, size, from).value.sessionIdEcho|
    ensures ExtensionsAt(memory, size, ServerBlock(memory, from))
         == Good(ServerHelloAt(memory, size, from).value.extensions, ServerHelloEnd(memory, from))
  {
    hide NumberAt, At, ExtensionListAt, RetryTypeOf;
  }

  /** The length a handshake message gives itself. */
  function FrameLength(memory: seq<byte>, from: nat): uint24 {
    Number24At(memory, from + 1)
  }

  /** The lengths of the parts of the ClientHello in the message at `from`, with their fields, added up. */
  function ClientPartsLength(memory: seq<byte>, from: nat): nat {
    var session := At(memory, from + 38);
    var suites := NumberAt(memory, from + 39 + session);
    var methods := At(memory, from + 41 + session + suites);
    40 + session + suites + methods + NumberAt(memory, from + 42 + session + suites + methods)
  }

  function ServerPartsLength(memory: seq<byte>, from: nat): nat {
    var session := At(memory, from + 38);
    40 + session + NumberAt(memory, from + 42 + session)
  }

  /** Where the reading of the message at `from` ends. */
  function ReadEnd(memory: seq<byte>, from: nat): nat {
    if At(memory, from) == CLIENT_HELLO then ClientHelloEnd(memory, from + 4)
    else if At(memory, from) == SERVER_HELLO then ServerHelloEnd(memory, from + 4)
    else HandshakeEnd(memory, from)
  }

  /** A hello is decoded as its parts say; its own length counts only for where the next message begins. */
  lemma HelloFilledExactly(memory: seq<byte>, size: nat, from: nat)
    requires HandshakeEnd(memory, from) <= size <= |memory| && HandshakeAt(memory, size, from).Some?
    ensures var h := HandshakeAt(memory, size, from).value;
            && WellTyped(h)
            && (h.content.OfClient? ==> ClientHelloAt(memory, size, from + 4).end == ReadEnd(memory, from))
            && (h.content.OfServer? ==> ServerHelloAt(memory, size, from + 4).end == ReadEnd(memory, from))
            && (h.content.OtherHandshake? ==> ReadEnd(memory, from) == HandshakeEnd(memory, from))
            && (h.content.OfClient? ==> (ReadEnd(memory, from) == HandshakeEnd(memory, from) <==>
                                         FrameLength(memory, from) == ClientPartsLength(memory, from)))
            && (h.content.OfServer? ==> (ReadEnd(memory, from) == HandshakeEnd(memory, from) <==>
                                         FrameLength(memory, from) == ServerPartsLength(memory, from)))
  {
    hide NumberAt, At, ExtensionsAt, NumberVectorAt, ByteVectorAt, Number24At;
    HandshakeWellTyped(memory, size, from);
    var kind := At(memory, from);
    if kind == CLIENT_HELLO {
      ClientHelloEnds(memory, size, from + 4);
    } else if kind == SERVER_HELLO {
      ServerHelloEnds(memory, size, from + 4);
    }
  }

  /** The payload of a record: a hello under any length, and more bytes. */
  function FramedAs(h: HandshakeMessage, n: nat, more: seq<byte>): (payload: seq<byte>)
    requires WellTyped(h)
    ensures |payload| == 4 + |HandshakeBody(h)| + |more|
  {
    [h.kind] + U24Bytes(n) + HandshakeBody(h) + more
  }

  /** Whatever length a hello gives itself, it is decoded the same; the next message begins where that length says. */
  lemma AnyFrame(version: uint16, h: HandshakeMessage, n: nat, more: seq<byte>)
    requires h.kind in {CLIENT_HELLO, SERVER_HELLO} && WellTyped(h) && Encodable(h)
    requires 4 + n <= |FramedAs(h, n, more)| <= 0xFFFF
    ensures var record := RecordBytes(HANDSHAKE, version, FramedAs(h, n, more));
            HandshakesAt(record, |record|, 5)
            == Prepended([DerivedHandshake(h)], HandshakesAt(record, |record|, 9 + n))
  {
    hide ClientHelloAt, ServerHelloAt, Holds, Number24At, NumberAt, RecordBytes, ClientHelloBytes, ServerHelloBytes;
    var payload := FramedAs(h, n, more);
    var record, body := RecordBytes(HANDSHAKE, version, payload), HandshakeBody(h);
    FramedParts(version, h, n, more);
    LengthsFit(h);
    if h.kind == CLIENT_HELLO {
      ClientHelloRead(record, |record|, 9, h.content.client);
    } else {
      ServerHelloRead(record, |record|, 9, h.content.server);
    }
  }

  lemma FramedParts(version: uint16, h: HandshakeMessage, n: nat, more: seq<byte>)
    requires WellTyped(h) && 4 + n <= |FramedAs(h, n, more)| <= 0xFFFF
    ensures var record := RecordBytes(HANDSHAKE, version, FramedAs(h, n, more));
            && |record| == 9 + |HandshakeBody(h)| + |more|
            && At(record, 5) == h.kind && HandshakeEnd(record, 5) == 9 + n
            && Holds(record, 9, HandshakeBody(h)) && Holds(record, 9 + |HandshakeBody(h)|, more)
  {
    hide HandshakeBody, Number24At, NumberAt, U24Bytes, RecordBytes, Holds;
    var payload := FramedAs(h, n, more);
    var record, body, length := RecordBytes(HANDSHAKE, version, payload), HandshakeBody(h), U24Bytes(n);
    RecordRead(HANDSHAKE, version, payload, []);
    assert record + [] == record;
    HoldsParts(record, 5, [h.kind] + length + body, more);
    HoldsParts(record, 5, [h.kind] + length, body);
    HoldsParts(record, 5, [h.kind], length);
    ByteRead(record, 5, h.kind);
    HandshakeEndRead(record, 5, length);
    assert n % 0x100_0000 == n;
  }

  lemma PayloadRead(version: uint16, payload: seq<byte>, hs: seq<HandshakeMessage>, before: nat)
    requires 0 < |payload| <= 0xFFFF
    requires var record := RecordBytes(HANDSHAKE, version, payload); HandshakesAt(record, |record|, 5) == Some(hs)
    ensures var record := RecordBytes(HANDSHAKE, version, payload);
            MessageAt(record, |record|, before) == Good(Message(HANDSHAKE, version, Handshake(hs)), |record|)
  {
    hide NumberAt, HandshakesAt, RecordBytes, Holds;
    var record := RecordBytes(HANDSHAKE, version, payload);
    assert record + [] == record;
    RecordRead(HANDSHAKE, version, payload, []);
  }

  /** Bytes after a hello, inside its own length, are not looked at. */
  lemma LongFrame(version: uint16, h: HandshakeMessage, more: seq<byte>, before: nat)
    requires h.kind in {CLIENT_HELLO, SERVER_HELLO} && WellTyped(h) && Encodable(h)
    requires |FramedAs(h, 0, more)| <= 0xFFFF
    ensures var n := |HandshakeBody(h) + more|;
            var record := RecordBytes(HANDSHAKE, version, FramedAs(h, n, more));
            MessageAt(record, |record|, before)
            == Good(Message(HANDSHAKE, version, Handshake([DerivedHandshake(h)])), |record|)
  {
    hide HandshakeBody, NumberAt, HandshakeAt, RecordBytes;
    var n := |HandshakeBody(h) + more|;
    var payload := FramedAs(h, n, more);
    var record := RecordBytes(HANDSHAKE, version, payload);
    assert n == |HandshakeBody(h)| + |more|;
    AnyFrame(version, h, n, more);
    FramedParts(version, h, n, more);
    assert [DerivedHandshake(h)] + [] == [DerivedHandshake(h)];
    PayloadRead(version, payload, [DerivedHandshake(h)], before);
  }

  predicate EndsIn(s: seq<byte>, data: seq<byte>) {
    |data| <= |s| && s[|s| - |data|..] == data
  }

  /** Bytes at the end of a hello, outside its own length, are taken again for the next message. */
  lemma ShortFrame(version: uint16, h: HandshakeMessage, g: HandshakeMessage, before: nat)
    requires h.kind in {CLIENT_HELLO, SERVER_HELLO} && WellTyped(h) && Encodable(h) && WellTyped(g) && Encodable(g)
    requires EndsIn(HandshakeBody(h), HandshakeBytes(g))
    ensures var n := |HandshakeBody(h)| - |HandshakeBytes(g)|;
            var record := RecordBytes(HANDSHAKE, version, FramedAs(h, n, []));
            MessageAt(record, |record|, before)
            == Good(Message(HANDSHAKE, version, Handshake([DerivedHandshake(h), DerivedHandshake(g)])), |record|)
  {
    hide HandshakeBody, NumberAt, HandshakeAt, RecordBytes, Holds;
    LengthsFit(h);
    assert |FramedAs(h, 0, [])| == |HandshakeBytes(h)|;
    hide HandshakeBytes;
    var n := |HandshakeBody(h)| - |HandshakeBytes(g)|;
    var payload := FramedAs(h, n, []);
    var record, body := RecordBytes(HANDSHAKE, version, payload), HandshakeBody(h);
    AnyFrame(version, h, n, []);
    FramedParts(version, h, n, []);
    assert body == body[..n] + HandshakeBytes(g);
    HoldsParts(record, 9, body[..n], HandshakeBytes(g));
    HandshakeRead(record, |record|, 9 + n, g);
    assert [DerivedHandshake(g)] + [] == [DerivedHandshake(g)];
    assert HandshakesAt(record, |record|, 9 + n) == Some([DerivedHandshake(g)]);
    assert [DerivedHandshake(h)] + [DerivedHandshake(g)] == [DerivedHandshake(h), DerivedHandshake(g)];
    PayloadRead(version, payload, [DerivedHandshake(h), DerivedHandshake(g)], before);
  }

  lemma SumEndsIn(a: seq<byte>, b: seq<byte>, data: seq<byte>)
    requires EndsIn(b, data)
    ensures EndsIn(a + b, data)
  {
    var s := a + b;
    assert s[|s| - |data|..] == b[|b| - |data|..];
  }

  /** Such a hello there is for every message: one whose last extension, of a type not known here, holds it. */
  lemma EndsInMessage(m: ClientHello, kind: uint16, data: seq<byte>)
    requires AllWellTyped(m.extensions)
    requires kind !in {SERVER_NAME, SUPPORTED_GROUPS, SUPPORTED_VERSIONS}
    ensures EndsIn(ClientHelloBytes(m.(extensions := m.extensions + [Extension(kind, Opaque(data))])), data)
  {
    hide EndsIn, U16Bytes, LengthBytes, NumberBytes;
    var e := Extension(kind, Opaque(data));
    var es := m.extensions + [e];
    ExtensionListAppend(m.extensions, e);
    assert EndsIn(data, data) by {
      Itself(data);
    }
    SumEndsIn(U16Bytes(e.kind) + LengthBytes(2, |data|), data, data);
    SumEndsIn(ExtensionListBytes(m.extensions), ExtensionBytes(e), data);
    var list := ExtensionListBytes(es);
    SumEndsIn(LengthBytes(2, |list|), list, data);
    SumEndsIn(U16Bytes(m.legacyVersion) + m.random + VectorBytes(1, m.sessionId)
              + VectorBytes(2, NumberBytes(m.cipherSuites)) + VectorBytes(1, m.compressionMethods),
              ExtensionsBytes(es), data);
  }

  lemma Itself(data: seq<byte>)
    ensures EndsIn(data, data)
  {
  }
}
