/**
 * What `MessageDecoder` makes of the first `size` bytes of `memory`. A header may be read before its bound is
 * checked, so `memory` may go on after `size`; bytes beyond it read as zero, which does not matter (Locality).
 */
module TlsReading {
  import opened Bytes
  import opened Options
  import opened TlsDefinition

  /** A decoded value and the offset after it. */
  datatype Decoded<T> = Good(value: T, end: nat) | Bad

  function At(memory: seq<byte>, i: nat): byte {
    if i < |memory| then memory[i] else 0
  }

  function NumberAt(memory: seq<byte>, i: nat): uint16 {
    At(memory, i) * 0x100 + At(memory, i + 1)
  }

  function Number24At(memory: seq<byte>, i: nat): uint24 {
    At(memory, i) * 0x1_0000 + At(memory, i + 1) * 0x100 + At(memory, i + 2)
  }

  function LengthAt(memory: seq<byte>, width: nat, i: nat): nat {
    if width == 1 then At(memory, i) else NumberAt(memory, i)
  }

  function NumbersAt(memory: seq<byte>, from: nat, count: nat): (numbers: seq<uint16>)
    ensures |numbers| == count
  {
    seq(count, i requires 0 <= i => NumberAt(memory, from + 2 * i))
  }

  /** A vector of bytes behind a one-byte length. */
  function ByteVectorAt(memory: seq<byte>, size: nat, from: nat): Decoded<seq<byte>>
    requires size <= |memory|
  {
    if size < from + 1 then Bad
    else if size < from + 1 + At(memory, from) then Bad
    else Good(memory[from + 1..from + 1 + At(memory, from)], from + 1 + At(memory, from))
  }

  /** A vector of 16-bit numbers behind its length in bytes, which has to be even. */
  function NumberVectorAt(memory: seq<byte>, size: nat, width: nat, from: nat): Decoded<seq<uint16>>
    requires size <= |memory|
  {
    if size < from + width then Bad
    else
      var length := LengthAt(memory, width, from);
      if length % 2 != 0 then Bad
      else if size < from + width + length then Bad
      else Good(NumbersAt(memory, from + width, length / 2), from + width + length)
  }

  /** One extension: refused, or taken; `last` when the decoder returns at once, whatever follows. */
  datatype Piece = Refused | Taken(extension: Extension, last: bool, next: nat)

  /** A server_name extension without a name. */
  const NAMELESS := Extension(SERVER_NAME, ServerName([]))

  function ServerNameAt(memory: seq<byte>, body: nat, length: nat): Piece
    requires body + length <= |memory|
  {
    if length == 0 then Taken(NAMELESS, true, body)
    else if length < 3 then Refused
    else if length != 5 + NumberAt(memory, body + 3) then Refused
    else if At(memory, body + 2) != HOST_NAME then Refused
    else Taken(Extension(SERVER_NAME, ServerName(memory[body + 5..body + length])), false, body + length)
  }

  /** A list of numbers; when it does not fill the extension the decoder stops there, with success. */
  function NumberListAt(memory: seq<byte>, size: nat, kind: uint16, width: nat, body: nat, stop: nat): Piece
    requires size <= |memory|
  {
    match NumberVectorAt(memory, size, width, body)
    case Bad => Refused
    case Good(numbers, end) => Taken(Extension(kind, Numbers(numbers)), end != stop, stop)
  }

  function VersionsAt(memory: seq<byte>, size: nat, body: nat, stop: nat): Piece
    requires body <= stop <= size <= |memory|
  {
    if stop - body == 2 then
      Taken(Extension(SUPPORTED_VERSIONS, Numbers([NumberAt(memory, body)])), false, stop)
    else if stop - body > 2 then NumberListAt(memory, size, SUPPORTED_VERSIONS, 1, body, stop)
    else Refused
  }

  /** The body of an extension, by its type. */
  function ExtensionBodyAt(memory: seq<byte>, size: nat, kind: uint16, body: nat, stop: nat): (piece: Piece)
    requires body <= stop <= size <= |memory|
    ensures piece.Taken? ==> body <= piece.next <= stop
  {
    if kind == SERVER_NAME then ServerNameAt(memory, body, stop - body)
    else if kind == SUPPORTED_GROUPS then NumberListAt(memory, size, kind, 2, body, stop)
    else if kind == SUPPORTED_VERSIONS then VersionsAt(memory, size, body, stop)
    else Taken(Extension(kind, Opaque(memory[body..stop])), false, stop)
  }

  function ExtensionAt(memory: seq<byte>, size: nat, offset: nat, end: nat): (piece: Piece)
    requires offset < end <= size <= |memory|
    ensures piece.Taken? ==> offset < piece.next <= end
  {
    if end < offset + 4 then Refused
    else
      var kind := NumberAt(memory, offset);
      var body := offset + 4;
      var stop := body + NumberAt(memory, offset + 2);
      if end < stop then Refused else ExtensionBodyAt(memory, size, kind, body, stop)
  }

  function ExtensionListAt(memory: seq<byte>, size: nat, offset: nat, end: nat): Option<seq<Extension>>
    requires end <= size <= |memory|
    decreases end - offset
  {
    if offset >= end then Some([])
    else
      match ExtensionAt(memory, size, offset, end)
      case Refused => None
      case Taken(e, last, next) =>
        if last then Some([e])
        else Prepended([e], ExtensionListAt(memory, size, next, end))
  }

  function Prepended<T>(front: seq<T>, rest: Option<seq<T>>): Option<seq<T>> {
    if rest.Some? then Some(front + rest.value) else None
  }

  lemma PrependedNothing<T>(rest: Option<seq<T>>)
    ensures Prepended([], rest) == rest
  {
    if rest.Some? {
      assert [] + rest.value == rest.value;
    }
  }

  lemma PrependedTwice<T>(front: seq<T>, middle: seq<T>, rest: Option<seq<T>>)
    ensures Prepended(front, Prepended(middle, rest)) == Prepended(front + middle, rest)
  {
    if rest.Some? {
      Regroup(front, middle, rest.value);
    }
  }

  function ExtensionsAt(memory: seq<byte>, size: nat, from: nat): Decoded<seq<Extension>>
    requires size <= |memory|
  {
    if size < from + 2 then Bad
    else
      var end := from + 2 + NumberAt(memory, from);
      if end > size then Bad
      else
        match ExtensionListAt(memory, size, from + 2, end)
        case None => Bad
        case Some(es) => Good(es, end)
  }

  function ClientHelloAt(memory: seq<byte>, size: nat, from: nat): Decoded<ClientHello>
    requires size <= |memory|
  {
    if size < from + 34 then Bad
    else
      match ByteVectorAt(memory, size, from + 34)
      case Bad => Bad
      case Good(sessionId, at1) =>
      match NumberVectorAt(memory, size, 2, at1)
      case Bad => Bad
      case Good(cipherSuites, at2) =>
      match ByteVectorAt(memory, size, at2)
      case Bad => Bad
      case Good(compressionMethods, at3) =>
      match ExtensionsAt(memory, size, at3)
      case Bad => Bad
      case Good(extensions, end) =>
        Good(ClientHello(NumberAt(memory, from), memory[from + 2..from + 34], sessionId, cipherSuites,
                         compressionMethods, extensions), end)
  }

  /** The cipher suite and compression method are read without a check of the bound. */
  function ServerHelloAt(memory: seq<byte>, size: nat, from: nat): Decoded<ServerHello>
    requires size <= |memory|
  {
    if size < from + 34 then Bad
    else
      match ByteVectorAt(memory, size, from + 34)
      case Bad => Bad
      case Good(sessionId, at) =>
      match ExtensionsAt(memory, size, at + 3)
      case Bad => Bad
      case Good(extensions, end) =>
        var random := memory[from + 2..from + 34];
        Good(ServerHello(NumberAt(memory, from), random, RetryTypeOf(random), sessionId,
                         NumberAt(memory, at), At(memory, at + 2), extensions), end)
  }

  /** Where the handshake message at `from` says it ends. */
  function HandshakeEnd(memory: seq<byte>, from: nat): nat {
    from + 4 + Number24At(memory, from + 1)
  }

  /** A hello is bounded by the record, not by its own handshake message. */
  function HandshakeAt(memory: seq<byte>, size: nat, from: nat): (h: Option<HandshakeMessage>)
    requires HandshakeEnd(memory, from) <= size <= |memory|
  {
    var kind := At(memory, from);
    if kind == CLIENT_HELLO then
      var hello := ClientHelloAt(memory, size, from + 4);
      if hello.Bad? then None else Some(HandshakeMessage(kind, OfClient(hello.value)))
    else if kind == SERVER_HELLO then
      var hello := ServerHelloAt(memory, size, from + 4);
      if hello.Bad? then None else Some(HandshakeMessage(kind, OfServer(hello.value)))
    else Some(HandshakeMessage(kind, OtherHandshake(memory[from + 4..HandshakeEnd(memory, from)])))
  }

  function HandshakesAt(memory: seq<byte>, size: nat, from: nat): Option<seq<HandshakeMessage>>
    requires size <= |memory|
    decreases size - from
  {
    if from >= size then Some([])
    else if HandshakeEnd(memory, from) > size then None
    else
      match HandshakeAt(memory, size, from)
      case None => None
      case Some(h) => Prepended([h], HandshakesAt(memory, size, HandshakeEnd(memory, from)))
  }

  /** The whole record; `before` is what the end offset held, and keeps when there is no handshake message. */
  function MessageAt(memory: seq<byte>, size: nat, before: nat): Decoded<Message>
    requires size <= |memory|
  {
    if size < 5 then Bad
    else
      var kind, version := At(memory, 0), NumberAt(memory, 1);
      var end := 5 + NumberAt(memory, 3);
      if size < end then Bad
      else if kind == HANDSHAKE then
        match HandshakesAt(memory, end, 5)
        case None => Bad
        case Some(hs) => Good(Message(kind, version, Handshake(hs)), if end == 5 then before else end)
      else Good(Message(kind, version, OtherRecord(memory[5..end])), end)
  }
}

/** `MessageDecoder`: offsets go forward, the lists grow as messages and extensions are found. */
module TlsDecoder {
  import opened Bytes
  import opened Options
  import opened TlsDefinition
  import opened TlsReading

  method DecodeBytes(memory: seq<byte>, size: nat, from: nat) returns (r: Decoded<seq<byte>>)
    requires size <= |memory|
    ensures r == ByteVectorAt(memory, size, from)
  {
    var offset := from;
    if size < offset + 1 {
      return Bad;
    }
    var count := At(memory, offset);
    offset := offset + 1;
    if size < offset + count {
      return Bad;
    }
    return Good(memory[offset..offset + count], offset + count);
  }

  method DecodeNumbers(memory: seq<byte>, size: nat, width: nat, from: nat) returns (r: Decoded<seq<uint16>>)
    requires size <= |memory|
    ensures r == NumberVectorAt(memory, size, width, from)
  {
    var offset := from;
    if size < offset + width {
      return Bad;
    }
    var length := LengthAt(memory, width, offset);
    offset := offset + width;
    if length % 2 != 0 {
      return Bad;
    }
    var count := length / 2;
    if size < offset + length {
      return Bad;
    }
    var output: seq<uint16> := [];
    for i := 0 to count
      invariant output == NumbersAt(memory, offset, i)
    {
      output := output + [NumberAt(memory, offset + 2 * i)];
    }
    return Good(output, offset + length);
  }

  method DecodeServerName(memory: seq<byte>, body: nat, length: nat) returns (piece: Piece)
    requires body + length <= |memory|
    ensures piece == ServerNameAt(memory, body, length)
  {
    var offset, stop := body, body + length;
    if length == 0 {
      return Taken(NAMELESS, true, stop);
    }
    if stop < offset + 3 {
      return Refused;
    }
    offset := offset + 2;
    var nameType := At(memory, offset);
    var nameLength := NumberAt(memory, offset + 1);
    offset := offset + 3;
    if stop != offset + nameLength {
      return Refused;
    }
    if nameType != HOST_NAME {
      return Refused;
    }
    return Taken(Extension(SERVER_NAME, ServerName(memory[offset..offset + nameLength])), false, stop);
  }

  /** Takes a list of numbers, and returns at once when it does not end with the extension. */
  method DecodeNumberList(memory: seq<byte>, size: nat, kind: uint16, width: nat, body: nat, stop: nat)
    returns (piece: Piece)
    requires size <= |memory|
    ensures piece == NumberListAt(memory, size, kind, width, body, stop)
  {
    var numbers := DecodeNumbers(memory, size, width, body);
    if numbers.Bad? {
      return Refused;
    }
    return Taken(Extension(kind, Numbers(numbers.value)), numbers.end != stop, stop);
  }

  method DecodeVersions(memory: seq<byte>, size: nat, body: nat, stop: nat) returns (piece: Piece)
    requires body <= stop <= size <= |memory|
    ensures piece == VersionsAt(memory, size, body, stop)
  {
    var length := stop - body;
    if length == 2 {
      return Taken(Extension(SUPPORTED_VERSIONS, Numbers([NumberAt(memory, body)])), false, stop);
    } else if length > 2 {
      piece := DecodeNumberList(memory, size, SUPPORTED_VERSIONS, 1, body, stop);
    } else {
      return Refused;
    }
  }

  method DecodeExtensionBody(memory: seq<byte>, size: nat, kind: uint16, body: nat, stop: nat) returns (piece: Piece)
    requires body <= stop <= size <= |memory|
    ensures piece == ExtensionBodyAt(memory, size, kind, body, stop)
  {
    if kind == SERVER_NAME {
      piece := DecodeServerName(memory, body, stop - body);
    } else if kind == SUPPORTED_GROUPS {
      piece := DecodeNumberList(memory, size, kind, 2, body, stop);
    } else if kind == SUPPORTED_VERSIONS {
      piece := DecodeVersions(memory, size, body, stop);
    } else {
      return Taken(Extension(kind, Opaque(memory[body..stop])), false, stop);
    }
  }

  method DecodeExtension(memory: seq<byte>, size: nat, from: nat, end: nat) returns (piece: Piece)
    requires from < end <= size <= |memory|
    ensures piece == ExtensionAt(memory, size, from, end)
  {
    hide ExtensionBodyAt, NumberAt;
    var offset := from;
    if end < offset + 4 {
      return Refused;
    }
    var kind, length := NumberAt(memory, offset), NumberAt(memory, offset + 2);
    offset := offset + 4;
    var stop := length + offset;
    if end < stop {
      return Refused;
    }
    piece := DecodeExtensionBody(memory, size, kind, offset, stop);
  }

  method DecodeExtensions(memory: seq<byte>, size: nat, from: nat) returns (r: Decoded<seq<Extension>>)
    requires size <= |memory|
    ensures r == ExtensionsAt(memory, size, from)
  {
    var offset := from;
    if size < offset + 2 {
      return Bad;
    }
    var end := offset + 2 + NumberAt(memory, offset);
    offset := offset + 2;
    if end > size {
      return Bad;
    }
    var output: seq<Extension> := [];
    PrependedNothing(ExtensionListAt(memory, size, offset, end));
    while offset < end
      invariant ExtensionListAt(memory, size, from + 2, end)
             == Prepended(output, ExtensionListAt(memory, size, offset, end))
      decreases end - offset
    {
      var piece := DecodeExtension(memory, size, offset, end);
      if piece.Refused? {
        return Bad;
      }
      PrependedTwice(output, [piece.extension], ExtensionListAt(memory, size, piece.next, end));
      output := output + [piece.extension];
      if piece.last {
        return Good(output, end);
      }
      offset := piece.next;
    }
    assert output + [] == output;
    return Good(output, end);
  }

  method DecodeClientHello(memory: seq<byte>, size: nat, from: nat) returns (r: Decoded<ClientHello>)
    requires size <= |memory|
    ensures r == ClientHelloAt(memory, size, from)
  {
    if size < from + 34 {
      return Bad;
    }
    var legacyVersion, random := NumberAt(memory, from), memory[from + 2..from + 34];
    var sessionId := DecodeBytes(memory, size, from + 34);
    if sessionId.Bad? {
      return Bad;
    }
    var cipherSuites := DecodeNumbers(memory, size, 2, sessionId.end);
    if cipherSuites.Bad? {
      return Bad;
    }
    var compressionMethods := DecodeBytes(memory, size, cipherSuites.end);
    if compressionMethods.Bad? {
      return Bad;
    }
    var extensions := DecodeExtensions(memory, size, compressionMethods.end);
    if extensions.Bad? {
      return Bad;
    }
    return Good(ClientHello(legacyVersion, random, sessionId.value, cipherSuites.value,
                            compressionMethods.value, extensions.value), extensions.end);
  }

  method DecodeServerHello(memory: seq<byte>, size: nat, from: nat) returns (r: Decoded<ServerHello>)
    requires size <= |memory|
    ensures r == ServerHelloAt(memory, size, from)
  {
    if size < from + 34 {
      return Bad;
    }
    var legacyVersion, random := NumberAt(memory, from), memory[from + 2..from + 34];
    var retryType := NOT_RETRY;
    if random[..24] == RETRY_HEAD {
      if random[24..] == RETRY_TAIL_1_3 {
        retryType := FOR_TLS_1_3;
      } else if random[24..] == RETRY_TAIL_1_2 {
        retryType := FOR_TLS_1_2;
      } else if random[24..] == RETRY_TAIL_1_1 {
        retryType := FOR_TLS_1_1;
      } else {
        retryType := FOR_UNKNOWN;
      }
    }
    var sessionId := DecodeBytes(memory, size, from + 34);
    if sessionId.Bad? {
      return Bad;
    }
    var offset := sessionId.end;
    var cipherSuite := NumberAt(memory, offset);
    offset := offset + 2;
    var compressionMethod := At(memory, offset);
    offset := offset + 1;
    var extensions := DecodeExtensions(memory, size, offset);
    if extensions.Bad? {
      return Bad;
    }
    return Good(ServerHello(legacyVersion, random, retryType, sessionId.value, cipherSuite,
                            compressionMethod, extensions.value), extensions.end);
  }

  /** One handshake message, by its type. */
  method DecodeHandshakeBody(memory: seq<byte>, size: nat, from: nat, kind: byte, length: nat)
    returns (message: Option<HandshakeMessage>)
    requires from + 4 + length == HandshakeEnd(memory, from) <= size <= |memory| && kind == At(memory, from)
    ensures message == HandshakeAt(memory, size, from)
  {
    var body := from + 4;
    if kind == CLIENT_HELLO {
      var hello := DecodeClientHello(memory, size, body);
      if hello.Bad? {
        return None;
      }
      return Some(HandshakeMessage(kind, OfClient(hello.value)));
    } else if kind == SERVER_HELLO {
      var hello := DecodeServerHello(memory, size, body);
      if hello.Bad? {
        return None;
      }
      return Some(HandshakeMessage(kind, OfServer(hello.value)));
    } else {
      return Some(HandshakeMessage(kind, OtherHandshake(memory[body..body + length])));
    }
  }

  method DecodeHandshake(memory: seq<byte>, size: nat, from: nat, before: nat)
    returns (messages: Option<seq<HandshakeMessage>>, end: nat)
    requires from <= size <= |memory|
    ensures messages == HandshakesAt(memory, size, from)
    ensures messages.Some? ==> end == if from == size then before else size
  {
    hide HandshakeAt, Number24At;
    var offset := from;
    end := before;
    var output: seq<HandshakeMessage> := [];
    PrependedNothing(HandshakesAt(memory, size, offset));
    while offset < size
      invariant from <= offset <= size
      invariant HandshakesAt(memory, size, from) == Prepended(output, HandshakesAt(memory, size, offset))
      invariant end == if from == offset then before else offset
      decreases size - offset
    {
      var kind := At(memory, offset);
      var length := Number24At(memory, offset + 1);
      end := offset + 4 + length;
      if end > size {
        return None, end;
      }
      var message := DecodeHandshakeBody(memory, size, offset, kind, length);
      if message.None? {
        return None, end;
      }
      PrependedTwice(output, [message.value], HandshakesAt(memory, size, end));
      output := output + [message.value];
      offset := end;
    }
    assert output + [] == output;
    messages := Some(output);
  }

  /** `DecodeMesssage`, on the first `size` bytes of `memory`. */
  method DecodeMessage(memory: seq<byte>, size: nat, before: nat) returns (r: Decoded<Message>)
    requires size <= |memory|
    ensures r == MessageAt(memory, size, before)
  {
    var offset: nat := 0;
    if size < offset + 5 {
      return Bad;
    }
    var kind, version, length := At(memory, 0), NumberAt(memory, 1), NumberAt(memory, 3);
    offset := 5;
    if size < offset + length {
      return Bad;
    }
    if kind == HANDSHAKE {
      var messages, end := DecodeHandshake(memory, offset + length, offset, before);
      if messages.None? {
        return Bad;
      }
      return Good(Message(kind, version, Handshake(messages.value)), end);
    } else {
      return Good(Message(kind, version, OtherRecord(memory[offset..offset + length])), offset + length);
    }
  }
}
