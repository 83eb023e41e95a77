/** `MessageEncoder`: appends a record to a buffer, leaving room for each length and patching it later. */
module TlsEncoder {
  import opened Bytes
  import opened TlsDefinition
  import opened TlsWire

  datatype Result = good | bad

  /** `std::vector<uint8_t>::resize`: cut off, or filled up with zeros. */
  function Resized(s: seq<byte>, n: nat): (r: seq<byte>)
    ensures |r| == n
  {
    if n <= |s| then s[..n] else s + seq(n - |s|, _ => 0)
  }

  class Buffer {
    var bytes: seq<byte>

    constructor ()
      ensures bytes == []
    {
      bytes := [];
    }

    method Resize(n: nat)
      modifies this
      ensures bytes == Resized(old(bytes), n)
    {
      bytes := if n <= |bytes| then bytes[..n] else bytes + seq(n - |bytes|, _ => 0);
    }

    method Insert(data: seq<byte>)
      modifies this
      ensures bytes == old(bytes) + data
    {
      bytes := bytes + data;
    }

    /** Makes room at the end and writes there. */
    method Extend(from: nat, data: seq<byte>)
      requires from == |bytes|
      modifies this
      ensures bytes == old(bytes) + data
    {
      Resize(from + |data|);
      Put(from, data);
    }

    /** Writes over the bytes at `at`; all other bytes stay. */
    method Put(at: nat, data: seq<byte>)
      requires at + |data| <= |bytes|
      modifies this
      ensures |bytes| == |old(bytes)|
      ensures bytes == old(bytes)[..at] + data + old(bytes)[at + |data|..]
    {
      bytes := bytes[..at] + data + bytes[at + |data|..];
    }
  }

  /** Writing over the middle of three parts. */
  lemma Overwritten(front: seq<byte>, hole: seq<byte>, back: seq<byte>, data: seq<byte>)
    requires |data| == |hole|
    ensures (front + hole + back)[..|front|] == front
    ensures (front + hole + back)[|front| + |data|..] == back
  {
  }

  /** `SAFE_SET_INT`: writes `n` into a length field, unless it does not fit. */
  method SafeSetLength(buffer: Buffer, at: nat, width: nat, n: nat) returns (result: Result)
    requires width == 1 || width == 2
    requires at + width <= |buffer.bytes|
    modifies buffer
    ensures result.good? <==> n <= WidthLimit(width)
    ensures |buffer.bytes| == |old(buffer.bytes)|
    ensures result.good? ==>
      buffer.bytes == old(buffer.bytes)[..at] + LengthBytes(width, n) + old(buffer.bytes)[at + width..]
    ensures result.bad? ==> buffer.bytes == old(buffer.bytes)
  {
    if WidthLimit(width) < n {
      return bad;
    }
    if width == 2 {
      TwoByteLength(n);
    }
    buffer.Put(at, if width == 1 then [n] else U16Bytes(n));
    result := good;
  }

  /** A length field is patched with the size of all that follows it, `body`, after the field left open. */
  method PatchLength(buffer: Buffer, at: nat, ghost front: seq<byte>, ghost hole: seq<byte>, ghost body: seq<byte>)
    returns (result: Result)
    requires buffer.bytes == front + hole + body && |front| == at && |hole| == 2
    modifies buffer
    ensures result.good? <==> |body| <= 0xFFFF
    ensures result.good? ==> buffer.bytes == front + LengthBytes(2, |body|) + body
    ensures result.bad? ==> buffer.bytes == old(buffer.bytes)
  {
    Overwritten(front, hole, body, LengthBytes(2, |body|));
    result := SafeSetLength(buffer, at, 2, |buffer.bytes| - (at + 2));
  }

  /** `EncodeVector` for bytes. */
  method EncodeBytes(width: nat, source: seq<byte>, buffer: Buffer, from: nat) returns (result: Result, offset: nat)
    requires width == 1 || width == 2
    requires from == |buffer.bytes|
    modifies buffer
    ensures result.good? <==> |source| <= WidthLimit(width)
    ensures result.good? ==> buffer.bytes == old(buffer.bytes) + VectorBytes(width, source) && offset == |buffer.bytes|
    ensures old(buffer.bytes) <= buffer.bytes
  {
    buffer.Resize(from + width + |source|);
    result := SafeSetLength(buffer, from, width, |source|);
    if result.bad? {
      return bad, from;
    }
    ghost var head := buffer.bytes[..from + width];
    assert head == old(buffer.bytes) + LengthBytes(width, |source|);
    buffer.Put(from + width, source);
    offset := |buffer.bytes|;
    assert buffer.bytes == head + source;
    Regroup(old(buffer.bytes), LengthBytes(width, |source|), source);
  }

  /** `EncodeVector` for 16-bit numbers, its length in bytes. */
  method EncodeNumbers(width: nat, source: seq<uint16>, buffer: Buffer, from: nat)
    returns (result: Result, offset: nat)
    requires width == 1 || width == 2
    requires from == |buffer.bytes|
    modifies buffer
    ensures result.good? <==> 2 * |source| <= WidthLimit(width)
    ensures result.good? ==>
      buffer.bytes == old(buffer.bytes) + VectorBytes(width, NumberBytes(source)) && offset == |buffer.bytes|
    ensures old(buffer.bytes) <= buffer.bytes
  {
    buffer.Resize(from + width + 2 * |source|);
    result := SafeSetLength(buffer, from, width, 2 * |source|);
    if result.bad? {
      return bad, from;
    }
    ghost var head := buffer.bytes[..from + width];
    for i := 0 to |source|
      invariant |buffer.bytes| == from + width + 2 * |source|
      invariant buffer.bytes[..from + width + 2 * i] == head + NumberBytes(source[..i])
    {
      ghost var done := buffer.bytes[..from + width + 2 * i];
      buffer.Put(from + width + 2 * i, U16Bytes(source[i]));
      assert buffer.bytes[..from + width + 2 * (i + 1)] == done + U16Bytes(source[i]);
      assert source[..i + 1] == source[..i] + [source[i]];
      NumberBytesAppend(source[..i], source[i]);
      Regroup(head, NumberBytes(source[..i]), U16Bytes(source[i]));
    }
    offset := |buffer.bytes|;
    assert source[..|source|] == source;
    assert buffer.bytes == buffer.bytes[..from + width + 2 * |source|];
    Regroup(old(buffer.bytes), LengthBytes(width, 2 * |source|), NumberBytes(source));
  }

  /** The entry of a server_name list: the type of the name, its length and itself. */
  method EncodeHostName(hostName: seq<byte>, buffer: Buffer, from: nat) returns (result: Result, offset: nat)
    requires from == |buffer.bytes|
    modifies buffer
    ensures result.good? <==> |hostName| <= 0xFFFF
    ensures result.good? ==>
      buffer.bytes == old(buffer.bytes) + ([HOST_NAME] + LengthBytes(2, |hostName|) + hostName) && offset == |buffer.bytes|
    ensures old(buffer.bytes) <= buffer.bytes
  {
    buffer.Resize(from + 3);
    ghost var was, name: seq<byte> := old(buffer.bytes), [HOST_NAME];
    assert buffer.bytes == was + [0] + [0, 0];
    Overwritten(was, [0], [0, 0], name);
    buffer.Put(from, [HOST_NAME]);
    ghost var front := was + name;
    assert buffer.bytes == front + [0, 0] + [];
    Overwritten(front, [0, 0], [], LengthBytes(2, |hostName|));
    result := SafeSetLength(buffer, from + 1, 2, |hostName|);
    offset := from + 3;
    if result.bad? {
      return;
    }
    assert buffer.bytes == front + LengthBytes(2, |hostName|);
    buffer.Insert(hostName);
    offset := offset + |hostName|;
    Regroup(was, name, LengthBytes(2, |hostName|));
    Regroup(was, name + LengthBytes(2, |hostName|), hostName);
  }

  method EncodeServerName(hostName: seq<byte>, buffer: Buffer, from: nat) returns (result: Result, offset: nat)
    requires from == |buffer.bytes|
    modifies buffer
    ensures result.good? <==> 0 < |hostName| && 3 + |hostName| <= 0xFFFF
    ensures result.good? ==> buffer.bytes == old(buffer.bytes) + ServerNameBytes(hostName) && offset == |buffer.bytes|
    ensures old(buffer.bytes) <= buffer.bytes
  {
    buffer.Resize(from + 2);
    offset := from + 2;
    if |hostName| == 0 {
      return bad, offset;
    }
    ghost var was := old(buffer.bytes);
    assert buffer.bytes == was + [0, 0];
    result, offset := EncodeHostName(hostName, buffer, offset);
    if result.bad? {
      return;
    }
    ghost var content := [HOST_NAME] + LengthBytes(2, |hostName|) + hostName;
    result := PatchLength(buffer, from, was, [0, 0], content);
    Regroup(was, LengthBytes(2, |content|), content);
  }

  /** The body of an extension, by its type. */
  method EncodeExtensionBody(e: Extension, buffer: Buffer, from: nat) returns (result: Result, offset: nat)
    requires WellTypedExtension(e)
    requires from == |buffer.bytes|
    modifies buffer
    ensures result.good? <==> EncodableExtension(e) && BodyFits(e)
    ensures result.good? ==> buffer.bytes == old(buffer.bytes) + ExtensionBody(e) && offset == |buffer.bytes|
    ensures old(buffer.bytes) <= buffer.bytes
  {
    if e.kind == SERVER_NAME {
      result, offset := EncodeServerName(e.content.hostName, buffer, from);
    } else if e.kind == SUPPORTED_GROUPS {
      result, offset := EncodeNumbers(2, e.content.numbers, buffer, from);
    } else if e.kind == SUPPORTED_VERSIONS {
      var versions := e.content.numbers;
      if |versions| == 1 {
        buffer.Extend(from, U16Bytes(versions[0]));
        return good, from + 2;
      } else if |versions| > 1 {
        result, offset := EncodeNumbers(1, versions, buffer, from);
      } else {
        return bad, from;
      }
    } else {
      buffer.Insert(e.content.data);
      return good, |buffer.bytes|;
    }
  }

  lemma FourZeros(was: seq<byte>, body: seq<byte>)
    ensures Resized(was, |was| + 4) + body == was + [0, 0] + ([0, 0] + body)
    ensures was <= Resized(was, |was| + 4)
  {
  }

  lemma Regrouped(a: seq<byte>, b: seq<byte>, c: seq<byte>, d: seq<byte>)
    ensures a + b + (c + d) == a + b + c + d == a + (b + c + d)
  {
    Regroup(a + b, c, d);
    Regroup(a, b, c);
    Regroup(a, b + c, d);
  }

  /** Where the parts of an extension's size come from. */
  lemma SizeOfBody(e: Extension)
    requires WellTypedExtension(e)
    ensures ExtensionSize(e) == 4 + |ExtensionBody(e)|
    ensures EncodableExtension(e) && ExtensionSize(e) <= 4 + 0xFFFF ==> BodyFits(e)
  {
    ExtensionListSizes([e]);
    assert e in [e];
  }

  method EncodeExtension(e: Extension, buffer: Buffer, from: nat) returns (result: Result, offset: nat)
    requires WellTypedExtension(e)
    requires from == |buffer.bytes|
    modifies buffer
    ensures result.good? <==> EncodableExtension(e) && ExtensionSize(e) <= 4 + 0xFFFF
    ensures result.good? ==> buffer.bytes == old(buffer.bytes) + ExtensionBytes(e) && offset == |buffer.bytes|
    ensures old(buffer.bytes) <= buffer.bytes
  {
    hide WellTypedExtension, EncodableExtension, BodyFits, ExtensionBody, ExtensionSize, U16Bytes, LengthBytes, Resized;
    SizeOfBody(e);
    ghost var body, was, kind := ExtensionBody(e), buffer.bytes, U16Bytes(e.kind);
    FourZeros(was, []);
    buffer.Resize(from + 4);
    var contentOffset := from + 4;
    result, offset := EncodeExtensionBody(e, buffer, contentOffset);
    if result.bad? {
      return;
    }
    FourZeros(was, body);
    Overwritten(was, [0, 0], [0, 0] + body, kind);
    buffer.Put(from, U16Bytes(e.kind));
    Regrouped(was, kind, [0, 0], body);
    result := PatchLength(buffer, from + 2, was + kind, [0, 0], body);
    Regrouped(was, kind, LengthBytes(2, |body|), body);
  }

  /** One more extension of the list. */
  lemma OneMore(front: seq<byte>, es: seq<Extension>, i: nat)
    requires AllWellTyped(es) && i < |es|
    ensures AllWellTyped(es[..i]) && AllWellTyped(es[..i + 1]) && WellTypedExtension(es[i])
    ensures AllEncodable(es[..i + 1]) <==> AllEncodable(es[..i]) && EncodableExtension(es[i])
    ensures AllEncodable(es) ==> EncodableExtension(es[i])
    ensures front + ExtensionListBytes(es[..i + 1]) == front + ExtensionListBytes(es[..i]) + ExtensionBytes(es[i])
    ensures ExtensionSize(es[i]) <= ExtensionListSize(es)
  {
    hide WellTypedExtension, EncodableExtension, ExtensionBytes, ExtensionSize, ExtensionListSize, ExtensionListBytes;
    assert es[i] in es;
    ExtensionListSizes(es);
    var done := es[..i];
    assert es[..i + 1] == done + [es[i]];
    assert forall e :: e in done + [es[i]] <==> e in done || e == es[i];
    ExtensionListAppend(done, es[i]);
    Regroup(front, ExtensionListBytes(done), ExtensionBytes(es[i]));
  }

  method EncodeExtensions(es: seq<Extension>, buffer: Buffer, from: nat) returns (result: Result, offset: nat)
    requires AllWellTyped(es)
    requires from == |buffer.bytes|
    modifies buffer
    ensures result.good? <==> AllEncodable(es) && ExtensionListSize(es) <= 0xFFFF
    ensures result.good? ==> buffer.bytes == old(buffer.bytes) + ExtensionsBytes(es) && offset == |buffer.bytes|
    ensures old(buffer.bytes) <= buffer.bytes
  {
    hide WellTypedExtension, EncodableExtension, ExtensionBytes, ExtensionSize, ExtensionListSize;
    hide AllWellTyped, AllEncodable;
    buffer.Resize(from + 2);
    offset := from + 2;
    ghost var front := buffer.bytes;
    NoneYet();
    for i := 0 to |es|
      invariant offset == |buffer.bytes|
      invariant AllWellTyped(es[..i])
      invariant AllEncodable(es[..i])
      invariant buffer.bytes == front + ExtensionListBytes(es[..i])
    {
      OneMore(front, es, i);
      result, offset := EncodeExtension(es[i], buffer, offset);
      if result.bad? {
        return;
      }
    }
    assert es[..|es|] == es;
    ExtensionListSizes(es);
    ghost var list := ExtensionListBytes(es);
    assert buffer.bytes == old(buffer.bytes) + [0, 0] + list;
    result := PatchLength(buffer, from, old(buffer.bytes), [0, 0], list);
    Regroup(old(buffer.bytes), LengthBytes(2, |list|), list);
    offset := |buffer.bytes|;
  }

  lemma NoneYet()
    ensures AllWellTyped([]) && AllEncodable([])
  {
  }

  /** What is written so far, `done`, with one more part. */
  ghost function Appended(front: seq<byte>, done: seq<byte>, part: seq<byte>): (all: seq<byte>)
    ensures all == done + part && front + all == front + done + part
  {
    Regroup(front, done, part);
    done + part
  }

  method EncodeClientHello(m: ClientHello, buffer: Buffer, from: nat) returns (result: Result, offset: nat)
    requires AllWellTyped(m.extensions)
    requires from == |buffer.bytes|
    modifies buffer
    ensures result.good? <==>
      EncodableClientHello(m) && 2 * |m.cipherSuites| <= 0xFFFF && ExtensionListSize(m.extensions) <= 0xFFFF
    ensures result.good? ==> buffer.bytes == old(buffer.bytes) + ClientHelloBytes(m) && offset == |buffer.bytes|
    ensures old(buffer.bytes) <= buffer.bytes
  {
    buffer.Extend(from, U16Bytes(m.legacyVersion) + m.random);
    offset := from + 34;
    ghost var done := U16Bytes(m.legacyVersion) + m.random;

    result, offset := EncodeBytes(1, m.sessionId, buffer, offset);
    if result.bad? {
      return;
    }
    done := Appended(old(buffer.bytes), done, VectorBytes(1, m.sessionId));
    result, offset := EncodeNumbers(2, m.cipherSuites, buffer, offset);
    if result.bad? {
      return;
    }
    done := Appended(old(buffer.bytes), done, VectorBytes(2, NumberBytes(m.cipherSuites)));
    result, offset := EncodeBytes(1, m.compressionMethods, buffer, offset);
    if result.bad? {
      return;
    }
    done := Appended(old(buffer.bytes), done, VectorBytes(1, m.compressionMethods));
    result, offset := EncodeExtensions(m.extensions, buffer, offset);
    if result.bad? {
      return;
    }
    offset := |buffer.bytes|;
    done := Appended(old(buffer.bytes), done, ExtensionsBytes(m.extensions));
  }

  method EncodeServerHello(m: ServerHello, buffer: Buffer, from: nat) returns (result: Result, offset: nat)
    requires AllWellTyped(m.extensions)
    requires from == |buffer.bytes|
    modifies buffer
    ensures result.good? <==> EncodableServerHello(m) && ExtensionListSize(m.extensions) <= 0xFFFF
    ensures result.good? ==> buffer.bytes == old(buffer.bytes) + ServerHelloBytes(m) && offset == |buffer.bytes|
    ensures old(buffer.bytes) <= buffer.bytes
  {
    buffer.Extend(from, U16Bytes(m.legacyVersion) + m.random);
    offset := from + 34;
    ghost var done := U16Bytes(m.legacyVersion) + m.random;

    result, offset := EncodeBytes(1, m.sessionIdEcho, buffer, offset);
    if result.bad? {
      return;
    }
    done := Appended(old(buffer.bytes), done, VectorBytes(1, m.sessionIdEcho));
    buffer.Extend(offset, U16Bytes(m.cipherSuite));
    offset := offset + 2;
    done := Appended(old(buffer.bytes), done, U16Bytes(m.cipherSuite));
    buffer.Extend(offset, [m.compressionMethod]);
    offset := offset + 1;
    done := Appended(old(buffer.bytes), done, [m.compressionMethod]);
    result, offset := EncodeExtensions(m.extensions, buffer, offset);
    if result.bad? {
      return;
    }
    offset := |buffer.bytes|;
    done := Appended(old(buffer.bytes), done, ExtensionsBytes(m.extensions));
  }

  method EncodeHandshake(h: HandshakeMessage, buffer: Buffer, from: nat) returns (result: Result, offset: nat)
    requires WellTyped(h)
    requires from == |buffer.bytes|
    modifies buffer
    ensures result.good? <==> PartsFit(h)
    ensures result.good? ==> buffer.bytes == old(buffer.bytes) + HandshakeBytes(h) && offset == |buffer.bytes|
    ensures old(buffer.bytes) <= buffer.bytes
  {
    hide ClientHelloBytes, ServerHelloBytes, EncodableClientHello, EncodableServerHello, ExtensionListSize, U24Bytes;
    hide AllWellTyped;
    buffer.Resize(from + 4);
    offset := from + 4;
    var contentOffset := offset;
    buffer.Put(from, [h.kind]);
    ghost var front := old(buffer.bytes) + [h.kind];
    assert buffer.bytes == front + [0, 0, 0];
    if h.kind == CLIENT_HELLO {
      result, offset := EncodeClientHello(h.content.client, buffer, offset);
      if result.bad? {
        return;
      }
    } else if h.kind == SERVER_HELLO {
      result, offset := EncodeServerHello(h.content.server, buffer, offset);
      if result.bad? {
        return;
      }
    } else {
      buffer.Insert(h.content.data);
      offset := |buffer.bytes|;
    }
    ghost var body := HandshakeBody(h);
    assert buffer.bytes == front + [0, 0, 0] + body;
    Overwritten(front, [0, 0, 0], body, U24Bytes(|body|));
    buffer.Put(from + 1, U24Bytes(|buffer.bytes| - contentOffset));
    offset := |buffer.bytes|;
    Regroup(old(buffer.bytes), [h.kind], U24Bytes(|body|));
    Regroup(old(buffer.bytes), [h.kind] + U24Bytes(|body|), body);
    result := good;
  }

  /** The payload the encoder writes: nothing unless the record holds a handshake message. */
  function Payload(kind: byte, handshake: HandshakeMessage): seq<byte>
    requires kind == TlsDefinition.HANDSHAKE ==> WellTyped(handshake)
  {
    if kind == TlsDefinition.HANDSHAKE then HandshakeBytes(handshake) else []
  }

  /** The header of a record, its length open: two bytes, whatever they are. */
  method BeginRecord(kind: byte, version: uint16, buffer: Buffer, from: nat)
    modifies buffer
    ensures |buffer.bytes| == from + 5
    ensures buffer.bytes == Resized(old(buffer.bytes), from) + ([kind] + U16Bytes(version)) + buffer.bytes[from + 3..]
  {
    buffer.Resize(from + 5);
    ghost var resized := buffer.bytes;
    assert resized[..from] == Resized(old(buffer.bytes), from);
    buffer.Put(from, [kind] + U16Bytes(version));
    assert buffer.bytes[from + 3..] == resized[from + 3..];
  }

  /** `MessageEncoder::Encode` of a record with one handshake message, at `from` in the buffer. */
  method Encode(kind: byte, version: uint16, handshake: HandshakeMessage, buffer: Buffer, from: nat)
    returns (result: Result)
    requires kind == TlsDefinition.HANDSHAKE ==> WellTyped(handshake)
    modifies buffer
    ensures result.good? <==> (kind == TlsDefinition.HANDSHAKE ==> Encodable(handshake))
    ensures result.good? ==>
      buffer.bytes == Resized(old(buffer.bytes), from) + RecordBytes(kind, version, Payload(kind, handshake))
    ensures Resized(old(buffer.bytes), from) <= buffer.bytes
  {
    ghost var before := Resized(old(buffer.bytes), from);
    BeginRecord(kind, version, buffer, from);
    ghost var hole := buffer.bytes[from + 3..];
    if kind == TlsDefinition.HANDSHAKE {
      HandshakeSizes(handshake);
      var offset;
      result, offset := EncodeHandshake(handshake, buffer, from + 5);
      if result.bad? {
        return;
      }
    }
    ghost var header, payload := [kind] + U16Bytes(version), Payload(kind, handshake);
    assert buffer.bytes == (before + header) + hole + payload;
    result := PatchLength(buffer, from + 3, before + header, hole, payload);
    Regroup(before, header, LengthBytes(2, |payload|));
    Regroup(before, header + LengthBytes(2, |payload|), payload);
  }
}
