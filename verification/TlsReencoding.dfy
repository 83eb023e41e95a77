/** When encoding what was decoded gives the same bytes: conditions on the length fields of the record. */
module TlsReencoding {
  import opened Bytes
  import opened Options
  import opened TlsDefinition
  import opened TlsWire
  import opened TlsReading
  import opened TlsLocality
  import opened TlsFrames

  // ---- one extension

  /**
   * The bytes of an extension come back: it does not end the list early, it is not one version in a list, and
   * the length of a server_name list, which the decoder does not look at, is what remains of the extension.
   */
  predicate SameExtension(memory: seq<byte>, offset: nat) {
    var kind, length := ExtensionKind(memory, offset), ExtensionLength(memory, offset);
    && !EndsEarly(memory, offset)
    && !(kind == SUPPORTED_VERSIONS && length == 3)
    && (kind == SERVER_NAME ==> NumberAt(memory, offset + 4) + 2 == length)
  }

  lemma NumberBack(memory: seq<byte>, i: nat)
    requires i + 2 <= |memory|
    ensures U16Bytes(NumberAt(memory, i)) == memory[i..i + 2]
  {
    hide U16Bytes;
    U16Digits(memory[i..i + 2]);
  }

  lemma {:induction false} NumbersBack(memory: seq<byte>, from: nat, count: nat)
    requires from + 2 * count <= |memory|
    ensures NumberBytes(NumbersAt(memory, from, count)) == memory[from..from + 2 * count]
    decreases count
  {
    if count > 0 {
      hide NumberAt, NumbersAt, U16Bytes;
      var numbers, rest := NumbersAt(memory, from, count), NumbersAt(memory, from + 2, count - 1);
      TlsRoundTrip.NumbersFirst(memory, from, count);
      assert numbers[0] == NumberAt(memory, from) && numbers[1..] == rest;
      NumberBack(memory, from);
      NumbersBack(memory, from + 2, count - 1);
      Joined(memory, from, from + 2, from + 2 * count);
    }
  }

  lemma NumberVectorBack(memory: seq<byte>, size: nat, width: nat, from: nat)
    requires size <= |memory| && (width == 1 || width == 2) && NumberVectorAt(memory, size, width, from).Good?
    ensures var r := NumberVectorAt(memory, size, width, from);
            && from <= r.end <= size && VectorBytes(width, NumberBytes(r.value)) == memory[from..r.end]
            && r.end == from + width + 2 * |r.value| == from + width + LengthAt(memory, width, from)
  {
    hide NumberAt, NumberBytes;
    var count := LengthAt(memory, width, from) / 2;
    NumbersBack(memory, from + width, count);
    LengthBack(memory, width, from);
  }

  lemma LengthBack(memory: seq<byte>, width: nat, i: nat)
    requires (width == 1 || width == 2) && i + width <= |memory|
    ensures LengthAt(memory, width, i) <= WidthLimit(width)
    ensures LengthBytes(width, LengthAt(memory, width, i)) == memory[i..i + width]
  {
    hide NumberAt, U16Bytes;
    if width == 2 {
      NumberBack(memory, i);
      TwoByteLength(NumberAt(memory, i));
    }
  }

  lemma ByteVectorBack(memory: seq<byte>, size: nat, from: nat)
    requires size <= |memory| && ByteVectorAt(memory, size, from).Good?
    ensures var r := ByteVectorAt(memory, size, from);
            from <= r.end <= size && VectorBytes(1, r.value) == memory[from..r.end] && |r.value| <= 0xFF
  {
  }

  /** Two slices next to each other. */
  lemma Joined<T>(s: seq<T>, a: nat, b: nat, c: nat)
    requires a <= b <= c <= |s|
    ensures s[a..c] == s[a..b] + s[b..c]
  {
  }

  lemma HostNameBack(memory: seq<byte>, body: nat, length: nat)
    requires body + length <= |memory| && length <= 0xFFFF
    requires ServerNameAt(memory, body, length).Taken? && length > 0
    ensures var name := ServerNameAt(memory, body, length).extension.content.hostName;
            && length == 5 + |name|
            && [HOST_NAME] + LengthBytes(2, |name|) + name == memory[body + 2..body + length]
  {
    hide NumberAt, U16Bytes;
    NumberBack(memory, body + 3);
    TwoByteLength(length - 5);
    Joined(memory, body + 2, body + 3, body + 5);
    Joined(memory, body + 2, body + 5, body + length);
  }

  lemma ServerNameBack(memory: seq<byte>, body: nat, length: nat)
    requires body + length <= |memory| && length <= 0xFFFF
    requires ServerNameAt(memory, body, length).Taken? && length > 0
    ensures ServerNameBytes(ServerNameAt(memory, body, length).extension.content.hostName) == memory[body..body + length]
            <==> NumberAt(memory, body) + 2 == length
  {
    hide NumberAt, U16Bytes;
    HostNameBack(memory, body, length);
    Joined(memory, body, body + 2, body + length);
    SameFront(LengthBytes(2, length - 2), memory[body..body + 2], memory[body + 2..body + length]);
    NumberBack(memory, body);
    TwoByteLength(length - 2);
    SameNumber(length - 2, NumberAt(memory, body));
  }

  lemma SameFront<T>(a: seq<T>, b: seq<T>, rest: seq<T>)
    requires |a| == |b|
    ensures a + rest == b + rest <==> a == b
  {
    assert (a + rest)[..|a|] == a && (b + rest)[..|a|] == b;
  }

  lemma SameRest<T>(front: seq<T>, a: seq<T>, b: seq<T>)
    ensures front + a == front + b <==> a == b
  {
    assert (front + a)[|front|..] == a && (front + b)[|front|..] == b;
  }

  lemma SameNumber(n: uint16, m: uint16)
    ensures U16Bytes(n) == U16Bytes(m) <==> n == m
  {
  }

  lemma VersionsBack(memory: seq<byte>, size: nat, body: nat, stop: nat)
    requires body <= stop <= size <= |memory| && VersionsAt(memory, size, body, stop).Taken?
    ensures var e := VersionsAt(memory, size, body, stop).extension;
            && ExtensionBody(e) == memory[body..stop] <==>
                 stop - body == 2 || (stop - body != 3 && 1 + At(memory, body) == stop - body)
  {
    if stop - body == 2 {
      NumberBack(memory, body);
    } else {
      NumberVectorBack(memory, size, 1, body);
    }
  }

  lemma GroupsBack(memory: seq<byte>, size: nat, body: nat, stop: nat)
    requires body <= stop <= size <= |memory| && NumberListAt(memory, size, SUPPORTED_GROUPS, 2, body, stop).Taken?
    ensures var e := NumberListAt(memory, size, SUPPORTED_GROUPS, 2, body, stop).extension;
            && ExtensionBody(e) == memory[body..stop] <==> body + 2 + NumberAt(memory, body) == stop
  {
    hide NumberAt, NumberVectorAt, NumberBytes;
    NumberVectorBack(memory, size, 2, body);
  }

  /** The body of an extension comes back exactly on that condition. */
  lemma BodyBack(memory: seq<byte>, size: nat, offset: nat, end: nat)
    requires offset < end <= size <= |memory| && ExtensionAt(memory, size, offset, end).Taken?
    ensures var e := ExtensionAt(memory, size, offset, end).extension;
            && WellTypedExtension(e)
            && (ExtensionBody(e) == memory[offset + 4..ExtensionStop(memory, offset)] <==> SameExtension(memory, offset))
  {
    hide NumberAt, NumberVectorAt, NumberBytes, U16Bytes;
    var kind, length := ExtensionKind(memory, offset), ExtensionLength(memory, offset);
    var body, stop := offset + 4, ExtensionStop(memory, offset);
    if kind == SERVER_NAME {
      if length > 0 {
        ServerNameBack(memory, body, length);
      }
    } else if kind == SUPPORTED_GROUPS {
      GroupsBack(memory, size, body, stop);
    } else if kind == SUPPORTED_VERSIONS {
      VersionsBack(memory, size, body, stop);
    }
  }

  /** Encoding what was decoded of an extension gives its bytes exactly on that condition. */
  lemma ExtensionBack(memory: seq<byte>, size: nat, offset: nat, end: nat)
    requires offset < end <= size <= |memory| && ExtensionAt(memory, size, offset, end).Taken?
    ensures var e := ExtensionAt(memory, size, offset, end).extension;
            && WellTypedExtension(e)
            && (ExtensionBytes(e) == memory[offset..ExtensionStop(memory, offset)] <==> SameExtension(memory, offset))
  {
    BodyBack(memory, size, offset, end);
    EarlyExactly(memory, size, offset, end);
    hide NumberAt, U16Bytes, ExtensionAt, ExtensionBody, SameExtension;
    var e := ExtensionAt(memory, size, offset, end).extension;
    var length, stop := ExtensionLength(memory, offset), ExtensionStop(memory, offset);
    NumberBack(memory, offset);
    NumberBack(memory, offset + 2);
    TwoByteLength(length);
    Joined(memory, offset, offset + 2, offset + 4);
    Joined(memory, offset, offset + 4, stop);
    SameRest(memory[offset..offset + 4], ExtensionBody(e), memory[offset + 4..stop]);
  }

  /** What is decoded of an extension stands in its bytes, whether or not it fills them. */
  lemma ContentBack(memory: seq<byte>, size: nat, offset: nat, end: nat)
    requires offset < end <= size <= |memory| && ExtensionAt(memory, size, offset, end).Taken?
    ensures var e := ExtensionAt(memory, size, offset, end).extension;
            var length, body, stop := ExtensionLength(memory, offset), offset + 4, ExtensionStop(memory, offset);
            && WellTypedExtension(e) && stop <= end
            && (e.content.Opaque? ==> e.content.data == memory[body..stop])
            && (e.content.ServerName? && length == 0 ==> e.content.hostName == [])
            && (e.content.ServerName? && length != 0 ==>
                  var name := e.content.hostName;
                  body + 2 <= stop && memory[body + 2..stop] == [HOST_NAME] + LengthBytes(2, |name|) + name)
            && (e.kind == SUPPORTED_VERSIONS && length == 2 ==> memory[body..stop] == NumberBytes(e.content.numbers))
            && (e.content.Numbers? && !(e.kind == SUPPORTED_VERSIONS && length == 2) ==>
                  var width := if e.kind == SUPPORTED_GROUPS then 2 else 1;
                  TlsRoundTrip.Holds(memory, body, VectorBytes(width, NumberBytes(e.content.numbers))))
  {
    hide NumberAt, U16Bytes, VectorBytes, At;
    var kind, length, body := ExtensionKind(memory, offset), ExtensionLength(memory, offset), offset + 4;
    if kind == SERVER_NAME {
      if length > 0 {
        HostNameBack(memory, body, length);
      }
    } else if kind == SUPPORTED_GROUPS {
      NumberVectorBack(memory, size, 2, body);
    } else if kind == SUPPORTED_VERSIONS {
      if length == 2 {
        NumberBack(memory, body);
        var numbers := [NumberAt(memory, body)];
        assert NumberBytes(numbers) == U16Bytes(numbers[0]) + NumberBytes(numbers[1..]);
      } else {
        NumberVectorBack(memory, size, 1, body);
      }
    }
  }

  /** The encoder takes the extension back: an empty name in a list it refuses. */
  predicate ComesBack(memory: seq<byte>, offset: nat) {
    SameExtension(memory, offset)
    && !(ExtensionKind(memory, offset) == SERVER_NAME && ExtensionLength(memory, offset) == 5)
  }

  lemma EncodableBack(memory: seq<byte>, size: nat, offset: nat, end: nat)
    requires offset < end <= size <= |memory| && ExtensionAt(memory, size, offset, end).Taken?
    requires SameExtension(memory, offset)
    ensures var e := ExtensionAt(memory, size, offset, end).extension;
            && WellTypedExtension(e)
            && (EncodableExtension(e) <==> ComesBack(memory, offset))
  {
    hide NumberAt, NumbersAt;
  }

  // ---- an extension list

  /** Every extension of the block comes back. */
  predicate ListComesBack(memory: seq<byte>, offset: nat, end: nat) {
    forall start :: start in ExtensionStarts(memory, offset, end) ==> ComesBack(memory, start)
  }

  lemma ListComesBackFirst(memory: seq<byte>, offset: nat, end: nat)
    requires offset < end
    ensures ListComesBack(memory, offset, end) <==>
            ComesBack(memory, offset) && ListComesBack(memory, ExtensionStop(memory, offset), end)
  {
    hide ComesBack, ExtensionStop;
    var rest := ExtensionStarts(memory, ExtensionStop(memory, offset), end);
    assert forall x :: x in [offset] + rest <==> x == offset || x in rest;
  }

  predicate EncodedList(es: seq<Extension>, bytes: seq<byte>) {
    AllWellTyped(es) && AllEncodable(es) && ExtensionListBytes(es) == bytes
  }

  /** Bytes that begin like an extension of at most 65535 bytes begin with all of it. */
  lemma OwnLength(memory: seq<byte>, offset: nat, end: nat, e: Extension, more: seq<byte>)
    requires offset + 4 <= end <= |memory| && end - offset <= 0xFFFF && WellTypedExtension(e)
    requires ExtensionBytes(e) + more == memory[offset..end]
    ensures ExtensionStop(memory, offset) == offset + |ExtensionBytes(e)| <= end
    ensures ExtensionBytes(e) == memory[offset..ExtensionStop(memory, offset)]
    ensures more == memory[ExtensionStop(memory, offset)..end]
  {
    var body := ExtensionBody(e);
    hide ExtensionBody, NumberAt, U16Bytes;
    TlsRoundTrip.HoldsParts(memory, offset, ExtensionBytes(e), more);
    TlsRoundTrip.HoldsParts(memory, offset, U16Bytes(e.kind) + LengthBytes(2, |body|), body);
    TlsRoundTrip.HoldsParts(memory, offset, U16Bytes(e.kind), LengthBytes(2, |body|));
    TlsRoundTrip.LengthRead(memory, 2, offset + 2, |body|);
  }

  lemma FirstBack(memory: seq<byte>, size: nat, offset: nat, end: nat, more: seq<byte>)
    requires offset < end <= size <= |memory| && end - offset <= 0xFFFF && ExtensionAt(memory, size, offset, end).Taken?
    ensures var e := ExtensionAt(memory, size, offset, end).extension;
            && WellTypedExtension(e)
            && (EncodableExtension(e) && ExtensionBytes(e) + more == memory[offset..end] <==>
                ComesBack(memory, offset) && more == memory[ExtensionStop(memory, offset)..end])
  {
    hide ExtensionAt, ExtensionBytes, SameExtension, ExtensionLength;
    EarlyExactly(memory, size, offset, end);
    ExtensionBack(memory, size, offset, end);
    var e := ExtensionAt(memory, size, offset, end).extension;
    var stop := ExtensionStop(memory, offset);
    Joined(memory, offset, stop, end);
    if ExtensionBytes(e) + more == memory[offset..end] {
      OwnLength(memory, offset, end, e, more);
    }
    if SameExtension(memory, offset) {
      EncodableBack(memory, size, offset, end);
    }
  }

  lemma EncodedFirst(e: Extension, rest: seq<Extension>, bytes: seq<byte>)
    ensures EncodedList([e] + rest, bytes) <==>
            && AllWellTyped(rest) && AllEncodable(rest) && WellTypedExtension(e) && EncodableExtension(e)
            && ExtensionBytes(e) + ExtensionListBytes(rest) == bytes
  {
    hide ExtensionBytes, EncodableExtension, WellTypedExtension;
    var es := [e] + rest;
    assert es[1..] == rest && es[0] == e;
    assert forall x :: x in es <==> x == e || x in rest;
  }

  lemma EncodedStep(memory: seq<byte>, size: nat, offset: nat, end: nat, rest: seq<Extension>)
    requires offset < end <= size <= |memory| && end - offset <= 0xFFFF && ExtensionAt(memory, size, offset, end).Taken?
    ensures ExtensionStop(memory, offset) <= end
    ensures EncodedList([ExtensionAt(memory, size, offset, end).extension] + rest, memory[offset..end]) <==>
            ComesBack(memory, offset) && EncodedList(rest, memory[ExtensionStop(memory, offset)..end])
  {
    hide ExtensionAt, ExtensionBytes, ComesBack, ExtensionStop, EncodableExtension, WellTypedExtension;
    EarlyExactly(memory, size, offset, end);
    var e := ExtensionAt(memory, size, offset, end).extension;
    EncodedFirst(e, rest, memory[offset..end]);
    if AllWellTyped(rest) {
      FirstBack(memory, size, offset, end, ExtensionListBytes(rest));
    }
  }

  /** The extensions of a block come back exactly if each of them does. */
  lemma {:induction false} ListBack(memory: seq<byte>, size: nat, offset: nat, end: nat)
    requires offset <= end <= size <= |memory| && end - offset <= 0xFFFF
    requires ExtensionListAt(memory, size, offset, end).Some?
    ensures EncodedList(ExtensionListAt(memory, size, offset, end).value, memory[offset..end])
            <==> ListComesBack(memory, offset, end)
    decreases end - offset
  {
    if offset < end {
      EarlyExactly(memory, size, offset, end);
      ListComesBackFirst(memory, offset, end);
      var piece, stop := ExtensionAt(memory, size, offset, end), ExtensionStop(memory, offset);
      if piece.last {
        assert !ComesBack(memory, offset);
        assert [piece.extension] + [] == [piece.extension];
        hide ExtensionAt, ComesBack, ExtensionStop, EncodedList, ListComesBack;
        EncodedStep(memory, size, offset, end, []);
      } else {
        hide ExtensionAt, ComesBack, ExtensionStop, EncodedList, ListComesBack;
        ListBack(memory, size, stop, end);
        EncodedStep(memory, size, offset, end, ExtensionListAt(memory, size, stop, end).value);
      }
    }
  }

  // ---- the extensions of a hello, and the hello

  predicate EncodedBlock(es: seq<Extension>, bytes: seq<byte>) {
    AllWellTyped(es) && AllEncodable(es) && ExtensionsBytes(es) == bytes
  }

  /** A block fits between `from` and `stop` only as its own length says. */
  lemma BlockBack(memory: seq<byte>, size: nat, from: nat, stop: nat)
    requires size <= |memory| && ExtensionsAt(memory, size, from).Good?
    requires from <= stop <= |memory| && stop - from <= 0xFFFF
    ensures EncodedBlock(ExtensionsAt(memory, size, from).value, memory[from..stop]) <==>
            var end := from + 2 + NumberAt(memory, from);
            stop == end && ListComesBack(memory, from + 2, end)
  {
    hide NumberAt, ExtensionListAt, ListComesBack, AllEncodable, U16Bytes, ExtensionListBytes;
    var es, end := ExtensionsAt(memory, size, from).value, from + 2 + NumberAt(memory, from);
    ListBack(memory, size, from + 2, end);
    NumberBack(memory, from);
    TwoByteLength(NumberAt(memory, from));
    Joined(memory, from, from + 2, end);
    if EncodedBlock(es, memory[from..stop]) {
      BlockLength(memory, from, stop, es);
    }
  }

  lemma BlockLength(memory: seq<byte>, from: nat, stop: nat, es: seq<Extension>)
    requires from <= stop <= |memory| && stop - from <= 0xFFFF && EncodedBlock(es, memory[from..stop])
    ensures stop == from + 2 + NumberAt(memory, from) && ExtensionListBytes(es) == memory[from + 2..stop]
  {
    hide NumberAt, U16Bytes, ExtensionListBytes;
    var list := ExtensionListBytes(es);
    TlsRoundTrip.HoldsParts(memory, from, LengthBytes(2, |list|), list);
    TlsRoundTrip.LengthRead(memory, 2, from, |list|);
  }

  lemma AfterFront(memory: seq<byte>, from: nat, middle: nat, stop: nat, rest: seq<byte>)
    requires from <= middle <= |memory| && from <= stop <= |memory|
    ensures memory[from..middle] + rest == memory[from..stop] <==> middle <= stop && rest == memory[middle..stop]
  {
    if middle <= stop {
      Joined(memory, from, middle, stop);
      SameRest(memory[from..middle], rest, memory[middle..stop]);
    } else {
      assert |memory[from..middle] + rest| > stop - from;
    }
  }

  lemma ClientFrontBack(memory: seq<byte>, size: nat, from: nat)
    requires size <= |memory| && ClientHelloAt(memory, size, from).Good?
    ensures var m := ClientHelloAt(memory, size, from).value;
            && from <= ClientBlock(memory, from) <= size && |m.sessionId| <= 0xFF && |m.compressionMethods| <= 0xFF
            && U16Bytes(m.legacyVersion) + m.random + VectorBytes(1, m.sessionId)
               + VectorBytes(2, NumberBytes(m.cipherSuites)) + VectorBytes(1, m.compressionMethods)
               == memory[from..ClientBlock(memory, from)]
  {
    hide NumberAt, At, ExtensionsAt, NumberVectorAt, U16Bytes, NumberBytes, VectorBytes, ByteVectorAt;
    var session := ByteVectorAt(memory, size, from + 34);
    var suites := NumberVectorAt(memory, size, 2, session.end);
    var methods := ByteVectorAt(memory, size, suites.end);
    ByteVectorBack(memory, size, from + 34);
    NumberVectorBack(memory, size, 2, session.end);
    ByteVectorBack(memory, size, suites.end);
    NumberBack(memory, from);
    ByteVectorEnds(memory, size, from + 34);
    ByteVectorEnds(memory, size, suites.end);
    Joined(memory, from, from + 2, from + 34);
    Joined(memory, from, from + 34, session.end);
    Joined(memory, from, session.end, suites.end);
    Joined(memory, from, suites.end, methods.end);
  }

  lemma ByteVectorEnds(memory: seq<byte>, size: nat, from: nat)
    requires size <= |memory| && ByteVectorAt(memory, size, from).Good?
    ensures ByteVectorAt(memory, size, from).end == from + 1 + At(memory, from)
  {
  }

  lemma ServerFrontBack(memory: seq<byte>, size: nat, from: nat)
    requires size <= |memory| && ServerHelloAt(memory, size, from).Good?
    ensures var m := ServerHelloAt(memory, size, from).value;
            && from <= ServerBlock(memory, from) <= size && |m.sessionIdEcho| <= 0xFF
            && U16Bytes(m.legacyVersion) + m.random + VectorBytes(1, m.sessionIdEcho)
               + U16Bytes(m.cipherSuite) + [m.compressionMethod]
               == memory[from..ServerBlock(memory, from)]
  {
    hide NumberAt, ExtensionListAt, RetryTypeOf, U16Bytes, VectorBytes, ByteVectorAt;
    var session := ByteVectorAt(memory, size, from + 34);
    ByteVectorBack(memory, size, from + 34);
    ByteVectorEnds(memory, size, from + 34);
    NumberBack(memory, from);
    NumberBack(memory, session.end);
    Joined(memory, from, from + 2, from + 34);
    Joined(memory, from, from + 34, session.end);
    Joined(memory, from, session.end, session.end + 2);
    Joined(memory, from, session.end + 2, session.end + 3);
    assert memory[session.end + 2..session.end + 3] == [memory[session.end + 2]];
  }

  lemma AllEncodableClient(m: ClientHello)
    requires AllWellTyped(m.extensions)
    requires |m.sessionId| <= 0xFF && |m.compressionMethods| <= 0xFF
    ensures EncodableClientHello(m) <==> AllEncodable(m.extensions)
  {
  }

  lemma AllEncodableServer(m: ServerHello)
    requires AllWellTyped(m.extensions)
    requires |m.sessionIdEcho| <= 0xFF
    ensures EncodableServerHello(m) <==> AllEncodable(m.extensions)
  {
  }

  /** The bytes are the memory from `from` to `stop`. */
  predicate Spells(memory: seq<byte>, from: nat, stop: nat, bytes: seq<byte>)
    requires from <= stop <= |memory|
  {
    bytes == memory[from..stop]
  }

  lemma BlockEnds(memory: seq<byte>, size: nat, from: nat)
    requires size <= |memory| && ExtensionsAt(memory, size, from).Good?
    ensures ExtensionsAt(memory, size, from).end == from + 2 + NumberAt(memory, from)
  {
    hide NumberAt, ExtensionListAt;
  }

  lemma HelloBack(
      memory: seq<byte>, size: nat, from: nat, block: nat, stop: nat, es: seq<Extension>, end: nat)
    requires from <= block <= size <= |memory| && ExtensionsAt(memory, size, block) == Good(es, end)
    requires from <= stop <= |memory| && stop - from <= 0xFFFF
    requires AllWellTyped(es)
    ensures AllEncodable(es) && Spells(memory, from, stop, memory[from..block] + ExtensionsBytes(es)) <==>
            stop == end && ListComesBack(memory, block + 2, stop)
  {
    hide NumberAt, ExtensionsAt, ListComesBack, ExtensionsBytes, AllWellTyped, AllEncodable;
    BlockEnds(memory, size, block);
    AfterFront(memory, from, block, stop, ExtensionsBytes(es));
    if block <= stop {
      BlockBack(memory, size, block, stop);
    }
  }

  /** A hello is its front and its extensions, and comes back if the extensions do. */
  lemma ClientParts(memory: seq<byte>, size: nat, from: nat)
    requires size <= |memory| && ClientHelloAt(memory, size, from).Good?
    ensures var m := ClientHelloAt(memory, size, from).value;
            && AllWellTyped(m.extensions)
            && from <= ClientBlock(memory, from) <= size
            && ClientHelloBytes(m) == memory[from..ClientBlock(memory, from)] + ExtensionsBytes(m.extensions)
            && (EncodableClientHello(m) <==> AllEncodable(m.extensions))
  {
    ClientHelloEnds(memory, size, from);
    ClientFrontBack(memory, size, from);
    hide NumberAt, ClientHelloAt, ExtensionsAt, U16Bytes, NumberBytes, VectorBytes, ExtensionsBytes, ClientBlock;
    ExtensionBlockWellTyped(memory, size, ClientBlock(memory, from));
    AllEncodableClient(ClientHelloAt(memory, size, from).value);
    hide AllEncodable, EncodableClientHello;
  }

  lemma ClientHelloBack(memory: seq<byte>, size: nat, from: nat, stop: nat)
    requires size <= |memory| && ClientHelloAt(memory, size, from).Good?
    requires from <= stop <= |memory| && stop - from <= 0xFFFF
    ensures var m := ClientHelloAt(memory, size, from).value;
            && AllWellTyped(m.extensions)
            && (EncodableClientHello(m) && Spells(memory, from, stop, ClientHelloBytes(m)) <==>
                stop == ClientHelloEnd(memory, from) && ListComesBack(memory, ClientBlock(memory, from) + 2, stop))
  {
    hide NumberAt, At, ClientHelloAt, ExtensionsAt, ListComesBack, ExtensionsBytes, ClientBlock, ClientHelloEnd, Spells;
    hide AllWellTyped, AllEncodable, EncodableClientHello, ClientHelloBytes;
    var m, block := ClientHelloAt(memory, size, from).value, ClientBlock(memory, from);
    ClientHelloEnds(memory, size, from);
    ClientParts(memory, size, from);
    HelloBack(memory, size, from, block, stop, m.extensions, ClientHelloEnd(memory, from));
  }

  /** A hello is its front and its extensions, and comes back if the extensions do. */
  lemma ServerParts(memory: seq<byte>, size: nat, from: nat)
    requires size <= |memory| && ServerHelloAt(memory, size, from).Good?
    ensures var m := ServerHelloAt(memory, size, from).value;
            && AllWellTyped(m.extensions)
            && from <= ServerBlock(memory, from) <= size
            && ServerHelloBytes(m) == memory[from..ServerBlock(memory, from)] + ExtensionsBytes(m.extensions)
            && (EncodableServerHello(m) <==> AllEncodable(m.extensions))
  {
    ServerHelloEnds(memory, size, from);
    ServerFrontBack(memory, size, from);
    hide NumberAt, ServerHelloAt, ExtensionsAt, U16Bytes, VectorBytes, ExtensionsBytes, ServerBlock;
    ExtensionBlockWellTyped(memory, size, ServerBlock(memory, from));
    AllEncodableServer(ServerHelloAt(memory, size, from).value);
    hide AllEncodable, EncodableServerHello;
  }

  lemma ServerHelloBack(memory: seq<byte>, size: nat, from: nat, stop: nat)
    requires size <= |memory| && ServerHelloAt(memory, size, from).Good?
    requires from <= stop <= |memory| && stop - from <= 0xFFFF
    ensures var m := ServerHelloAt(memory, size, from).value;
            && AllWellTyped(m.extensions)
            && (EncodableServerHello(m) && Spells(memory, from, stop, ServerHelloBytes(m)) <==>
                stop == ServerHelloEnd(memory, from) && ListComesBack(memory, ServerBlock(memory, from) + 2, stop))
  {
    hide NumberAt, At, ServerHelloAt, ExtensionsAt, ListComesBack, ExtensionsBytes, ServerBlock, ServerHelloEnd, Spells;
    hide AllWellTyped, AllEncodable, EncodableServerHello, ServerHelloBytes;
    var m, block := ServerHelloAt(memory, size, from).value, ServerBlock(memory, from);
    ServerHelloEnds(memory, size, from);
    ServerParts(memory, size, from);
    HelloBack(memory, size, from, block, stop, m.extensions, ServerHelloEnd(memory, from));
  }

  // ---- a handshake message and a record

  /** A hello comes back: it ends where its message says, and its extensions come back. */
  predicate HandshakeComesBack(memory: seq<byte>, from: nat) {
    var kind, end := At(memory, from), HandshakeEnd(memory, from);
    && (kind == CLIENT_HELLO ==>
          ClientHelloEnd(memory, from + 4) == end && ListComesBack(memory, ClientBlock(memory, from + 4) + 2, end))
    && (kind == SERVER_HELLO ==>
          ServerHelloEnd(memory, from + 4) == end && ListComesBack(memory, ServerBlock(memory, from + 4) + 2, end))
  }

  lemma Number24Back(memory: seq<byte>, i: nat)
    requires i + 3 <= |memory|
    ensures Number24At(memory, i) == U24(memory[i..i + 3])
  {
  }

  lemma HandshakeHeaderBack(memory: seq<byte>, from: nat, h: HandshakeMessage)
    requires HandshakeEnd(memory, from) <= |memory| && WellTyped(h) && h.kind == At(memory, from)
    ensures HandshakeBytes(h) == memory[from..HandshakeEnd(memory, from)] <==>
            HandshakeBody(h) == memory[from + 4..HandshakeEnd(memory, from)]
  {
    hide HandshakeBody, WellTyped, U24Bytes, U24;
    assert Number24At(memory, from + 1) == U24(memory[from + 1..from + 4]) by {
      Number24Back(memory, from + 1);
    }
    hide Number24At;
    var end, body := HandshakeEnd(memory, from), HandshakeBody(h);
    U24Digits(memory[from + 1..from + 4]);
    assert memory[from..from + 4] == [memory[from]] + memory[from + 1..from + 4];
    Joined(memory, from, from + 4, end);
    SameRest(memory[from..from + 4], body, memory[from + 4..end]);
  }

  /** What is encoded of a message is the memory from `from` to where the message says it ends. */
  predicate EncodedMessage(memory: seq<byte>, from: nat, h: HandshakeMessage)
    requires HandshakeEnd(memory, from) <= |memory|
  {
    WellTyped(h) && Encodable(h) && HandshakeBytes(h) == memory[from..HandshakeEnd(memory, from)]
  }

  lemma OfClientBack(memory: seq<byte>, size: nat, from: nat)
    requires HandshakeEnd(memory, from) <= size <= |memory| && HandshakeEnd(memory, from) - from <= 0xFFFF
    requires HandshakeAt(memory, size, from).Some? && At(memory, from) == CLIENT_HELLO
    ensures EncodedMessage(memory, from, HandshakeAt(memory, size, from).value) <==> HandshakeComesBack(memory, from)
  {
    var h, end := HandshakeAt(memory, size, from).value, HandshakeEnd(memory, from);
    ClientHelloBack(memory, size, from + 4, end);
    hide Number24At, ClientHelloEnd, ClientBlock, ListComesBack, ClientHelloAt, EncodableClientHello, ClientHelloBytes;
    hide WellTypedExtension, HandshakeSize;
    HandshakeHeaderBack(memory, from, h);
    HandshakeSizes(h);
    hide HandshakeBytes;
  }

  lemma OfServerBack(memory: seq<byte>, size: nat, from: nat)
    requires HandshakeEnd(memory, from) <= size <= |memory| && HandshakeEnd(memory, from) - from <= 0xFFFF
    requires HandshakeAt(memory, size, from).Some? && At(memory, from) == SERVER_HELLO
    ensures EncodedMessage(memory, from, HandshakeAt(memory, size, from).value) <==> HandshakeComesBack(memory, from)
  {
    var h, end := HandshakeAt(memory, size, from).value, HandshakeEnd(memory, from);
    ServerHelloBack(memory, size, from + 4, end);
    hide Number24At, ServerHelloEnd, ServerBlock, ListComesBack, ServerHelloAt, EncodableServerHello, ServerHelloBytes;
    hide WellTypedExtension, HandshakeSize;
    HandshakeHeaderBack(memory, from, h);
    HandshakeSizes(h);
    hide HandshakeBytes;
  }

  /** Encoding what was decoded of a handshake message gives its bytes exactly on that condition. */
  lemma HandshakeBack(memory: seq<byte>, size: nat, from: nat)
    requires HandshakeEnd(memory, from) <= size <= |memory| && HandshakeEnd(memory, from) - from <= 0xFFFF
    requires HandshakeAt(memory, size, from).Some?
    ensures EncodedMessage(memory, from, HandshakeAt(memory, size, from).value) <==> HandshakeComesBack(memory, from)
  {
    if At(memory, from) == CLIENT_HELLO {
      OfClientBack(memory, size, from);
    } else if At(memory, from) == SERVER_HELLO {
      OfServerBack(memory, size, from);
    } else {
      var h := HandshakeAt(memory, size, from).value;
      hide Number24At, NumberAt;
      HandshakeHeaderBack(memory, from, h);
      HandshakeSizes(h);
      hide HandshakeBytes;
    }
  }

  /** What the encoder makes of a decoded message: nothing but its header unless it is a handshake record. */
  function Reencoded(m: Message): Option<seq<byte>> {
    if m.content.OtherRecord? then Some(RecordBytes(m.kind, m.recordVersion, []))
    else if |m.content.messages| == 1 && WellTyped(m.content.messages[0]) && Encodable(m.content.messages[0]) then
      Some(RecordBytes(m.kind, m.recordVersion, HandshakeBytes(m.content.messages[0])))
    else None
  }

  /** The lengths of a record whose bytes come back: one handshake message, which does, or no payload. */
  predicate RecordComesBack(memory: seq<byte>) {
    if At(memory, 0) == HANDSHAKE then
      HandshakeEnd(memory, 5) == 5 + NumberAt(memory, 3) && HandshakeComesBack(memory, 5)
    else NumberAt(memory, 3) == 0
  }

  lemma RecordHeaderBack(memory: seq<byte>, end: nat, payload: seq<byte>)
    requires end == 5 + NumberAt(memory, 3) <= |memory|
    ensures RecordBytes(At(memory, 0), NumberAt(memory, 1), payload) == memory[..end] <==> payload == memory[5..end]
  {
    hide NumberAt, U16Bytes;
    NumberBack(memory, 1);
    NumberBack(memory, 3);
    TwoByteLength(NumberAt(memory, 3));
    Joined(memory, 0, 1, 3);
    Joined(memory, 0, 3, 5);
    Joined(memory, 0, 5, end);
    assert memory[0..end] == memory[..end];
    SameRest(memory[0..5], payload, memory[5..end]);
  }

  /** A record holds one handshake message exactly if the first goes to its end. */
  lemma OneMessageExactly(memory: seq<byte>, end: nat)
    requires end <= |memory| && HandshakesAt(memory, end, 5).Some?
    ensures 9 <= HandshakeEnd(memory, 5)
    ensures |HandshakesAt(memory, end, 5).value| == 1 <==> HandshakeEnd(memory, 5) == end
    ensures 5 < end ==> HandshakeEnd(memory, 5) <= end && HandshakeAt(memory, end, 5).Some?
    ensures 5 < end ==> HandshakesAt(memory, end, 5).value[..1] == [HandshakeAt(memory, end, 5).value]
  {
    hide HandshakeAt, Number24At;
  }

  /** Encoding a decoded record gives its bytes exactly on that condition, which the lengths in it decide. */
  lemma EncodeUndoesDecodeExactly(memory: seq<byte>, size: nat, before: nat)
    requires size <= |memory| && MessageAt(memory, size, before).Good?
    ensures 5 + NumberAt(memory, 3) <= size
    ensures Reencoded(MessageAt(memory, size, before).value) == Some(memory[..5 + NumberAt(memory, 3)]) <==>
            RecordComesBack(memory)
  {
    hide HandshakeAt, WellTyped, Encodable, HandshakeBytes, HandshakeComesBack, NumberAt, Number24At, RecordBytes;
    hide HandshakeEnd, HandshakesAt;
    var end, m := 5 + NumberAt(memory, 3), MessageAt(memory, size, before).value;
    if At(memory, 0) == HANDSHAKE {
      OneMessageExactly(memory, end);
      if HandshakeEnd(memory, 5) == end {
        HandshakeBack(memory, end, 5);
        HandshakeWellTyped(memory, end, 5);
        RecordHeaderBack(memory, end, HandshakeBytes(m.content.messages[0]));
      }
    } else {
      RecordHeaderBack(memory, end, []);
    }
  }
}
