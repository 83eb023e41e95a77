/** What the decoder's verdict depends on, and how the handshake messages lie in their record. */
module TlsLocality {
  import opened Bytes
  import opened TlsDefinition
  import opened TlsReading

  /** Two memories with the same first `n` bytes. */
  predicate Agree(m1: seq<byte>, m2: seq<byte>, n: nat) {
    n <= |m1| && n <= |m2| && m1[..n] == m2[..n]
  }

  lemma AgreeAt(m1: seq<byte>, m2: seq<byte>, n: nat)
    requires Agree(m1, m2, n)
    ensures forall i :: 0 <= i < n ==> At(m1, i) == At(m2, i)
  {
  }

  lemma AgreeSlice(m1: seq<byte>, m2: seq<byte>, n: nat, a: nat, b: nat)
    requires Agree(m1, m2, n) && a <= b <= n
    ensures m1[a..b] == m2[a..b]
  {
  }

  lemma ByteVectorLocal(m1: seq<byte>, m2: seq<byte>, size: nat, from: nat)
    requires Agree(m1, m2, size)
    ensures ByteVectorAt(m1, size, from) == ByteVectorAt(m2, size, from)
  {
    AgreeAt(m1, m2, size);
    if from + 1 <= size && from + 1 + At(m1, from) <= size {
      AgreeSlice(m1, m2, size, from + 1, from + 1 + At(m1, from));
    }
  }

  lemma NumberVectorLocal(m1: seq<byte>, m2: seq<byte>, size: nat, width: nat, from: nat)
    requires Agree(m1, m2, size) && (width == 1 || width == 2)
    ensures NumberVectorAt(m1, size, width, from) == NumberVectorAt(m2, size, width, from)
  {
    AgreeAt(m1, m2, size);
    if from + width <= size {
      var length := LengthAt(m1, width, from);
      assert length == LengthAt(m2, width, from);
      if from + width + length <= size {
        assert NumbersAt(m1, from + width, length / 2) == NumbersAt(m2, from + width, length / 2);
      }
    }
  }

  lemma ExtensionBodyLocal(m1: seq<byte>, m2: seq<byte>, size: nat, kind: uint16, body: nat, stop: nat)
    requires Agree(m1, m2, size) && body <= stop <= size
    ensures ExtensionBodyAt(m1, size, kind, body, stop) == ExtensionBodyAt(m2, size, kind, body, stop)
  {
    if kind == SERVER_NAME {
      ServerNameLocal(m1, m2, size, body, stop - body);
    } else if kind == SUPPORTED_GROUPS {
      NumberVectorLocal(m1, m2, size, 2, body);
    } else if kind == SUPPORTED_VERSIONS {
      AgreeAt(m1, m2, size);
      NumberVectorLocal(m1, m2, size, 1, body);
    } else {
      AgreeSlice(m1, m2, size, body, stop);
    }
  }

  lemma ExtensionLocal(m1: seq<byte>, m2: seq<byte>, size: nat, offset: nat, end: nat)
    requires Agree(m1, m2, size) && offset < end <= size
    ensures ExtensionAt(m1, size, offset, end) == ExtensionAt(m2, size, offset, end)
  {
    hide ExtensionBodyAt, NumberAt, Agree;
    if offset + 4 <= end {
      AgreeNumber(m1, m2, size, offset);
      AgreeNumber(m1, m2, size, offset + 2);
      var stop := offset + 4 + NumberAt(m1, offset + 2);
      if stop <= end {
        ExtensionBodyLocal(m1, m2, size, NumberAt(m1, offset), offset + 4, stop);
      }
    }
  }

  lemma AgreeNumber(m1: seq<byte>, m2: seq<byte>, n: nat, i: nat)
    requires Agree(m1, m2, n) && i + 2 <= n
    ensures NumberAt(m1, i) == NumberAt(m2, i)
  {
  }

  /** The name's header is read up to two bytes past the extension, but then the name is refused. */
  lemma ServerNameLocal(m1: seq<byte>, m2: seq<byte>, size: nat, body: nat, length: nat)
    requires Agree(m1, m2, size) && body + length <= size
    ensures ServerNameAt(m1, body, length) == ServerNameAt(m2, body, length)
  {
    AgreeAt(m1, m2, size);
    if length >= 5 {
      AgreeSlice(m1, m2, size, body + 5, body + length);
    }
  }

  lemma {:induction false} ExtensionListLocal(m1: seq<byte>, m2: seq<byte>, size: nat, offset: nat, end: nat)
    requires Agree(m1, m2, size) && end <= size
    ensures ExtensionListAt(m1, size, offset, end) == ExtensionListAt(m2, size, offset, end)
    decreases end - offset
  {
    if offset < end {
      ExtensionLocal(m1, m2, size, offset, end);
      var piece := ExtensionAt(m1, size, offset, end);
      if piece.Taken? && !piece.last {
        ExtensionListLocal(m1, m2, size, piece.next, end);
      }
    }
  }

  lemma ExtensionsLocal(m1: seq<byte>, m2: seq<byte>, size: nat, from: nat)
    requires Agree(m1, m2, size)
    ensures ExtensionsAt(m1, size, from) == ExtensionsAt(m2, size, from)
    ensures ExtensionsAt(m1, size, from).Good? ==> from + 2 <= ExtensionsAt(m1, size, from).end <= size
  {
    hide NumberAt, ExtensionListAt;
    if from + 2 <= size {
      AgreeNumber(m1, m2, size, from);
      var end := from + 2 + NumberAt(m1, from);
      if end <= size {
        ExtensionListLocal(m1, m2, size, from + 2, end);
      }
    }
  }

  lemma ClientHelloLocal(m1: seq<byte>, m2: seq<byte>, size: nat, from: nat)
    requires Agree(m1, m2, size)
    ensures ClientHelloAt(m1, size, from) == ClientHelloAt(m2, size, from)
  {
    hide ByteVectorAt, NumberVectorAt, ExtensionsAt, NumberAt;
    if from + 34 <= size {
      AgreeNumber(m1, m2, size, from);
      AgreeSlice(m1, m2, size, from + 2, from + 34);
      ByteVectorLocal(m1, m2, size, from + 34);
      var a := ByteVectorAt(m1, size, from + 34);
      if a.Good? {
        NumberVectorLocal(m1, m2, size, 2, a.end);
        var b := NumberVectorAt(m1, size, 2, a.end);
        if b.Good? {
          ByteVectorLocal(m1, m2, size, b.end);
          var c := ByteVectorAt(m1, size, b.end);
          if c.Good? {
            ExtensionsLocal(m1, m2, size, c.end);
          }
        }
      }
    }
  }

  /** The suite and compression method may lie beyond the bound; the extensions then are refused. */
  lemma ServerHelloLocal(m1: seq<byte>, m2: seq<byte>, size: nat, from: nat)
    requires Agree(m1, m2, size)
    ensures ServerHelloAt(m1, size, from) == ServerHelloAt(m2, size, from)
  {
    hide RetryTypeOf, ByteVectorAt, ExtensionsAt, NumberAt;
    if from + 34 <= size {
      AgreeAt(m1, m2, size);
      AgreeNumber(m1, m2, size, from);
      AgreeSlice(m1, m2, size, from + 2, from + 34);
      ByteVectorLocal(m1, m2, size, from + 34);
      var a := ByteVectorAt(m1, size, from + 34);
      if a.Good? {
        ExtensionsLocal(m1, m2, size, a.end + 3);
        if ExtensionsAt(m1, size, a.end + 3).Good? {
          AgreeNumber(m1, m2, size, a.end);
        }
      }
    }
  }

  /** A header cut off by the bound makes the message end beyond it, whatever the missing bytes are. */
  lemma HandshakeEndLocal(m1: seq<byte>, m2: seq<byte>, size: nat, from: nat)
    requires Agree(m1, m2, size) && from < size
    ensures HandshakeEnd(m1, from) <= size || HandshakeEnd(m2, from) <= size ==>
              HandshakeEnd(m1, from) == HandshakeEnd(m2, from)
    ensures At(m1, from) == At(m2, from)
  {
  }

  lemma HandshakeLocal(m1: seq<byte>, m2: seq<byte>, size: nat, from: nat)
    requires Agree(m1, m2, size) && HandshakeEnd(m1, from) == HandshakeEnd(m2, from) <= size
    ensures HandshakeAt(m1, size, from) == HandshakeAt(m2, size, from)
  {
    HandshakeEndLocal(m1, m2, size, from);
    ClientHelloLocal(m1, m2, size, from + 4);
    ServerHelloLocal(m1, m2, size, from + 4);
    AgreeSlice(m1, m2, size, from + 4, HandshakeEnd(m1, from));
  }

  lemma {:induction false} HandshakesLocal(m1: seq<byte>, m2: seq<byte>, size: nat, from: nat)
    requires Agree(m1, m2, size)
    ensures HandshakesAt(m1, size, from) == HandshakesAt(m2, size, from)
    decreases size - from
  {
    if from < size {
      HandshakeEndLocal(m1, m2, size, from);
      var end := HandshakeEnd(m1, from);
      if end <= size {
        HandshakeLocal(m1, m2, size, from);
        HandshakesLocal(m1, m2, size, end);
      }
    }
  }

  /**
   * The verdict and the message depend on the first `size` bytes alone, and a good verdict does not go beyond
   * them. An end offset left as it was may: for an empty handshake record, and for no other.
   */
  lemma Locality(m1: seq<byte>, m2: seq<byte>, size: nat, before: nat)
    requires Agree(m1, m2, size)
    ensures MessageAt(m1, size, before) == MessageAt(m2, size, before)
    ensures MessageAt(m1, size, before).Good? ==>
              var end := MessageAt(m1, size, before).end;
              && 5 + NumberAt(m1, 3) <= size
              && end == if At(m1, 0) == HANDSHAKE && NumberAt(m1, 3) == 0 then before else 5 + NumberAt(m1, 3)
  {
    hide NumberAt, HandshakesAt;
    AgreeAt(m1, m2, size);
    if size >= 5 {
      AgreeNumber(m1, m2, size, 1);
      AgreeNumber(m1, m2, size, 3);
      var end := 5 + NumberAt(m1, 3);
      if end <= size {
        AgreeSlice(m1, m2, size, 0, end);
        HandshakesLocal(m1, m2, end, 5);
        AgreeSlice(m1, m2, size, 5, end);
      }
    }
  }

  // ---- the handshake messages of a record

  /** The bytes of the handshake messages from `from` on, by their own lengths. */
  function Frames(memory: seq<byte>, size: nat, from: nat): seq<seq<byte>>
    requires size <= |memory|
    decreases size - from
  {
    if from >= size || HandshakeEnd(memory, from) > size then []
    else [memory[from..HandshakeEnd(memory, from)]] + Frames(memory, size, HandshakeEnd(memory, from))
  }

  /** A frame says its own length, and its type is the message's. */
  predicate FrameOf(frame: seq<byte>, h: HandshakeMessage) {
    && |frame| >= 4
    && |frame| == 4 + U24(frame[1..4])
    && frame[0] == h.kind
    && (h.content.OtherHandshake? ==> frame[4..] == h.content.data)
  }

  /** The messages of a handshake record fill its payload without gap or overlap, each in its own frame. */
  lemma {:induction false} FramesTile(memory: seq<byte>, size: nat, from: nat)
    requires from <= size <= |memory| && HandshakesAt(memory, size, from).Some?
    ensures Concat(Frames(memory, size, from)) == memory[from..size]
    ensures |Frames(memory, size, from)| == |HandshakesAt(memory, size, from).value|
    ensures forall i :: 0 <= i < |Frames(memory, size, from)| ==>
              FrameOf(Frames(memory, size, from)[i], HandshakesAt(memory, size, from).value[i])
    decreases size - from
  {
    hide ClientHelloAt, ServerHelloAt;
    if from < size {
      var end := HandshakeEnd(memory, from);
      var frame, rest := memory[from..end], Frames(memory, size, end);
      FramesTile(memory, size, end);
      assert Frames(memory, size, from)[1..] == rest;
      assert memory[from..size] == frame + memory[end..size];
      assert frame[4..] == memory[from + 4..end];
      var h := HandshakeAt(memory, size, from).value;
      assert FrameOf(frame, h);
      var hs, tail := HandshakesAt(memory, size, from).value, HandshakesAt(memory, size, end).value;
      assert hs == [h] + tail;
      assert forall i :: 0 < i < |hs| ==> hs[i] == tail[i - 1] && ([frame] + rest)[i] == rest[i - 1];
    }
  }

  // ---- the variants of a decoded message

  lemma {:induction false} ExtensionsWellTyped(memory: seq<byte>, size: nat, offset: nat, end: nat)
    requires end <= size <= |memory| && ExtensionListAt(memory, size, offset, end).Some?
    ensures AllWellTyped(ExtensionListAt(memory, size, offset, end).value)
    decreases end - offset
  {
    if offset < end {
      var piece := ExtensionAt(memory, size, offset, end);
      assert WellTypedExtension(piece.extension);
      if !piece.last {
        ExtensionsWellTyped(memory, size, piece.next, end);
      }
    }
  }

  lemma HandshakeWellTyped(memory: seq<byte>, size: nat, from: nat)
    requires HandshakeEnd(memory, from) <= size <= |memory| && HandshakeAt(memory, size, from).Some?
    ensures WellTyped(HandshakeAt(memory, size, from).value)
  {
    var h := HandshakeAt(memory, size, from).value;
    if h.kind == CLIENT_HELLO {
      var at := NumberVectorAt(memory, size, 2, ByteVectorAt(memory, size, from + 38).end).end;
      ExtensionBlockWellTyped(memory, size, ByteVectorAt(memory, size, at).end);
    } else if h.kind == SERVER_HELLO {
      ExtensionBlockWellTyped(memory, size, ByteVectorAt(memory, size, from + 38).end + 3);
    }
  }

  lemma ExtensionBlockWellTyped(memory: seq<byte>, size: nat, from: nat)
    requires size <= |memory| && ExtensionsAt(memory, size, from).Good?
    ensures AllWellTyped(ExtensionsAt(memory, size, from).value)
  {
    ExtensionsWellTyped(memory, size, from + 2, from + 2 + NumberAt(memory, from));
  }

  /** Every message the decoder yields holds the variants its types call for, so no access to one fails. */
  lemma {:induction false} DecodedWellTyped(memory: seq<byte>, size: nat, from: nat)
    requires size <= |memory| && HandshakesAt(memory, size, from).Some?
    ensures forall h :: h in HandshakesAt(memory, size, from).value ==> WellTyped(h)
    decreases size - from
  {
    if from < size {
      HandshakeWellTyped(memory, size, from);
      DecodedWellTyped(memory, size, HandshakeEnd(memory, from));
    }
  }
}
