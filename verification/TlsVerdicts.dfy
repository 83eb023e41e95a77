/** When the decoder refuses a record: by its length fields, its types and nothing else. */
module TlsVerdicts {
  import opened Bytes
  import opened Options
  import opened TlsDefinition
  import opened TlsReading
  import opened TlsFrames

  // ---- extensions

  /** A list of numbers that has an odd length or passes the end of the record. */
  predicate BadNumbers(memory: seq<byte>, size: nat, width: nat, body: nat) {
    LengthAt(memory, width, body) % 2 == 1 || body + width + LengthAt(memory, width, body) > size
  }

  /** The name does not fill its extension, or is of another type. */
  predicate BadName(memory: seq<byte>, body: nat, length: nat) {
    length < 5 || length != 5 + NumberAt(memory, body + 3) || At(memory, body + 2) != HOST_NAME
  }

  /** The extension passes the end of its block, or its body is not what its type calls for. */
  predicate BadExtension(memory: seq<byte>, size: nat, offset: nat, end: nat) {
    var kind, length, body := ExtensionKind(memory, offset), ExtensionLength(memory, offset), offset + 4;
    || body > end || ExtensionStop(memory, offset) > end
    || (kind == SERVER_NAME && length != 0 && BadName(memory, body, length))
    || (kind == SUPPORTED_GROUPS && BadNumbers(memory, size, 2, body))
    || (kind == SUPPORTED_VERSIONS && length < 2)
    || (kind == SUPPORTED_VERSIONS && length > 2 && BadNumbers(memory, size, 1, body))
  }

  lemma ExtensionRefusedExactly(memory: seq<byte>, size: nat, offset: nat, end: nat)
    requires offset < end <= size <= |memory|
    ensures ExtensionAt(memory, size, offset, end).Refused? <==> BadExtension(memory, size, offset, end)
  {
    hide NumberAt, At, NumbersAt;
  }

  /** A bad extension which none comes before that ends the list early. */
  predicate BadAt(memory: seq<byte>, size: nat, starts: seq<nat>, k: nat, end: nat) {
    && k < |starts|
    && BadExtension(memory, size, starts[k], end)
    && forall j :: 0 <= j < k ==> !EndsEarly(memory, starts[j])
  }

  predicate BadList(memory: seq<byte>, size: nat, offset: nat, end: nat) {
    var starts := ExtensionStarts(memory, offset, end);
    exists k :: 0 <= k < |starts| && BadAt(memory, size, starts, k, end)
  }

  lemma {:induction false} ListRefusedExactly(memory: seq<byte>, size: nat, offset: nat, end: nat)
    requires end <= size <= |memory|
    ensures ExtensionListAt(memory, size, offset, end).None? <==> BadList(memory, size, offset, end)
    decreases end - offset
  {
    hide ExtensionAt, BadExtension, EndsEarly, ExtensionKind, ExtensionLength;
    if offset < end {
      ExtensionRefusedExactly(memory, size, offset, end);
      var starts, piece := ExtensionStarts(memory, offset, end), ExtensionAt(memory, size, offset, end);
      if piece.Refused? {
        assert BadAt(memory, size, starts, 0, end);
      } else {
        EarlyExactly(memory, size, offset, end);
        var rest := ExtensionStarts(memory, ExtensionStop(memory, offset), end);
        assert starts == [offset] + rest;
        if piece.last {
          assert EndsEarly(memory, starts[0]);
        } else {
          ListRefusedExactly(memory, size, piece.next, end);
          LaterBad(memory, size, offset, rest, end);
        }
      }
    }
  }

  /** An extension that is good and does not end the list leaves the verdict to the others. */
  lemma LaterBad(memory: seq<byte>, size: nat, offset: nat, rest: seq<nat>, end: nat)
    requires !BadExtension(memory, size, offset, end) && !EndsEarly(memory, offset)
    ensures (exists k: nat :: BadAt(memory, size, [offset] + rest, k, end)) <==>
            exists k: nat :: BadAt(memory, size, rest, k, end)
  {
    hide BadExtension, EndsEarly;
    if k: nat :| BadAt(memory, size, rest, k, end) {
      assert BadAt(memory, size, [offset] + rest, k + 1, end);
    }
    if k: nat :| BadAt(memory, size, [offset] + rest, k, end) {
      assert forall j :: 0 <= j < |rest| ==> rest[j] == ([offset] + rest)[j + 1];
      assert BadAt(memory, size, rest, k - 1, end);
    }
  }

  predicate TakenAs(memory: seq<byte>, size: nat, start: nat, end: nat, e: Extension)
    requires end <= size <= |memory|
  {
    && start < end
    && ExtensionAt(memory, size, start, end).Taken?
    && ExtensionAt(memory, size, start, end).extension == e
  }

  /** The extensions of a list that is taken, each decoded where the one before says it ends. */
  lemma {:induction false} ExtensionsInOrder(memory: seq<byte>, size: nat, offset: nat, end: nat)
    requires end <= size <= |memory| && ExtensionListAt(memory, size, offset, end).Some?
    ensures var es := ExtensionListAt(memory, size, offset, end).value;
            var starts := ExtensionStarts(memory, offset, end);
            && |es| <= |starts|
            && (forall k :: 0 <= k < |es| ==> TakenAs(memory, size, starts[k], end, es[k]))
            && (|es| < |starts| <==> exists k :: 0 <= k < |starts| - 1 && EndsEarly(memory, starts[k]))
    decreases end - offset
  {
    hide ExtensionAt, EndsEarly, ExtensionKind, ExtensionLength;
    if offset < end {
      EarlyExactly(memory, size, offset, end);
      var piece := ExtensionAt(memory, size, offset, end);
      var es, starts := ExtensionListAt(memory, size, offset, end).value, ExtensionStarts(memory, offset, end);
      var rest := ExtensionStarts(memory, ExtensionStop(memory, offset), end);
      assert starts == [offset] + rest;
      if !piece.last {
        ExtensionsInOrder(memory, size, piece.next, end);
        var tail := ExtensionListAt(memory, size, piece.next, end).value;
        assert es == [piece.extension] + tail;
        assert forall k :: 0 <= k < |rest| ==> rest[k] == starts[k + 1];
        assert forall k :: 0 < k < |starts| ==> starts[k] == rest[k - 1];
      } else {
        assert starts[0] == offset;
      }
    }
  }

  // ---- hellos

  /** The block of extensions at `from` passes the end of the record or has a bad one. */
  predicate BadBlock(memory: seq<byte>, size: nat, from: nat) {
    var end := from + 2 + NumberAt(memory, from);
    end > size || BadList(memory, size, from + 2, end)
  }

  lemma BlockRefusedExactly(memory: seq<byte>, size: nat, from: nat)
    requires size <= |memory|
    ensures ExtensionsAt(memory, size, from).Bad? <==> BadBlock(memory, size, from)
  {
    hide NumberAt, ExtensionListAt, BadList;
    var end := from + 2 + NumberAt(memory, from);
    if end <= size {
      ListRefusedExactly(memory, size, from + 2, end);
    }
  }

  /** Where the cipher suites of the ClientHello at `from` are. */
  function ClientSuites(memory: seq<byte>, from: nat): nat {
    from + 35 + At(memory, from + 34)
  }

  lemma ClientHelloRefusedExactly(memory: seq<byte>, size: nat, from: nat)
    requires size <= |memory|
    ensures ClientHelloAt(memory, size, from).Bad? <==>
            NumberAt(memory, ClientSuites(memory, from)) % 2 == 1 || BadBlock(memory, size, ClientBlock(memory, from))
  {
    hide NumberAt, At, ExtensionsAt, BadList, NumbersAt;
    BlockRefusedExactly(memory, size, ClientBlock(memory, from));
  }

  lemma ServerHelloRefusedExactly(memory: seq<byte>, size: nat, from: nat)
    requires size <= |memory|
    ensures ServerHelloAt(memory, size, from).Bad? <==> BadBlock(memory, size, ServerBlock(memory, from))
  {
    hide NumberAt, At, ExtensionsAt, BadList, RetryTypeOf;
    BlockRefusedExactly(memory, size, ServerBlock(memory, from));
  }

  // ---- handshake messages

  /** Where each message of a payload starts, by their own lengths. */
  function MessageStarts(memory: seq<byte>, from: nat, end: nat): seq<nat>
    decreases end - from
  {
    if from >= end then [] else [from] + MessageStarts(memory, HandshakeEnd(memory, from), end)
  }

  /** The message passes the end of the record, or is a hello that is refused. */
  predicate BadMessage(memory: seq<byte>, end: nat, from: nat) {
    || HandshakeEnd(memory, from) > end
    || (At(memory, from) == CLIENT_HELLO &&
          (NumberAt(memory, ClientSuites(memory, from + 4)) % 2 == 1
           || BadBlock(memory, end, ClientBlock(memory, from + 4))))
    || (At(memory, from) == SERVER_HELLO && BadBlock(memory, end, ServerBlock(memory, from + 4)))
  }

  lemma {:induction false} MessagesRefusedExactly(memory: seq<byte>, end: nat, from: nat)
    requires end <= |memory|
    ensures HandshakesAt(memory, end, from).None? <==>
            exists start :: start in MessageStarts(memory, from, end) && BadMessage(memory, end, start)
    decreases end - from
  {
    hide NumberAt, At, ClientHelloAt, ServerHelloAt, Number24At, BadBlock, ClientSuites, ClientBlock, ServerBlock;
    if from < end {
      var starts, next := MessageStarts(memory, from, end), HandshakeEnd(memory, from);
      assert from in starts;
      ClientHelloRefusedExactly(memory, end, from + 4);
      ServerHelloRefusedExactly(memory, end, from + 4);
      if next <= end {
        MessagesRefusedExactly(memory, end, next);
        assert forall start :: start in starts <==> start == from || start in MessageStarts(memory, next, end);
      }
    }
  }

  /** The messages of a record that is taken, each decoded where the one before says it ends. */
  lemma {:induction false} MessagesInOrder(memory: seq<byte>, end: nat, from: nat)
    requires end <= |memory| && HandshakesAt(memory, end, from).Some?
    ensures var hs, starts := HandshakesAt(memory, end, from).value, MessageStarts(memory, from, end);
            && |hs| == |starts|
            && (forall k :: 0 <= k < |hs| ==> HandshakeEnd(memory, starts[k]) <= end)
            && (forall k :: 0 <= k < |hs| ==> Some(hs[k]) == HandshakeAt(memory, end, starts[k]))
    decreases end - from
  {
    hide HandshakeAt, Number24At;
    if from < end {
      var next := HandshakeEnd(memory, from);
      MessagesInOrder(memory, end, next);
      var starts, rest := MessageStarts(memory, from, end), MessageStarts(memory, next, end);
      assert forall k :: 0 < k < |starts| ==> starts[k] == rest[k - 1];
    }
  }

  /**
   * A record is refused exactly if it is not there whole, or it is a handshake record with a message that passes its
   * end, a ClientHello with half a cipher suite, or a hello with extensions that pass its end or a bad one of them.
   */
  lemma RefusedExactly(memory: seq<byte>, size: nat, before: nat)
    requires size <= |memory|
    ensures var end := 5 + NumberAt(memory, 3);
            MessageAt(memory, size, before) == Bad <==>
            || end > size
            || (At(memory, 0) == HANDSHAKE &&
                  exists start :: start in MessageStarts(memory, 5, end) && BadMessage(memory, end, start))
  {
    hide NumberAt, At, HandshakesAt, BadMessage;
    var end := 5 + NumberAt(memory, 3);
    if end <= size {
      MessagesRefusedExactly(memory, end, 5);
    }
  }
}
