/** Records made of their parts: how they are cut out of a stream, and what is decoded of them. */
module TlsRecords {
  import opened Bytes
  import opened Options
  import opened TlsDefinition
  import opened TlsWire
  import opened TlsReading
  import opened TlsRoundTrip
  import Framing

  // ---- cutting a stream

  datatype Parts = Parts(kind: byte, version: uint16, payload: seq<byte>)

  /** The payload fits the 16-bit length field. */
  predicate Fits(p: Parts) {
    |p.payload| <= 0xFFFF
  }

  function Wire(p: Parts): seq<byte> {
    RecordBytes(p.kind, p.version, p.payload)
  }

  lemma WireIsRecord(p: Parts)
    requires Fits(p)
    ensures Framing.IsRecord(Wire(p))
  {
    hide U16Bytes;
    var s, length := Wire(p), LengthBytes(2, |p.payload|);
    TwoByteLength(|p.payload|);
    assert s[3..5] == length;
  }

  /** The records are just the bytes a type, a version and a payload of at most 65535 bytes make. */
  lemma RecordExactly(s: seq<byte>)
    ensures Framing.IsRecord(s) <==> exists p :: Fits(p) && s == Wire(p)
  {
    if Framing.IsRecord(s) {
      hide U16Bytes, U16;
      var p := Parts(s[0], U16(s[1..3]), s[5..]);
      U16Digits(s[1..3]);
      U16Digits(s[3..5]);
      assert |p.payload| == U16(s[3..5]);
      TwoByteLength(|p.payload|);
      assert s == [s[0]] + s[1..3] + s[3..5] + s[5..];
      assert Fits(p) && s == Wire(p);
    }
    if p :| Fits(p) && s == Wire(p) {
      WireIsRecord(p);
    }
  }

  function Wires(parts: seq<Parts>): (records: seq<seq<byte>>)
    ensures |records| == |parts|
    ensures forall i :: 0 <= i < |parts| ==> records[i] == Wire(parts[i])
  {
    seq(|parts|, i requires 0 <= i < |parts| => Wire(parts[i]))
  }

  /** Of any records sent one after the other, and a part of one more, just those records are cut out. */
  lemma SentRecordsCutOut(parts: seq<Parts>, rest: seq<byte>)
    requires forall p :: p in parts ==> Fits(p)
    requires !Framing.StartsWithRecord(rest)
    ensures Framing.Split(Concat(Wires(parts)) + rest) == Framing.Pieces(Wires(parts), rest)
  {
    forall i | 0 <= i < |parts|
      ensures Framing.IsRecord(Wires(parts)[i])
    {
      assert parts[i] in parts;
      WireIsRecord(parts[i]);
    }
    Framing.SplitOfRecords(Wires(parts), rest);
    assert Wires(parts) + [] == Wires(parts);
  }

  /** A record followed by anything is cut off first. */
  lemma SentRecordFirst(p: Parts, more: seq<byte>)
    requires Fits(p)
    ensures Framing.Split(Wire(p) + more)
         == Framing.Pieces([Wire(p)] + Framing.Split(more).records, Framing.Split(more).rest)
  {
    WireIsRecord(p);
    Framing.SplitOfRecord(Wire(p), more);
  }

  /** Of a record above the 16-bit size the handler sees fewer bytes than a header has, and decodes none of it. */
  lemma LongRecordRefused(p: Parts, before: nat)
    requires Fits(p) && |p.payload| > 65530
    ensures var seen := Framing.AsSeen(Wire(p));
            |seen| == |p.payload| - 65531 < 5 && seen <= Wire(p) && MessageAt(seen, |seen|, before) == Bad
  {
  }

  // ---- decoding

  /** A record that is no handshake decodes to its payload, whatever that is, and is consumed whole. */
  lemma OtherRecordRead(p: Parts, more: seq<byte>, before: nat)
    requires Fits(p) && p.kind != HANDSHAKE
    ensures var record := Wire(p);
            forall size :: |record| <= size <= |record + more| ==>
              MessageAt(record + more, size, before)
              == Good(Message(p.kind, p.version, OtherRecord(p.payload)), |record|)
  {
    hide NumberAt, RecordBytes;
    RecordRead(p.kind, p.version, p.payload, more);
  }

  predicate AllEncodableMessages(hs: seq<HandshakeMessage>) {
    forall h :: h in hs ==> WellTyped(h) && Encodable(h)
  }

  /** Handshake messages one after the other. */
  function FlightBytes(hs: seq<HandshakeMessage>): seq<byte>
    requires forall h :: h in hs ==> WellTyped(h)
  {
    if hs == [] then [] else HandshakeBytes(hs[0]) + FlightBytes(hs[1..])
  }

  function AllDerived(hs: seq<HandshakeMessage>): (derived: seq<HandshakeMessage>)
    ensures |derived| == |hs|
    ensures forall i :: 0 <= i < |hs| ==> derived[i] == DerivedHandshake(hs[i])
  {
    seq(|hs|, i requires 0 <= i < |hs| => DerivedHandshake(hs[i]))
  }

  lemma {:induction false} FlightAt(memory: seq<byte>, size: nat, from: nat, hs: seq<HandshakeMessage>)
    requires AllEncodableMessages(hs)
    requires Holds(memory, from, FlightBytes(hs)) && from + |FlightBytes(hs)| == size <= |memory|
    ensures HandshakesAt(memory, size, from) == Some(AllDerived(hs))
    decreases |hs|
  {
    hide HandshakeAt, HandshakeEnd, HandshakeBytes, Holds, Encodable, WellTyped, DerivedHandshake;
    if hs != [] {
      var h, rest := hs[0], hs[1..];
      HoldsParts(memory, from, HandshakeBytes(h), FlightBytes(rest));
      HandshakeRead(memory, size, from, h);
      FlightAt(memory, size, from + |HandshakeBytes(h)|, rest);
      assert HandshakeBytes(h) != [] by {
        HasHeader(h);
      }
      assert [DerivedHandshake(h)] + AllDerived(rest) == AllDerived(hs);
    }
  }

  lemma HasHeader(h: HandshakeMessage)
    requires WellTyped(h)
    ensures |HandshakeBytes(h)| >= 4
  {
  }

  /** A record made of any handshake messages decodes to them, whatever bytes follow, and is consumed whole. */
  lemma FlightRead(version: uint16, hs: seq<HandshakeMessage>, more: seq<byte>, before: nat)
    requires AllEncodableMessages(hs) && |FlightBytes(hs)| <= 0xFFFF
    ensures var record := RecordBytes(HANDSHAKE, version, FlightBytes(hs));
            forall size :: |record| <= size <= |record + more| ==>
              MessageAt(record + more, size, before)
              == Good(Message(HANDSHAKE, version, Handshake(AllDerived(hs))), if hs == [] then before else |record|)
  {
    hide NumberAt, RecordBytes, HandshakesAt, Holds, HandshakeBytes, Encodable, WellTyped;
    var record := RecordBytes(HANDSHAKE, version, FlightBytes(hs));
    RecordRead(HANDSHAKE, version, FlightBytes(hs), more);
    FlightAt(record + more, |record|, 5, hs);
    if hs != [] {
      HasHeader(hs[0]);
    }
  }
}
