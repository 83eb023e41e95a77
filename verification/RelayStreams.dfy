/** The relay between byte streams: what the readers cut out of one side is what is written to the other. */
module RelayStreams {
  import opened Bytes
  import opened Framing
  import opened RelaySpec
  import opened RelayRuns

  /** How many records come before the first that is let on to the server. */
  function Withheld(log: seq<Record>): (n: nat)
    ensures n <= |log|
  {
    RelayedShorter(log);
    |log| - |Relayed(log)|
  }

  lemma {:induction false} RelayedShorter(log: seq<Record>)
    ensures |Relayed(log)| <= |log|
  {
    if log != [] {
      RelayedShorter(log[1..]);
    }
  }

  /** An accepted hello that is still looked for: no change_cipher_spec came before it. */
  predicate OpensAt(log: seq<Record>, i: nat) {
    i < |log| && IsAcceptedHello(log[i]) && !HasChangeCipherSpec(log[..i])
  }

  /** The first accepted hello that is looked for is at `n`; there is none when that is the end. */
  predicate OpensFirst(log: seq<Record>, n: nat) {
    (forall i: nat :: i < n ==> !OpensAt(log, i)) && (n < |log| ==> OpensAt(log, n))
  }

  /** What is relayed is all from the first accepted hello on, unless a change_cipher_spec came before it. */
  lemma {:induction false} RelayedTail(log: seq<Record>)
    ensures Relayed(log) == log[Withheld(log)..]
    ensures OpensFirst(log, Withheld(log))
    decreases |log|
  {
    hide IsAcceptedHello, IsChangeCipherSpec;
    if log != [] {
      var first, rest := log[0], log[1..];
      RelayedShorter(log);
      RelayedTail(rest);
      if IsAcceptedHello(first) {
        assert log[..0] == [];
      } else if IsChangeCipherSpec(first) {
        forall i: nat
          ensures !OpensAt(log, i)
        {
          if 0 < i <= |log| {
            assert log[..i][0] == first;
          }
        }
      } else {
        var n := Withheld(rest);
        assert rest[n..] == log[n + 1..];
        forall i: nat | i < n + 1
          ensures !OpensAt(log, i)
        {
          if i > 0 {
            OpensAtShift(log, i - 1);
          }
        }
        if n < |rest| {
          OpensAtShift(log, n);
        }
      }
    }
  }

  lemma OpensAtShift(log: seq<Record>, i: nat)
    requires i + 1 < |log| && !IsChangeCipherSpec(log[0])
    ensures OpensAt(log, i + 1) <==> OpensAt(log[1..], i)
  {
    hide IsAcceptedHello, IsChangeCipherSpec;
    HasAppend(log[..1], log[1..][..i]);
    HasOne(log[0]);
    assert log[..i + 1] == log[..1] + log[1..][..i] && log[..1] == [log[0]];
  }

  lemma {:induction false} ConcatBoth(a: seq<Record>, b: seq<Record>)
    ensures Concat(a + b) == Concat(a) + Concat(b)
  {
    if a == [] {
      assert [] + b == b;
    } else {
      assert (a + b)[1..] == a[1..] + b;
      ConcatBoth(a[1..], b);
      Regroup(a[0], Concat(a[1..]), Concat(b));
    }
  }

  /** The handler is shown this stream's records, none so long that the handler's size argument cuts it. */
  predicate Shown(stream: seq<byte>, log: seq<Record>) {
    && log == AllAsSeen(Split(stream).records)
    && forall r :: r in Split(stream).records ==> |r| - HEADER_SIZE <= 65530
  }

  lemma ShownTiles(stream: seq<byte>, log: seq<Record>)
    requires Shown(stream, log)
    ensures Concat(log) + Split(stream).rest == stream
  {
    SplitTiles(stream);
    SplitYieldsRecords(stream);
    SeenWholeExactly(Split(stream).records);
  }

  /**
   * The client's bytes, from the first accepted hello on, are those written towards the server and in flight, those
   * queued, and those that do not make a record yet: in order, unchanged, none twice. What is held back are the
   * records before it, whole.
   */
  lemma ClientBytesConserved(stream: seq<byte>, events: seq<Event>)
    requires Shown(stream, Run(events).fromClient)
    requires Run(events).pair.client.running
    ensures var s := Run(events);
            var n := Withheld(s.fromClient);
            && OpensFirst(s.fromClient, n)
            && stream == Concat(s.fromClient[..n]) + Concat(Records(s.toServer)) + Concat(s.pair.server.queue)
                         + Split(stream).rest
  {
    hide Run, Split, Relayed, OpensFirst, Withheld, Shown, Orderly;
    var s := Run(events);
    var log, rest := s.fromClient, Split(stream).rest;
    ClientRecordsConserved(events);
    ShownTiles(stream, log);
    RelayedTail(log);
    var n := Withheld(log);
    ConcatBoth(log[..n], log[n..]);
    assert log[..n] + log[n..] == log;
    ConcatBoth(Records(s.toServer), s.pair.server.queue);
    Regroup(Concat(log[..n]), Concat(Records(s.toServer)), Concat(s.pair.server.queue));
  }

  /** The server's bytes all go to the client. */
  lemma ServerBytesConserved(stream: seq<byte>, events: seq<Event>)
    requires Shown(stream, Run(events).fromServer) && Run(events).pair.client.running
    ensures var s := Run(events);
            stream == Concat(s.toClient) + Concat(s.pair.client.queue) + Split(stream).rest
  {
    var s := Run(events);
    ServerRecordsConserved(events);
    ShownTiles(stream, s.fromServer);
    ConcatBoth(s.toClient, s.pair.client.queue);
  }
}
