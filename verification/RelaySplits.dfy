/** When a client's records can still come to be written over two connections. */
module RelaySplits {
  import opened Options
  import opened TlsDefinition
  import opened TlsReading
  import opened RelaySpec
  import opened RelayRuns
  import opened RelayHosts

  /** Two writes went over different connections. */
  predicate Splits(s: Relay) {
    exists i, j :: 0 <= i < |s.toServer| && 0 <= j < |s.toServer| && s.toServer[i].link != s.toServer[j].link
  }

  /** Some run that goes on from this one splits. */
  ghost predicate CanSplit(events: seq<Event>) {
    exists later :: events <= later && Splits(Run(later))
  }

  /** The client may have another check made: it is neither connected nor encrypting. */
  predicate MayAsk(s: Relay) {
    !s.pair.client.connectedToHost && !s.pair.client.clientEncrypted
  }

  // ---- with one check and no more to come there is one connection

  /** At most one check was asked for, and no more will be. */
  predicate AskedOut(s: Relay) {
    s.asked <= 1 && (s.pair.client.running ==> !MayAsk(s))
  }

  lemma AskedOutClient(s: Relay, record: Record)
    requires s.pair.client.running && AskedOut(s)
    ensures AskedOut(Next(s, ClientRecord(record)))
  {
    hide Read;
    if record != [] {
      StopsOrGoesOn(s.pair, record);
      if OnClientRecord(s.pair, record).0.client.running {
        TakenByTaker(s.pair, record);
      }
    }
  }

  lemma AskedOutServer(s: Relay, record: Record)
    requires AskedOut(s) && Enabled(s, ServerRecord(record))
    ensures AskedOut(Next(s, ServerRecord(record)))
  {
    hide Read;
  }

  lemma AskedOutStep(s: Relay, e: Event)
    requires AskedOut(s)
    ensures AskedOut(Next(s, e))
  {
    if Enabled(s, e) {
      match e
      case ClientRecord(record) => AskedOutClient(s, record);
      case ServerRecord(record) => AskedOutServer(s, record);
      case _ =>
    }
  }

  lemma {:induction false} AskedOutRun(events: seq<Event>, later: seq<Event>)
    requires events <= later && AskedOut(Run(events))
    ensures AskedOut(Run(later))
    decreases |later|
  {
    if |later| > |events| {
      var front := later[..|later| - 1];
      assert events <= front;
      AskedOutRun(events, front);
      AskedOutStep(Run(front), later[|later| - 1]);
    } else {
      assert later == events;
    }
  }

  /** All writes over one connection if there is but one check. */
  lemma OneCheckOneLink(events: seq<Event>)
    requires Run(events).asked <= 1
    ensures !Splits(Run(events))
  {
    hide Run;
    var s := Run(events);
    forall i | 0 <= i < |s.toServer|
      ensures s.toServer[i].link == 1
    {
      OneConnection(events, i);
    }
  }

  // ---- the first write is over the first connection

  /** With a connection made there was a write, and the first went over the first connection. */
  predicate FirstLink(s: Relay) {
    if s.links == 0 then s.toServer == [] else s.toServer != [] && s.toServer[0].link == 1
  }

  /** What a step adds to the writes; only a connection made adds one of its own. */
  lemma WritesGrow(s: Relay, e: Event)
    ensures s.toServer <= Next(s, e).toServer
    ensures Next(s, e).links == s.links || (e.Connected? && e.ok && Enabled(s, e) && Next(s, e).links == s.links + 1)
  {
    hide OnClientRecord, OnServerRecord, DoWrite;
  }

  lemma FirstConnection(s: Relay, host: HostName)
    requires Invariant(s) && FirstLink(s) && Enabled(s, Connected(host, true)) && s.links == 0
    ensures FirstLink(Next(s, Connected(host, true)))
  {
    assert |s.connects| > 0;
    assert s.pair.server.queue == Relayed(s.fromClient) != [] && s.pair.server.writing.Idle?;
    hide Invariant, DoWrite, Relayed, Next;
    WriteStep(s, host);
  }

  lemma FirstLinkStep(s: Relay, e: Event)
    requires Invariant(s) && FirstLink(s)
    ensures FirstLink(Next(s, e))
  {
    hide Invariant, Next;
    WritesGrow(s, e);
    NextKeeps(s, e);
    if Next(s, e).links == 0 {
      NoLinkNoWrites(Next(s, e));
    } else if s.links == 0 {
      FirstConnection(s, e.connected);
    }
  }

  lemma WrittenLinked(s: Relay, i: nat)
    requires Invariant(s) && i < |s.toServer|
    ensures s.links > 0
  {
    assert 0 < s.toServer[i].link <= s.links;
  }

  lemma NoLinkNoWrites(s: Relay)
    requires Invariant(s) && s.links == 0
    ensures s.toServer == []
  {
    if s.toServer != [] {
      WrittenLinked(s, 0);
    }
  }

  lemma {:induction false} FirstLinkRun(events: seq<Event>)
    ensures FirstLink(Run(events))
    decreases |events|
  {
    if events != [] {
      var front := events[..|events| - 1];
      FirstLinkRun(front);
      RunKeeps(front);
      FirstLinkStep(Run(front), events[|events| - 1]);
    }
  }

  // ---- continuations

  lemma Continue(events: seq<Event>, e: Event) returns (later: seq<Event>)
    ensures events <= later && Run(later) == Next(Run(events), e)
  {
    later := events + [e];
    RunOne(events, e);
  }

  lemma CheckStep(s: Relay, host: HostName)
    requires s.pair.client.running && host in s.checks
    ensures var t := Next(s, Checked(host, true));
            t.pair.client.running && t.links == s.links && t.asked == s.asked && host in t.connects
  {
  }

  lemma LinkStep(s: Relay, host: HostName)
    requires s.pair.client.running && host in s.connects
    ensures var t := Next(s, Connected(host, true));
            t.pair.client.running && t.links == s.links + 1 && t.asked == s.asked
  {
  }

  /** While a check or connection is outstanding, another connection can be made. */
  lemma AnotherLink(events: seq<Event>) returns (later: seq<Event>)
    requires var s := Run(events); s.pair.client.running && s.asked > s.links
    ensures events <= later
    ensures var s, t := Run(events), Run(later);
            t.pair.client.running && t.links == s.links + 1 && t.asked == s.asked
  {
    var s := Run(events);
    RunKeeps(events);
    assert |s.checks| + |s.connects| > 0;
    NonEmpty(s.checks);
    NonEmpty(s.connects);
    hide Run, Invariant, Next;
    var host :| host in s.connects || host in s.checks;
    later := events;
    if host !in s.connects {
      CheckStep(s, host);
      later := Continue(events, Checked(host, true));
    }
    LinkStep(Run(later), host);
    later := Continue(later, Connected(host, true));
  }

  /** An accepted hello before the connection asks for another check. */
  lemma AnotherCheck(events: seq<Event>) returns (later: seq<Event>)
    requires Run(events).pair.client.running && MayAsk(Run(events))
    ensures events <= later
    ensures var s, t := Run(events), Run(later);
            t.pair.client.running && MayAsk(t) && t.asked == s.asked + 1
  {
    var s := Run(events);
    RunKeeps(events);
    assert s.pair.server.socket == NO_SOCKET && (s.pair.client.paired || s.pair.server == FRESH);
    HelloAccepted([97]);
    var hello := HelloRecord([97]);
    HelloStep(s, hello);
    later := Continue(events, ClientRecord(hello));
  }

  /** An alert is let on, whatever was sent before it. */
  const ALERT: Record := [21, 3, 1, 0, 0]

  lemma AlertHeader()
    ensures At(ALERT, 0) == 21 && NumberAt(ALERT, 1) == 0x301 && NumberAt(ALERT, 3) == 0
  {
  }

  lemma AlertRead()
    ensures Read(ALERT) == Good(Message(21, 0x301, OtherRecord([])), 5)
  {
    hide HandshakesAt, NumberAt, At;
    AlertHeader();
    assert ALERT[5..5] == [];
  }

  /** A record without a meaning for the relay is let on. */
  lemma PlainStep(s: Relay, record: Record)
    requires s.pair.client.running && s.pair.client.paired && s.pair.server.paired && record != []
    requires s.pair.server.writing.Idle? && s.pair.server.socket == OPEN && s.pair.server.queue == []
    requires exists end :: Read(record) == Good(Message(21, 0x301, OtherRecord([])), end)
    ensures Next(s, ClientRecord(record)).toServer == s.toServer + [Sent(record, s.links, s.host)]
  {
    hide Read;
    assert OnClientRecord(s.pair, record) == (ToServer(s.pair, record), None);
    assert [] + [record] == [record];
  }

  lemma NextWriteStep(s: Relay)
    requires s.pair.client.running && s.pair.server.writing.Sending?
    requires s.pair.server.socket == OPEN && s.pair.server.queue != []
    ensures Next(s, WroteToServer(true)).toServer == s.toServer + [Sent(s.pair.server.queue[0], s.links, s.host)]
  {
  }

  lemma LastWriteStep(s: Relay)
    requires s.pair.client.running && s.pair.server.writing.Sending? && s.pair.server.queue == []
    ensures Next(s, WroteToServer(true))
         == s.(pair := s.pair.(server := s.pair.server.(writing := Idle)), serverDone := s.serverDone + 1)
  {
    assert s.toServer + [] == s.toServer && s.toClient + [] == s.toClient;
  }

  /** A write can be begun over the last connection made. */
  lemma AnotherWrite(events: seq<Event>) returns (later: seq<Event>)
    requires var s := Run(events); s.pair.client.running && s.links > 0
    ensures events <= later
    ensures var s, t := Run(events), Run(later);
            |t.toServer| == |s.toServer| + 1 && s.toServer <= t.toServer && t.toServer[|s.toServer|].link == s.links
  {
    var s := Run(events);
    RunKeeps(events);
    assert s.pair.server.paired && s.pair.client.paired && s.pair.server.socket == OPEN;
    hide Run, Invariant, Next;
    if s.pair.server.writing.Sending? && s.pair.server.queue != [] {
      later := Continue(events, WroteToServer(true));
      NextWriteStep(s);
    } else {
      later := events;
      if s.pair.server.writing.Sending? {
        LastWriteStep(s);
        later := Continue(events, WroteToServer(true));
      }
      AlertRead();
      PlainStep(Run(later), ALERT);
      later := Continue(later, ClientRecord(ALERT));
    }
  }

  /** With two connections a write splits the client's records. */
  lemma SplitsByWrite(events: seq<Event>) returns (later: seq<Event>)
    requires Run(events).pair.client.running && Run(events).links >= 2
    ensures events <= later && Splits(Run(later))
  {
    hide Run;
    FirstLinkRun(events);
    later := AnotherWrite(events);
    assert Run(later).toServer[0].link == 1;
  }

  lemma SplitsByChecks(events: seq<Event>) returns (later: seq<Event>)
    requires Run(events).pair.client.running && Run(events).asked >= 2
    ensures events <= later && Splits(Run(later))
  {
    hide Run;
    later := events;
    while Run(later).links < 2
      invariant events <= later && Run(later).pair.client.running && Run(later).asked >= 2
      decreases 2 - Run(later).links
    {
      later := AnotherLink(later);
    }
    later := SplitsByWrite(later);
  }

  lemma SplitsByHellos(events: seq<Event>) returns (later: seq<Event>)
    requires Run(events).pair.client.running && MayAsk(Run(events))
    ensures events <= later && Splits(Run(later))
  {
    hide Run;
    later := AnotherCheck(events);
    later := AnotherCheck(later);
    later := SplitsByChecks(later);
  }

  /**
   * A live connection can still have its client's records written over two connections exactly if two checks were
   * asked for, or the client is neither connected nor encrypting, so that further hellos have more checks made.
   */
  lemma SplitExactly(events: seq<Event>)
    requires Run(events).pair.client.running
    ensures CanSplit(events) <==> Run(events).asked >= 2 || MayAsk(Run(events))
  {
    hide Run, Splits;
    if Run(events).asked >= 2 {
      var later := SplitsByChecks(events);
    } else if MayAsk(Run(events)) {
      var later := SplitsByHellos(events);
    } else {
      forall later | events <= later
        ensures !Splits(Run(later))
      {
        AskedOutRun(events, later);
        OneCheckOneLink(later);
      }
    }
  }
}
