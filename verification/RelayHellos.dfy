/** Which hellos are written to a server other than the one they name. */
module RelayHellos {
  import opened Options
  import opened RelaySpec
  import opened RelayRuns
  import opened RelayHosts
  import opened RelayStreams
  import RelaySplits

  /** The write at `i` is a hello, no change_cipher_spec written before it, to another host than it names. */
  predicate Elsewhere(s: Relay, i: nat) {
    && i < |s.toServer| && OpensAt(Records(s.toServer), i)
    && HelloHost(s.toServer[i].record) != s.toServer[i].host
  }

  predicate SomeElsewhere(s: Relay) {
    exists i :: 0 <= i < |s.toServer| && Elsewhere(s, i)
  }

  /** A hello for another host than the one connected to. */
  predicate NamesAnother(s: Relay, e: Event) {
    && s.pair.client.running && s.pair.client.connectedToHost && !s.pair.client.clientEncrypted
    && e.ClientRecord? && e.record != [] && IsAcceptedHello(e.record)
    && HelloHost(e.record) != s.pair.client.hostName
  }

  // ---- what becomes of such a hello

  lemma AnotherStops(p: Pair, record: Record)
    requires p.client.running && p.client.connectedToHost && !p.client.clientEncrypted && p.client.paired
    requires record != [] && IsAcceptedHello(record) && HelloHost(record) != p.client.hostName
    ensures TakeClientRecord(p, record)
         == Reaction(ToServer(p.(server := p.server.(paired := true)), record), None, true)
  {
  }

  lemma ServerState(s: Relay)
    requires Invariant(s) && s.pair.client.running
    ensures s.pair.client.connectedToHost ==>
              s.pair.client.paired && s.pair.server.paired && s.pair.server.socket == OPEN
    ensures !s.pair.client.connectedToHost ==> s.pair.server.socket == NO_SOCKET
    ensures s.pair.server.writing.Idle? && s.pair.server.socket == OPEN ==> s.pair.server.queue == []
    ensures s.pair.client.paired || s.pair.server == FRESH
    ensures s.pair.server.writing != Lost
  {
    hide Gated, Asked, ServerGate, HasChangeCipherSpec, Records;
    assert s.pair.client.connectedToHost ==> s.asked > 0;
  }

  /**
   * A hello for another host than the one connected to stops the connection; it is begun to be written to that
   * host first, exactly if no write is outstanding when it comes.
   */
  lemma WrittenBeforeStop(s: Relay, e: Event)
    requires Invariant(s) && NamesAnother(s, e)
    ensures var t := Next(s, e);
            && !t.pair.client.running
            && t.toServer == s.toServer
                 + if s.pair.server.writing.Idle? then [Sent(e.record, s.links, s.host)] else []
  {
    hide Invariant, TakeClientRecord, IsAcceptedHello, HelloHost;
    ServerState(s);
    AnotherStops(s.pair, e.record);
    assert [] + [e.record] == [e.record];
  }

  /** Such a hello, and a write towards the server can be begun at once. */
  predicate BeginsElsewhere(s: Relay, e: Event) {
    NamesAnother(s, e) && s.pair.server.writing.Idle?
  }

  // ---- while no hello renames the host, all hellos name it

  predicate AllName(relayed: seq<Record>, host: HostName) {
    forall i :: 0 <= i < |relayed| && OpensAt(relayed, i) ==> HelloHost(relayed[i]) == host
  }

  predicate AllTo(s: Relay) {
    forall i :: 0 <= i < |s.toServer| ==> s.toServer[i].host == s.pair.client.hostName
  }

  /** All hellos let on, and all writes, are for the host the client context holds. */
  ghost predicate Directed(s: Relay) {
    && AllName(Relayed(s.fromClient), s.pair.client.hostName)
    && (Relayed(s.fromClient) != [] ==> s.asked > 0)
    && Aligned(s) && AllTo(s)
  }

  lemma AllNameAppend(relayed: seq<Record>, record: Record, host: HostName)
    requires AllName(relayed, host)
    requires IsAcceptedHello(record) && !HasChangeCipherSpec(relayed) ==> HelloHost(record) == host
    ensures AllName(relayed + [record], host)
  {
    hide IsAcceptedHello, HelloHost, HasChangeCipherSpec;
    var longer := relayed + [record];
    forall i | 0 <= i < |longer| && OpensAt(longer, i)
      ensures HelloHost(longer[i]) == host
    {
      if i < |relayed| {
        assert longer[..i] == relayed[..i];
        assert OpensAt(relayed, i);
      } else {
        assert longer[..i] == relayed;
      }
    }
  }

  /** Nothing relayed comes before the first change_cipher_spec unless all of it does. */
  lemma {:induction false} RelayedChange(log: seq<Record>)
    ensures Relayed(log) != [] ==> (HasChangeCipherSpec(log) <==> HasChangeCipherSpec(Relayed(log)))
    decreases |log|
  {
    hide IsAcceptedHello, IsChangeCipherSpec;
    if log != [] && !IsAcceptedHello(log[0]) && !IsChangeCipherSpec(log[0]) {
      RelayedChange(log[1..]);
      HasAppend(log[..1], log[1..]);
      HasOne(log[0]);
      assert log == log[..1] + log[1..] && log[..1] == [log[0]];
    }
  }

  /** A hello that is let on names the host held afterwards, and has a check made unless connected. */
  lemma HelloLetOn(s: Relay, record: Record)
    requires Invariant(s) && s.pair.client.running && record != []
    requires OnClientRecord(s.pair, record).0.client.running
    requires IsAcceptedHello(record) && !s.pair.client.clientEncrypted
    ensures HelloHost(record) == Next(s, ClientRecord(record)).pair.client.hostName
    ensures Next(s, ClientRecord(record)).asked == s.asked + if s.pair.client.connectedToHost then 0 else 1
  {
    TakenByTaker(s.pair, record);
    StopsOrGoesOn(s.pair, record);
    if s.pair.client.connectedToHost && HelloHost(record) != s.pair.client.hostName {
      AnotherStops(s.pair, record);
    }
    hide TakeClientRecord, Gated, ServerGate, Relayed, IsAcceptedHello, HelloHost;
  }

  lemma RecordLogged(s: Relay, record: Record)
    requires s.pair.client.running && record != []
    ensures var t := Next(s, ClientRecord(record));
            t.fromClient == s.fromClient + [record] && t.asked >= s.asked
  {
    hide TakeClientRecord;
  }

  /** The host held changes with the first hello let on, and with no other unless it renames. */
  lemma HostChanges(s: Relay, record: Record)
    requires Invariant(s) && s.pair.client.running && record != []
    requires OnClientRecord(s.pair, record).0.client.running && !Renames(s, ClientRecord(record))
    requires Relayed(s.fromClient) != [] ==> s.asked > 0
    ensures s.pair.client.connectedToHost ==> Relayed(s.fromClient) != []
    ensures Next(s, ClientRecord(record)).pair.client.hostName != s.pair.client.hostName ==> Relayed(s.fromClient) == []
  {
    hide Gated, ServerGate, Asked, TakeClientRecord, Orderly, IsAcceptedHello, HelloHost, Relayed, HasChangeCipherSpec;
    ClientRecordHosts(s, record);
    TakenByTaker(s.pair, record);
  }

  lemma Encrypted(s: Relay)
    requires Invariant(s) && s.pair.client.running
    ensures s.pair.client.clientEncrypted <==> HasChangeCipherSpec(s.fromClient)
  {
  }

  /** The hellos after a record of the client. */
  lemma NamesAfterRecord(s: Relay, record: Record)
    requires Invariant(s) && s.pair.client.running && Directed(s) && record != []
    requires OnClientRecord(s.pair, record).0.client.running && !Renames(s, ClientRecord(record))
    ensures var t := Next(s, ClientRecord(record));
            AllName(Relayed(t.fromClient), t.pair.client.hostName) && (Relayed(t.fromClient) != [] ==> t.asked > 0)
  {
    hide Invariant, OnClientRecord, Next, Renames, IsAcceptedHello, HelloHost, Relayed, AllTo, Aligned;
    var t, relayed := Next(s, ClientRecord(record)), Relayed(s.fromClient);
    RecordLogged(s, record);
    RelayedAppend(s.fromClient, record);
    RelayedChange(s.fromClient);
    Encrypted(s);
    HostChanges(s, record);
    if IsAcceptedHello(record) && !s.pair.client.clientEncrypted {
      HelloLetOn(s, record);
    }
    hide HasChangeCipherSpec;
    if Relayed(t.fromClient) != [] {
      AllNameAppend(relayed, record, t.pair.client.hostName);
      assert [] + [record] == [record];
    }
  }

  /** The writes a live step begins are for the host of the last connection. */
  lemma WithPairWrites(s: Relay, pair: Pair)
    ensures var t := WithPair(s, pair);
            && t.host == s.host && s.toServer <= t.toServer && |t.toServer| <= |s.toServer| + 1
            && forall i :: |s.toServer| <= i < |t.toServer| ==> t.toServer[i].host == s.host
  {
  }

  lemma NewWritesTo(s: Relay, e: Event)
    ensures s.toServer <= Next(s, e).toServer && |Next(s, e).toServer| <= |s.toServer| + 1
    ensures forall i :: |s.toServer| <= i < |Next(s, e).toServer| ==> Next(s, e).toServer[i].host == Next(s, e).host
  {
    hide TakeClientRecord, OnServerRecord, DoWrite, NewToServer, Begun;
    if Enabled(s, e) {
      match e
      case ClientRecord(record) =>
        var taken := TakeClientRecord(s.pair, record);
        WithPairWrites(Logged(s, record, taken.ask), taken.pair);
      case ServerRecord(record) =>
        WithPairWrites(s.(fromServer := s.fromServer + [record]), OnServerRecord(s.pair, record));
      case Connected(host, _) =>
        WithPairWrites(s.(connects := s.connects - multiset{host}, links := s.links + 1, host := host),
                       OnConnected(s.pair));
      case WroteToServer(_) =>
        WithPairWrites(s.(pair := s.pair.(server := s.pair.server.(writing := Idle)), serverDone := s.serverDone + 1),
                       s.pair.(server := WriteDone(s.pair.server)));
      case WroteToClient(_) =>
        WithPairWrites(s.(pair := s.pair.(client := s.pair.client.(writing := Idle)), clientDone := s.clientDone + 1),
                       s.pair.(client := WriteDone(s.pair.client)));
      case _ =>
    }
  }

  lemma HostHeld(s: Relay, e: Event)
    requires Invariant(s) && Enabled(s, e) && Next(s, e).pair.client.running && s.links > 0
    ensures Next(s, e).pair.client.hostName == s.pair.client.hostName
  {
    if e.ClientRecord? && e.record != [] {
      StopsOrGoesOn(s.pair, e.record);
      ClientRecordHosts(s, e.record);
    } else {
      HostsFromOther(s, e);
    }
  }

  lemma LinkedWrites(s: Relay)
    requires Gated(s) && s.toServer != []
    ensures s.links > 0
  {
    assert s.toServer[0].link <= s.links;
  }

  lemma AllToStep(s: Relay, e: Event)
    requires Invariant(s) && Enabled(s, e) && Next(s, e).pair.client.running && AllTo(s) && Aligned(Next(s, e))
    ensures AllTo(Next(s, e))
  {
    hide Next, Coherent, Asked, Orderly, ServerGate, Relayed, Records;
    NewWritesTo(s, e);
    NextKeeps(s, e);
    var t := Next(s, e);
    if t.toServer != [] {
      LinkedWrites(t);
    }
    if s.toServer != [] {
      LinkedWrites(s);
      HostHeld(s, e);
    }
    hide Gated;
  }

  lemma NamesAfterOther(s: Relay, e: Event)
    requires Enabled(s, e) && Next(s, e).pair.client.running && (e.ClientRecord? ==> e.record == [])
    ensures var t := Next(s, e);
            t.fromClient == s.fromClient && t.asked == s.asked && t.pair.client.hostName == s.pair.client.hostName
  {
    HostsFromOther(s, e);
    hide OnServerRecord, DoWrite;
  }

  lemma DirectedStep(s: Relay, e: Event)
    requires Invariant(s) && Enabled(s, e) && Next(s, e).pair.client.running && Directed(s) && !Renames(s, e)
    ensures Directed(Next(s, e))
  {
    hide Next, Invariant, AllName, AllTo, Aligned, Relayed, Renames;
    AlignedExactly(s, e);
    AllToStep(s, e);
    if e.ClientRecord? && e.record != [] {
      LiveAfterRecord(s, e.record);
      NamesAfterRecord(s, e.record);
    } else {
      NamesAfterOther(s, e);
    }
  }

  lemma LiveAfterRecord(s: Relay, record: Record)
    requires s.pair.client.running && Next(s, ClientRecord(record)).pair.client.running
    ensures OnClientRecord(s.pair, record).0.client.running
  {
    hide TakeClientRecord;
  }

  lemma SameWrites(s: Relay, t: Relay, i: nat)
    requires s.toServer <= t.toServer && i < |s.toServer|
    ensures Elsewhere(t, i) <==> Elsewhere(s, i)
  {
    hide IsAcceptedHello, HelloHost, HasChangeCipherSpec;
    assert Records(t.toServer)[..i] == Records(s.toServer)[..i];
  }

  lemma Unmoved(s: Relay, e: Event)
    requires !s.pair.client.running
    ensures Next(s, e) == s && !BeginsElsewhere(s, e)
  {
  }

  /** The state after a run without renaming hellos, as long as it lives. */
  lemma {:induction false} DirectedRun(events: seq<Event>)
    requires forall k :: 0 <= k < |events| ==> !Renames(Run(events[..k]), events[k])
    ensures Run(events).pair.client.running ==> Directed(Run(events))
    decreases |events|
  {
    hide Next, Invariant, Directed, Renames;
    if events != [] {
      var n := |events| - 1;
      var front, e := events[..n], events[n];
      assert forall k :: 0 <= k < n ==> front[..k] == events[..k];
      DirectedRun(front);
      RunKeeps(front);
      if !Run(front).pair.client.running {
        Unmoved(Run(front), e);
      } else if !Enabled(Run(front), e) {
        Disabled(Run(front), e);
      } else if Run(events).pair.client.running {
        DirectedStep(Run(front), e);
      }
    } else {
      InitialDirected();
    }
  }

  lemma Disabled(s: Relay, e: Event)
    requires !Enabled(s, e)
    ensures Next(s, e) == s && !BeginsElsewhere(s, e)
  {
  }

  lemma InitialDirected()
    ensures Directed(INITIAL)
  {
  }

  // ---- which steps write a hello elsewhere

  /** The record that waits first is a hello for another host than this. */
  predicate HeadElsewhere(s: Relay, host: HostName) {
    && s.pair.server.queue != [] && IsAcceptedHello(s.pair.server.queue[0])
    && !HasChangeCipherSpec(Records(s.toServer)) && HelloHost(s.pair.server.queue[0]) != host
  }

  /**
   * A step that writes a hello elsewhere: one comes on an idle connection to a host it does not name, or one that waits
   * is the next to go out to such a host.
   */
  predicate Misdirects(s: Relay, e: Event) {
    Enabled(s, e) &&
    match e
    case ClientRecord(record) =>
      && s.pair.client.connectedToHost && !s.pair.client.clientEncrypted && s.pair.server.writing.Idle?
      && record != [] && IsAcceptedHello(record) && HelloHost(record) != s.host
    case Connected(host, ok) => ok && s.pair.server.writing.Idle? && HeadElsewhere(s, host)
    case WroteToServer(ok) => ok && HeadElsewhere(s, s.host)
    case _ => false
  }

  lemma LastWrite(s: Relay, t: Relay, w: Sent)
    requires t.toServer == s.toServer + [w]
    ensures Elsewhere(t, |s.toServer|) <==>
            IsAcceptedHello(w.record) && !HasChangeCipherSpec(Records(s.toServer)) && HelloHost(w.record) != w.host
  {
    hide IsAcceptedHello, HelloHost, HasChangeCipherSpec;
    assert Records(t.toServer)[..|s.toServer|] == Records(s.toServer);
  }

  lemma NoWriteNowhere(s: Relay, t: Relay)
    requires t.toServer == s.toServer
    ensures !Elsewhere(t, |s.toServer|)
  {
  }

  /** What a record of the client does to the server context: nothing, or it is queued. */
  lemma TakesServer(p: Pair, record: Record)
    requires record != []
    ensures var server := TakeClientRecord(p, record).pair.server;
            || (server == Paired(p).server && (p.client.clientEncrypted || !IsAcceptedHello(record)))
            || server == Enqueued(Paired(p).server.(paired := true), record)
  {
  }

  lemma ClientWrites(s: Relay, record: Record)
    requires Invariant(s) && s.pair.client.running && record != []
    ensures var t, idle := Next(s, ClientRecord(record)), s.pair.client.connectedToHost && s.pair.server.writing.Idle?;
            && (t.toServer == s.toServer || (idle && t.toServer == s.toServer + [Sent(record, s.links, s.host)]))
            && (idle && !s.pair.client.clientEncrypted && IsAcceptedHello(record) ==>
                  t.toServer == s.toServer + [Sent(record, s.links, s.host)])
  {
    hide TakeClientRecord, IsAcceptedHello, Invariant;
    TakesServer(s.pair, record);
    ServerState(s);
    assert [] + [record] == [record];
  }

  /** On an idle connection all that is relayed has been written. */
  lemma AllWritten(s: Relay)
    requires Invariant(s) && s.pair.client.running && s.pair.client.connectedToHost && s.pair.server.writing.Idle?
    ensures HasChangeCipherSpec(Records(s.toServer)) <==> s.pair.client.clientEncrypted
  {
    hide Gated, Asked, ServerGate, HasChangeCipherSpec;
    assert s.asked > 0;
    assert Records(s.toServer) + [] == Records(s.toServer) == Relayed(s.fromClient);
    RelayedChange(s.fromClient);
  }

  lemma ClientMisdirects(s: Relay, record: Record)
    requires Invariant(s) && s.pair.client.running && record != []
    ensures Elsewhere(Next(s, ClientRecord(record)), |s.toServer|) <==> Misdirects(s, ClientRecord(record))
  {
    hide Next, Invariant, IsAcceptedHello, HelloHost, HasChangeCipherSpec, Elsewhere;
    ClientWrites(s, record);
    var t := Next(s, ClientRecord(record));
    if t.toServer == s.toServer {
      NoWriteNowhere(s, t);
    } else {
      AllWritten(s);
      LastWrite(s, t, Sent(record, s.links, s.host));
    }
  }

  lemma ConnectedMisdirects(s: Relay, host: HostName)
    requires Enabled(s, Connected(host, true))
    ensures Elsewhere(Next(s, Connected(host, true)), |s.toServer|) <==> Misdirects(s, Connected(host, true))
  {
    hide IsAcceptedHello, HelloHost, HasChangeCipherSpec, Elsewhere;
    var t := Next(s, Connected(host, true));
    if s.pair.server.writing.Idle? && s.pair.server.queue != [] {
      WriteStep(s, host);
      LastWrite(s, t, Sent(s.pair.server.queue[0], s.links + 1, host));
    } else {
      assert t.toServer == s.toServer;
      NoWriteNowhere(s, t);
    }
  }

  lemma WrittenMisdirects(s: Relay)
    requires Enabled(s, WroteToServer(true)) && s.pair.server.socket == OPEN
    ensures Elsewhere(Next(s, WroteToServer(true)), |s.toServer|) <==> Misdirects(s, WroteToServer(true))
  {
    hide IsAcceptedHello, HelloHost, HasChangeCipherSpec, Elsewhere, Next;
    var t := Next(s, WroteToServer(true));
    if s.pair.server.queue != [] {
      RelaySplits.NextWriteStep(s);
      LastWrite(s, t, Sent(s.pair.server.queue[0], s.links, s.host));
    } else {
      RelaySplits.LastWriteStep(s);
      NoWriteNowhere(s, t);
    }
  }

  lemma OtherMisdirects(s: Relay, e: Event)
    requires e.ServerRecord? || e.ReaderFailed? || e.Checked? || e.WroteToClient? || (e.ClientRecord? && e.record == [])
             || (e.Connected? && !e.ok) || (e.WroteToServer? && !e.ok)
    ensures Next(s, e).toServer == s.toServer && !Misdirects(s, e)
  {
    hide Read, ToClient, IsAcceptedHello, DoWrite;
    if e.ServerRecord? {
      ServerRecordServer(s.pair, e.record);
      hide OnServerRecord;
    }
  }

  lemma ServerRecordServer(p: Pair, record: Record)
    ensures OnServerRecord(p, record).server.writing in {p.server.writing, Idle}
  {
    hide Read;
  }

  lemma Writes(s: Relay)
    requires Invariant(s) && s.pair.client.running && s.pair.server.writing.Sending?
    ensures s.pair.server.socket == OPEN
  {
  }

  /** A step writes one record at most, and a hello elsewhere exactly on those conditions. */
  lemma StepMisdirects(s: Relay, e: Event)
    requires Invariant(s)
    ensures Elsewhere(Next(s, e), |s.toServer|) <==> Misdirects(s, e)
  {
    hide Next, Invariant, Elsewhere, HeadElsewhere, IsAcceptedHello, HelloHost;
    if !Enabled(s, e) {
      Disabled(s, e);
      NoWriteNowhere(s, Next(s, e));
    } else if e.ClientRecord? && e.record != [] {
      ClientMisdirects(s, e.record);
    } else if e.Connected? && e.ok {
      ConnectedMisdirects(s, e.connected);
    } else if e.WroteToServer? && e.ok {
      Writes(s);
      WrittenMisdirects(s);
    } else {
      OtherMisdirects(s, e);
      NoWriteNowhere(s, Next(s, e));
    }
  }

  /** Some step of the run does that. */
  predicate OnceMisdirected(events: seq<Event>) {
    exists k :: 0 <= k < |events| && Misdirects(Run(events[..k]), events[k])
  }

  lemma OnceMore(events: seq<Event>)
    requires events != []
    ensures var n := |events| - 1;
            OnceMisdirected(events) <==> OnceMisdirected(events[..n]) || Misdirects(Run(events[..n]), events[n])
  {
    hide Run, Misdirects;
    var n := |events| - 1;
    var front := events[..n];
    assert forall k :: 0 <= k < n ==> front[..k] == events[..k] && front[k] == events[k];
    if OnceMisdirected(front) {
      var k :| 0 <= k < |front| && Misdirects(Run(front[..k]), front[k]);
      assert Misdirects(Run(events[..k]), events[k]);
    }
  }

  lemma ElsewhereStep(s: Relay, e: Event)
    requires Invariant(s)
    ensures SomeElsewhere(Next(s, e)) <==> SomeElsewhere(s) || Misdirects(s, e)
  {
    hide Next, Invariant, Misdirects, OpensAt, HelloHost;
    var t := Next(s, e);
    NewWritesTo(s, e);
    StepMisdirects(s, e);
    forall i: nat | i < |s.toServer|
      ensures Elsewhere(t, i) <==> Elsewhere(s, i)
    {
      SameWrites(s, t, i);
    }
    if Misdirects(s, e) {
      assert Elsewhere(t, |s.toServer|);
    }
  }

  /** In every run a hello is written to another host than it names exactly if some step does that. */
  lemma {:induction false} ElsewhereExactly(events: seq<Event>)
    ensures SomeElsewhere(Run(events)) <==> OnceMisdirected(events)
    decreases |events|
  {
    if events != [] {
      hide Next, Invariant, SomeElsewhere, OnceMisdirected;
      var n := |events| - 1;
      ElsewhereExactly(events[..n]);
      RunKeeps(events[..n]);
      OnceMore(events);
      ElsewhereStep(Run(events[..n]), events[n]);
    } else {
      assert !SomeElsewhere(INITIAL);
    }
  }

  // ---- without hellos that rename the host

  lemma HeadNamesHost(s: Relay)
    requires Invariant(s) && s.pair.client.running && Directed(s)
    ensures !HeadElsewhere(s, s.pair.client.hostName)
  {
    hide Relayed, HelloHost, IsAcceptedHello, HasChangeCipherSpec, Gated, ServerGate, Asked;
    var written, relayed, n := Records(s.toServer), Relayed(s.fromClient), |s.toServer|;
    if s.pair.server.queue != [] {
      assert written + s.pair.server.queue == relayed;
      assert relayed[..n] == written && relayed[n] == s.pair.server.queue[0];
      assert OpensAt(relayed, n) ==> HelloHost(relayed[n]) == s.pair.client.hostName;
    }
  }

  lemma LinkedHost(s: Relay)
    requires Invariant(s) && s.pair.client.running && Aligned(s)
    ensures s.pair.client.connectedToHost || s.pair.server.writing.Sending? ==> s.host == s.pair.client.hostName
  {
  }

  lemma DirectedMisdirects(s: Relay, e: Event)
    requires Invariant(s) && (s.pair.client.running ==> Directed(s))
    ensures Misdirects(s, e) <==> BeginsElsewhere(s, e)
  {
    hide Invariant, IsAcceptedHello, HelloHost, HeadElsewhere, AllTo, AllName;
    if s.pair.client.running {
      HeadNamesHost(s);
      LinkedHost(s);
    }
  }

  /**
   * In a run without renaming hellos the only such step is a hello for another host than the one connected to, while no
   * write is outstanding.
   */
  lemma ElsewhereUnrenamed(events: seq<Event>)
    requires forall k :: 0 <= k < |events| ==> !Renames(Run(events[..k]), events[k])
    ensures SomeElsewhere(Run(events)) <==>
            exists k :: 0 <= k < |events| && BeginsElsewhere(Run(events[..k]), events[k])
  {
    hide Run, SomeElsewhere, Invariant, Directed, Misdirects, BeginsElsewhere, Renames;
    ElsewhereExactly(events);
    forall k | 0 <= k < |events|
      ensures Misdirects(Run(events[..k]), events[k]) <==> BeginsElsewhere(Run(events[..k]), events[k])
    {
      var front := events[..k];
      assert forall j :: 0 <= j < k ==> front[..j] == events[..j] && front[j] == events[j];
      DirectedRun(front);
      RunKeeps(front);
      DirectedMisdirects(Run(front), events[k]);
    }
  }

  /** The first hello has gone out, and nothing waits. */
  predicate FirstSent(s: Relay, first: Record, a: HostName) {
    && s.pair.client.running && s.pair.client.connectedToHost && !s.pair.client.clientEncrypted
    && s.pair.client.hostName == a && s.pair.server.writing.Idle?
    && s.links == 1 && s.host == a && s.toServer == [Sent(first, 1, a)]
  }

  lemma FirstWritten(first: Record, a: HostName)
    requires IsHelloFor(first, a)
    ensures FirstSent(Next(Next(Next(Next(INITIAL, ClientRecord(first)), Checked(a, true)), Connected(a, true)),
                           WroteToServer(true)), first, a)
  {
    HelloStep(INITIAL, first);
    assert [] + [first] == [first] && multiset{} + multiset{a} == multiset{a};
    var asked := Next(INITIAL, ClientRecord(first));
    assert asked == Asking([first], multiset{a}, a);
    hide IsAcceptedHello, HelloHost, Next;
    ConnectStep(asked, a);
    RelaySplits.LastWriteStep(Next(Next(asked, Checked(a, true)), Connected(a, true)));
  }

  /** A hello for a second host, once the first's has been written, goes to the first host before the stop. */
  lemma SecondGoesToFirst(first: Record, second: Record, a: HostName, b: HostName)
    requires IsHelloFor(first, a) && IsHelloFor(second, b) && a != b
    ensures var s := Run([ClientRecord(first), Checked(a, true), Connected(a, true), WroteToServer(true)]
                         + [ClientRecord(second)]);
            && !s.pair.client.running
            && s.toServer == [Sent(first, 1, a), Sent(second, 1, a)]
  {
    hide IsAcceptedHello, HelloHost, Invariant, Run, Next;
    var four := [ClientRecord(first), Checked(a, true), Connected(a, true), WroteToServer(true)];
    RunOfSteps(ClientRecord(first), Checked(a, true), Connected(a, true), WroteToServer(true));
    FirstWritten(first, a);
    RunOne(four, ClientRecord(second));
    RunKeeps(four);
    WrittenBeforeStop(Run(four), ClientRecord(second));
  }
}
