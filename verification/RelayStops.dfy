/** What may still come after a relayed connection is stopped, and when it meets a link that is not there. */
module RelayStops {
  import opened RelaySpec
  import opened Options
  import opened TlsDefinition
  import opened RelayRuns
  import opened RelayHosts
  import opened RelayHellos
  import opened Framing
  import opened Bytes

  // ---- the rest of the server's turn

  /** The server context, encrypting from the start or not, lets the record at `i` on. */
  predicate LetOn(encrypted: bool, records: seq<Record>, i: nat)
    requires i < |records|
  {
    Forwards(encrypted || HasChangeCipherSpec(records[..i]), records[i])
  }

  /** The record at `j` is let on though the link was missing from the start, or lost at a record before. */
  predicate LetOnUnlinked(linked: bool, encrypted: bool, records: seq<Record>, j: nat) {
    && j < |records| && LetOn(encrypted, records, j)
    && (linked ==> exists k: nat :: k < j && !LetOn(encrypted, records, k))
  }

  lemma ChangeCipherSpecForwarded(encrypted: bool, record: Record)
    requires IsChangeCipherSpec(record)
    ensures Forwards(encrypted, record)
  {
  }

  lemma LetOnShift(encrypted: bool, records: seq<Record>, i: nat)
    requires i + 1 < |records|
    ensures LetOn(encrypted, records, i + 1)
            <==> LetOn(encrypted || IsChangeCipherSpec(records[0]), records[1..], i)
  {
    hide Read, Forwards, IsChangeCipherSpec;
    HasAppend(records[..1], records[1..][..i]);
    HasOne(records[0]);
    assert records[..i + 1] == records[..1] + records[1..][..i] && records[..1] == [records[0]];
  }

  lemma UnlinkedShift(linked: bool, encrypted: bool, records: seq<Record>, j: nat)
    requires records != []
    ensures var now := encrypted || IsChangeCipherSpec(records[0]);
            LetOnUnlinked(linked && LetOn(encrypted, records, 0), now, records[1..], j)
            <==> LetOnUnlinked(linked, encrypted, records, j + 1)
  {
    hide LetOn;
    var rest, now := records[1..], encrypted || IsChangeCipherSpec(records[0]);
    if j + 1 < |records| {
      LetOnShift(encrypted, records, j);
      if linked && LetOn(encrypted, records, 0) {
        forall k: nat | k < j
          ensures LetOn(encrypted, records, k + 1) <==> LetOn(now, rest, k)
        {
          LetOnShift(encrypted, records, k);
        }
        if LetOnUnlinked(linked, encrypted, records, j + 1) {
          var k: nat :| k < j + 1 && !LetOn(encrypted, records, k);
          assert !LetOn(now, rest, k - 1);
        }
      }
    }
  }

  /**
   * In one turn the server context calls the client's through a link that is not there exactly if a record that
   * stops it comes before one that it lets on.
   */
  lemma {:induction false} NoLinkExactly(linked: bool, encrypted: bool, records: seq<Record>)
    ensures MeetsNoLink(linked, encrypted, records)
            <==> exists j: nat :: LetOnUnlinked(linked, encrypted, records, j)
    decreases |records|
  {
    if records != [] {
      hide LetOnUnlinked, HasChangeCipherSpec, Forwards, IsChangeCipherSpec;
      var rest, now := records[1..], encrypted || IsChangeCipherSpec(records[0]);
      var still := linked && LetOn(encrypted, records, 0);
      FirstRecord(linked, encrypted, records);
      NoLinkExactly(still, now, rest);
      if j: nat :| LetOnUnlinked(linked, encrypted, records, j) {
        if j > 0 {
          UnlinkedShift(linked, encrypted, records, j - 1);
        }
      }
      if j: nat :| LetOnUnlinked(still, now, rest, j) {
        UnlinkedShift(linked, encrypted, records, j);
      }
    }
  }

  lemma FirstRecord(linked: bool, encrypted: bool, records: seq<Record>)
    requires records != []
    ensures var now, still := encrypted || IsChangeCipherSpec(records[0]), linked && LetOn(encrypted, records, 0);
            && (LetOnUnlinked(linked, encrypted, records, 0) <==> !linked && LetOn(encrypted, records, 0))
            && (MeetsNoLink(linked, encrypted, records)
                <==> LetOnUnlinked(linked, encrypted, records, 0) || MeetsNoLink(still, now, records[1..]))
  {
    hide Read, Passes, Forwards, IsChangeCipherSpec;
    if IsChangeCipherSpec(records[0]) {
      ChangeCipherSpecForwarded(encrypted, records[0]);
    }
    assert records[..0] == [];
  }

  /** A record that stops the server context and one that would pass, in one segment, are enough. */
  lemma OneSegmentMeetsNoLink(stopping: Record, passing: Record, more: seq<byte>)
    requires IsRecord(stopping) && IsRecord(passing) && |stopping| < 0x1_0000 && |passing| < 0x1_0000
    requires !Passes(stopping) && Passes(passing)
    ensures MeetsNoLink(true, false, AllAsSeen(Split(stopping + (passing + more)).records))
  {
    hide Split, Passes;
    SplitOfRecord(stopping, passing + more);
    SplitOfRecord(passing, more);
    var records := AllAsSeen(Split(stopping + (passing + more)).records);
    assert records[0] == stopping && records[1] == passing;
    assert records[..0] == [] && records[..1] == [stopping];
    HasOne(stopping);
    if IsChangeCipherSpec(stopping) {
      ChangeCipherSpecForwarded(false, stopping);
    }
    assert LetOnUnlinked(true, false, records, 1) by {
      assert !LetOn(false, records, 0);
    }
    NoLinkExactly(true, false, records);
  }

  // ---- what was begun before the stop

  /**
   * A stopped connection: checks and connections begun before may still end. `sent` are the writes begun towards a
   * server since the stop, and `lost` is a call of no context.
   */
  datatype Late = Late(
    pair: Pair, checks: multiset<HostName>, connects: multiset<HostName>, sent: seq<Record>, lost: bool)

  /** What comes after the stop is what may come before. */
  predicate LateEnabled(s: Late, e: Event) {
    !s.lost &&
    match e
    case ClientRecord(_) => true
    case ServerRecord(_) => s.pair.server.running
    case ReaderFailed => true
    case Checked(host, _) => host in s.checks
    case Connected(host, _) => host in s.connects
    case WroteToServer(_) => s.pair.server.writing.Sending?
    case WroteToClient(_) => s.pair.client.writing.Sending?
  }

  function LateTaken(s: Late, taken: Reaction): Late {
    s.(pair := if taken.stops then Stopped(taken.pair) else taken.pair,
       checks := if taken.ask.None? then s.checks else s.checks + multiset{taken.ask.value},
       sent := s.sent + Begun(s.pair.server, taken.pair.server))
  }

  function LateNext(s: Late, e: Event): Late {
    if !LateEnabled(s, e) then s
    else
      match e
      case ClientRecord(record) => LateTaken(s, TakeClientRecord(s.pair, record))
      case ServerRecord(record) => s.(pair := OnServerRecord(s.pair, record))
      case ReaderFailed => s.(pair := Stopped(s.pair))
      case Checked(host, anyEndpoint) =>
        var answered := s.(checks := s.checks - multiset{host});
        if anyEndpoint then answered.(connects := s.connects + multiset{host})
        else answered.(pair := Stopped(s.pair))
      case Connected(host, ok) =>
        var made := s.(connects := s.connects - multiset{host});
        if !ok then made.(pair := Stopped(s.pair))
        else if !s.pair.client.paired then made.(lost := true)
        else made.(pair := OnConnected(s.pair), sent := s.sent + Begun(s.pair.server, OnConnected(s.pair).server))
      case WroteToServer(ok) =>
        var server := WriteDone(s.pair.server);
        if ok then
          s.(pair := s.pair.(server := server), sent := s.sent + Begun(s.pair.server.(writing := Idle), server))
        else s.(pair := Stopped(s.pair))
      case WroteToClient(ok) =>
        s.(pair := if ok then s.pair.(client := WriteDone(s.pair.client)) else Stopped(s.pair))
  }

  function LateRun(s: Late, events: seq<Event>): Late
    decreases |events|
  {
    if events == [] then s else LateRun(LateNext(s, events[0]), events[1..])
  }

  /** No more records of the client come. */
  predicate TurnOver(events: seq<Event>) {
    forall e :: e in events ==> !e.ClientRecord?
  }

  /** Records of the client come after the stop only in the turn in which one of them stopped it, and at once. */
  predicate Follows(e: Event, late: seq<Event>) {
    if e.ClientRecord? then forall i, j :: 0 <= i < j < |late| && late[j].ClientRecord? ==> late[i].ClientRecord?
    else TurnOver(late)
  }

  lemma TurnOverFollows(e: Event, late: seq<Event>)
    requires TurnOver(late)
    ensures Follows(e, late)
  {
  }

  lemma RecordFollows(e: Event, record: Record, late: seq<Event>)
    requires e.ClientRecord? && TurnOver(late)
    ensures Follows(e, [ClientRecord(record)] + late)
  {
  }

  /** The stopped connection of a run. */
  function AfterStop(s: Relay): Late {
    Late(s.pair, s.checks, s.connects, [], false)
  }

  function Outstanding(s: Late): nat {
    |s.checks| + |s.connects|
  }

  // ---- a server context that is not there

  /** A hello may have a check made. */
  predicate LateMayAsk(s: Late) {
    !s.pair.client.connectedToHost && !s.pair.client.clientEncrypted
  }

  lemma TakesNoAsk(p: Pair, record: Record)
    requires p.client.connectedToHost || p.client.clientEncrypted
    ensures var t := TakeClientRecord(p, record);
            && t.ask == None
            && (t.pair.client.connectedToHost || t.pair.client.clientEncrypted)
  {
  }

  /** The flags of a client context. */
  predicate SameFlags(c: Ctx, d: Ctx) {
    && c.connectedToHost == d.connectedToHost && c.clientEncrypted == d.clientEncrypted && c.hostName == d.hostName
  }

  lemma ToClientFlags(p: Pair, record: Record)
    ensures ToClient(p, record).server == p.server && SameFlags(p.client, ToClient(p, record).client)
  {
  }

  /** A record of the server changes no flag of the client's context; its own context goes on unless stopped. */
  lemma ServerRecordClient(p: Pair, record: Record)
    ensures var q := OnServerRecord(p, record);
            && SameFlags(p.client, q.client)
            && (q == Stopped(p) || q.server == p.server.(serverEncrypted := q.server.serverEncrypted))
            && (q == Stopped(p) || q.client.running == p.client.running)
  {
    hide Read, ToClient;
    ToClientFlags(p, record);
    ToClientRuns(p, record);
    var r := p.(server := p.server.(serverEncrypted := true));
    ToClientFlags(r, record);
    ToClientRuns(r, record);
  }

  lemma ToClientRuns(p: Pair, record: Record)
    ensures ToClient(p, record).client.running == p.client.running
  {
  }

  lemma WriteDoneFlags(c: Ctx)
    ensures SameFlags(c, WriteDone(c))
  {
  }

  lemma OutstandingStep(s: Late, e: Event)
    requires !e.ClientRecord? || !LateMayAsk(s)
    ensures Outstanding(LateNext(s, e)) <= Outstanding(s)
    ensures LateNext(s, e).lost && !s.lost ==> Outstanding(s) > 0
  {
    hide TakeClientRecord, OnServerRecord, Begun, DoWrite;
    if e.ClientRecord? {
      TakesNoAsk(s.pair, e.record);
    }
  }

  lemma AsksNoMore(s: Late, e: Event)
    requires !LateMayAsk(s)
    ensures !LateMayAsk(LateNext(s, e))
  {
    hide TakeClientRecord, OnServerRecord, Begun, DoWrite, WriteDone;
    match e
    case ClientRecord(record) => TakesNoAsk(s.pair, record);
    case ServerRecord(record) => ServerRecordClient(s.pair, record);
    case WroteToClient(_) => WriteDoneFlags(s.pair.client);
    case _ =>
  }

  lemma {:induction false} NothingLeft(s: Late, events: seq<Event>)
    requires !s.lost && Outstanding(s) == 0 && (TurnOver(events) || !LateMayAsk(s))
    ensures !LateRun(s, events).lost
    decreases |events|
  {
    hide LateNext, LateMayAsk, Outstanding;
    if events != [] {
      assert events[0] in events;
      OutstandingStep(s, events[0]);
      if !LateMayAsk(s) {
        AsksNoMore(s, events[0]);
      }
      NothingLeft(LateNext(s, events[0]), events[1..]);
    }
  }

  lemma LateFirst(s: Late, e: Event, events: seq<Event>)
    ensures LateRun(s, [e] + events) == LateRun(LateNext(s, e), events)
  {
    assert ([e] + events)[1..] == events;
  }

  lemma LateConnect(s: Late, host: HostName)
    requires !s.lost && !s.pair.client.paired && host in s.connects
    ensures LateRun(s, [Connected(host, true)]).lost
  {
  }

  /** The client's reader fails on its closed socket; then a connection is made. */
  lemma ConnectsTooLate(s: Late) returns (events: seq<Event>)
    requires !s.lost && Outstanding(s) > 0
    ensures TurnOver(events) && LateRun(s, events).lost
  {
    NonEmpty(s.checks);
    NonEmpty(s.connects);
    var host :| host in s.connects || host in s.checks;
    var failed, checked, connected := ReaderFailed, Checked(host, true), Connected(host, true);
    var stopped := LateNext(s, failed);
    assert !stopped.pair.client.paired;
    if host in s.connects {
      LateConnect(stopped, host);
      events := [failed] + [connected];
    } else {
      LateConnect(LateNext(stopped, checked), host);
      events := [failed] + ([checked] + [connected]);
      LateFirst(stopped, checked, [connected]);
    }
    LateFirst(s, failed, events[1..]);
  }

  /**
   * Once the client's turn is over, some continuation starts a server context that is not there exactly if a
   * check or connection is outstanding: a stop gives up neither.
   */
  lemma TooLateExactly(s: Late)
    requires !s.lost
    ensures (exists events :: TurnOver(events) && LateRun(s, events).lost) <==> Outstanding(s) > 0
  {
    if Outstanding(s) > 0 {
      var events := ConnectsTooLate(s);
    } else if events :| TurnOver(events) && LateRun(s, events).lost {
      NothingLeft(s, events);
    }
  }

  // ---- a hello after the stop

  /** The server context that a hello after the stop makes. */
  predicate Holds(s: Late, record: Record) {
    && !s.lost && s.pair.client.paired && s.pair.server.queue == [record]
    && s.pair.server.socket == NO_SOCKET && s.pair.server.writing.Idle?
  }

  /** A hello is taken after the stop as before it: for the host held, or any while there is no connection. */
  lemma HelloAfterStop(s: Late, record: Record)
    requires !s.lost && !s.pair.client.paired && !s.pair.client.clientEncrypted
    requires record != [] && IsAcceptedHello(record) && HelloHost(record) != []
    requires s.pair.client.connectedToHost ==> HelloHost(record) == s.pair.client.hostName
    ensures var t := LateNext(s, ClientRecord(record));
            && Holds(t, record) && t.sent == s.sent && s.connects == t.connects && s.checks <= t.checks
            && (!s.pair.client.connectedToHost ==> HelloHost(record) in t.checks)
  {
    assert s.sent + [] == s.sent;
  }

  lemma HeldChecked(s: Late, record: Record, host: HostName)
    requires Holds(s, record) && host in s.checks
    ensures var t := LateNext(s, Checked(host, true));
            Holds(t, record) && t.sent == s.sent && host in t.connects
  {
  }

  lemma HeldConnected(s: Late, record: Record, host: HostName)
    requires Holds(s, record) && host in s.connects
    ensures LateRun(s, [Connected(host, true)] + []).sent == s.sent + [record]
  {
    LateFirst(s, Connected(host, true), []);
  }

  /** Once the connection is made the record that waits is written. */
  lemma WrittenOnceConnected(s: Late, record: Record) returns (events: seq<Event>)
    requires Holds(s, record) && Outstanding(s) > 0
    ensures TurnOver(events) && LateRun(s, events).sent == s.sent + [record]
  {
    NonEmpty(s.checks);
    NonEmpty(s.connects);
    hide Holds, LateNext, LateRun;
    var host :| host in s.connects || host in s.checks;
    var checked, connected := Checked(host, true), Connected(host, true);
    if host in s.connects {
      HeldConnected(s, record, host);
      events := [connected] + [];
    } else {
      HeldChecked(s, record, host);
      HeldConnected(LateNext(s, checked), record, host);
      events := [checked] + ([connected] + []);
      LateFirst(s, checked, [connected] + []);
    }
  }

  lemma HelloThenWritten(s: Late, record: Record, e: Event) returns (late: seq<Event>)
    requires !s.lost && !s.pair.client.paired && !s.pair.client.clientEncrypted && e.ClientRecord?
    requires record != [] && IsAcceptedHello(record) && HelloHost(record) != []
    requires if s.pair.client.connectedToHost then HelloHost(record) == s.pair.client.hostName && Outstanding(s) > 0
             else true
    ensures Follows(e, late) && LateRun(s, late).sent == s.sent + [record]
  {
    HelloAfterStop(s, record);
    var t := LateNext(s, ClientRecord(record));
    MoreOutstanding(s, t);
    NonEmpty(t.checks);
    hide LateNext, IsAcceptedHello, HelloHost, Holds;
    var rest := WrittenOnceConnected(t, record);
    late := [ClientRecord(record)] + rest;
    RecordFollows(e, record, rest);
    LateFirst(s, ClientRecord(record), rest);
  }

  lemma MoreOutstanding(s: Late, t: Late)
    requires s.connects == t.connects && s.checks <= t.checks
    ensures Outstanding(s) <= Outstanding(t)
  {
    assert t.checks == s.checks + (t.checks - s.checks);
  }

  // ---- nothing is written

  /** No server context waits to be connected, or no connection can be made. */
  predicate Silent(s: Late) {
    && s.sent == []
    && (|| (!s.pair.client.paired && s.pair.server == FRESH)
        || (s.pair.client.connectedToHost && Outstanding(s) == 0
            && s.pair.server.socket == NO_SOCKET && s.pair.server.writing.Idle?))
  }

  lemma UnconnectedServer(p: Pair, record: Record)
    requires p.client.connectedToHost && p.server.socket == NO_SOCKET && p.server.writing.Idle?
    ensures var t := TakeClientRecord(p, record);
            && t.ask == None && t.pair.client.connectedToHost
            && t.pair.server.socket == NO_SOCKET && t.pair.server.writing.Idle?
  {
    hide Read, FirstClientHello;
    var q := Paired(p);
    if Read(record).Good? && Read(record).value.content.Handshake?
       && FirstClientHello(Read(record).value.content.messages).Some? {
      UnconnectedHello(q, record, FirstClientHello(Read(record).value.content.messages).value);
    }
    hide TakeClientHello;
  }

  lemma UnconnectedHello(p: Pair, record: Record, hello: ClientHello)
    requires p.client.connectedToHost && p.server.socket == NO_SOCKET && p.server.writing.Idle?
    ensures var t := TakeClientHello(p, record, hello);
            && t.ask == None && t.pair.client.connectedToHost
            && t.pair.server.socket == NO_SOCKET && t.pair.server.writing.Idle?
  {
  }

  lemma SilentStep(s: Late, e: Event)
    requires Silent(s) && (e.ClientRecord? ==> s.pair.client.connectedToHost && Outstanding(s) == 0)
    ensures Silent(LateNext(s, e)) || (LateNext(s, e).lost && LateNext(s, e).sent == [])
    ensures s.pair.client.connectedToHost && Outstanding(s) == 0 ==>
              LateNext(s, e).pair.client.connectedToHost && Outstanding(LateNext(s, e)) == 0
  {
    hide TakeClientRecord, OnServerRecord;
    if e.ClientRecord? {
      UnconnectedServer(s.pair, e.record);
    } else if e.ServerRecord? {
      ServerRecordClient(s.pair, e.record);
    }
  }

  lemma {:induction false} SilentRun(s: Late, events: seq<Event>)
    requires Silent(s) || (s.lost && s.sent == [])
    requires TurnOver(events) || (s.pair.client.connectedToHost && Outstanding(s) == 0) || s.lost
    ensures LateRun(s, events).sent == []
    decreases |events|
  {
    if events != [] {
      hide LateNext, Outstanding;
      assert events[0] in events;
      if s.lost {
        LostStays(s, events[0]);
      } else {
        SilentStep(s, events[0]);
      }
      SilentRun(LateNext(s, events[0]), events[1..]);
    }
  }

  lemma LostStays(s: Late, e: Event)
    requires s.lost
    ensures LateNext(s, e) == s
  {
  }

  // ---- the host a live connection holds

  /** With a check asked for, an accepted hello names the host the client context holds. */
  ghost predicate HeldNamed(s: Relay) {
    s.asked > 0 ==> Named(s.fromClient, s.pair.client.hostName)
  }

  lemma HeldNamedRecord(s: Relay, record: Record)
    requires Invariant(s) && s.pair.client.running && HeldNamed(s) && record != []
    requires OnClientRecord(s.pair, record).0.client.running
    ensures HeldNamed(Next(s, ClientRecord(record)))
  {
    hide Gated, Asked, ServerGate, Orderly, Relayed, HasChangeCipherSpec, Records, Read;
    StopsOrGoesOn(s.pair, record);
    ClientRecordHosts(s, record);
    TakenByTaker(s.pair, record);
    NamedStays(s.fromClient, s.fromClient + [record]);
    if OnClientRecord(s.pair, record).1.Some? {
      NamedByLast(s.fromClient, record);
    }
    hide TakeClientRecord, IsAcceptedHello, HelloHost, Named;
  }

  lemma HeldNamedOther(s: Relay, e: Event)
    requires Enabled(s, e) && Next(s, e).pair.client.running && HeldNamed(s) && (e.ClientRecord? ==> e.record == [])
    ensures HeldNamed(Next(s, e))
  {
    HostsFromOther(s, e);
    hide OnServerRecord, DoWrite, Named;
  }

  lemma {:induction false} HeldNamedRun(events: seq<Event>)
    ensures Run(events).pair.client.running ==> HeldNamed(Run(events))
    decreases |events|
  {
    if events != [] {
      var front, e := events[..|events| - 1], events[|events| - 1];
      HeldNamedRun(front);
      RunKeeps(front);
      var s := Run(front);
      hide Invariant, HeldNamed;
      if Enabled(s, e) && Next(s, e).pair.client.running {
        if e.ClientRecord? && e.record != [] {
          LiveAfterRecord(s, e.record);
          HeldNamedRecord(s, e.record);
        } else {
          HeldNamedOther(s, e);
        }
      }
    }
  }

  // ---- main results, for every run that is stopped

  /** The event stops the connection. */
  predicate Stops(s: Relay, e: Event) {
    Enabled(s, e) && !Next(s, e).pair.client.running
  }

  /** The context of the client after the stop, and what is outstanding. */
  predicate LeftBy(s: Relay, e: Event, t: Late) {
    && Outstanding(t) == |s.checks| + |s.connects| - (if e.Checked? || e.Connected? then 1 else 0)
    && !t.pair.client.paired && t.pair.server == FRESH
    && t.pair.client.connectedToHost == s.pair.client.connectedToHost
    && t.pair.client.hostName == s.pair.client.hostName
    && (e.ClientRecord? ==> !t.pair.client.clientEncrypted)
  }

  lemma StoppedByRecord(s: Relay, record: Record)
    requires Stops(s, ClientRecord(record))
    ensures LeftBy(s, ClientRecord(record), AfterStop(Next(s, ClientRecord(record))))
  {
    StopsOrGoesOn(s.pair, record);
    StoppingTakes(s.pair, record);
    hide TakeClientRecord, IsAcceptedHello, DoWrite;
  }

  lemma StoppedByServer(s: Relay, record: Record)
    requires Stops(s, ServerRecord(record))
    ensures LeftBy(s, ServerRecord(record), AfterStop(Next(s, ServerRecord(record))))
  {
    hide OnServerRecord;
    ServerRecordClient(s.pair, record);
  }

  lemma StopLeft(s: Relay, e: Event)
    requires Stops(s, e)
    ensures LeftBy(s, e, AfterStop(Next(s, e)))
  {
    match e
    case ClientRecord(record) => StoppedByRecord(s, record);
    case ServerRecord(record) => StoppedByServer(s, record);
    case _ =>
  }

  lemma AskedFor(s: Relay)
    requires Invariant(s) && s.pair.client.running
    ensures s.asked == |s.checks| + |s.connects| + s.links
  {
  }

  /** Checks or connections that the stop has not ended, but for the one that stopped it. */
  predicate LeavesOutstanding(s: Relay, e: Event) {
    s.asked > s.links + if e.Checked? || e.Connected? then 1 else 0
  }

  /**
   * In every run: a connection that is stopped may still call a context that is not there exactly if it leaves
   * something outstanding, or a record of the client stopped it before it was connected, so that a hello that follows
   * in that turn has another check made.
   */
  lemma StoppedRunExactly(events: seq<Event>, e: Event)
    requires Stops(Run(events), e)
    ensures var s := Run(events);
            (exists late :: Follows(e, late) && LateRun(AfterStop(Next(s, e)), late).lost)
            <==> LeavesOutstanding(s, e) || (e.ClientRecord? && !s.pair.client.connectedToHost)
  {
    hide Next, Run, Invariant, LateRun, TurnOver, Follows, LateNext, IsAcceptedHello, HelloHost;
    RunKeeps(events);
    var s := Run(events);
    AskedFor(s);
    StopLeft(s, e);
    var t := AfterStop(Next(s, e));
    if LeavesOutstanding(s, e) {
      var late := ConnectsTooLate(t);
      TurnOverFollows(e, late);
    } else if e.ClientRecord? && !s.pair.client.connectedToHost {
      HelloAccepted([97]);
      var hello := HelloRecord([97]);
      HelloAfterStop(t, hello);
      NonEmpty(LateNext(t, ClientRecord(hello)).checks);
      var rest := ConnectsTooLate(LateNext(t, ClientRecord(hello)));
      RecordFollows(e, hello, rest);
      LateFirst(t, ClientRecord(hello), rest);
    } else if late :| Follows(e, late) && LateRun(t, late).lost {
      FollowsOver(e, late);
      NothingLeft(t, late);
    }
  }

  lemma FollowsOver(e: Event, late: seq<Event>)
    requires Follows(e, late)
    ensures !e.ClientRecord? ==> TurnOver(late)
  {
  }

  /**
   * In every run: after the stop a record may still be written to a server exactly if a record of the client stopped
   * the connection, so that more may follow in that turn, and a connection is still to come or may be asked for.
   */
  lemma WrittenAfterStopExactly(events: seq<Event>, e: Event)
    requires Stops(Run(events), e)
    ensures var s := Run(events);
            (exists late :: Follows(e, late) && LateRun(AfterStop(Next(s, e)), late).sent != [])
            <==> e.ClientRecord? && (LeavesOutstanding(s, e) || !s.pair.client.connectedToHost)
  {
    hide Next, Run, Invariant, LateRun, TurnOver, Follows, LateNext, IsAcceptedHello, HelloHost;
    RunKeeps(events);
    HeldNamedRun(events);
    var s := Run(events);
    AskedFor(s);
    StopLeft(s, e);
    var t := AfterStop(Next(s, e));
    if e.ClientRecord? && !s.pair.client.connectedToHost {
      HelloAccepted([97]);
      var hello := HelloRecord([97]);
      var late := HelloThenWritten(t, hello, e);
    } else if e.ClientRecord? && LeavesOutstanding(s, e) {
      var i :| 0 <= i < |s.fromClient| && IsAcceptedHello(s.fromClient[i])
               && HelloHost(s.fromClient[i]) == s.pair.client.hostName;
      NotEmpty(s.fromClient[i]);
      var late := HelloThenWritten(t, s.fromClient[i], e);
    } else {
      forall late | Follows(e, late)
        ensures LateRun(t, late).sent == []
      {
        FollowsOver(e, late);
        SilentRun(t, late);
      }
    }
  }

  lemma NotEmpty(record: Record)
    requires IsAcceptedHello(record)
    ensures record != []
  {
  }
}
