/** Over which connection the server's records are read: a running reader is not started on another. */
module RelayReads {
  import opened Bytes
  import opened Options
  import opened Framing
  import opened RelaySpec
  import opened RelayRuns
  import RelaySplits

  /** A relay, the connection its server context's reader reads, and for each of the server's records its connection. */
  datatype Reading = Reading(relay: Relay, reader: Option<nat>, origins: seq<nat>)

  /** `StreamEnded`: the reader comes to the end of its stream and stops; it tells nobody. */
  datatype ReadEvent = Of(event: Event) | StreamEnded

  const UNREAD := Reading(RelayRuns.INITIAL, None, [])

  predicate ReadEnabled(s: Reading, e: ReadEvent) {
    match e
    case Of(event) => Enabled(s.relay, event) && (event.ServerRecord? ==> s.reader.Some?)
    case StreamEnded => s.reader.Some?
  }

  predicate MakesLink(e: ReadEvent) {
    e.Of? && e.event.Connected? && e.event.ok
  }

  function ReadNext(s: Reading, e: ReadEvent): Reading {
    if !ReadEnabled(s, e) then s
    else
      match e
      case StreamEnded => s.(reader := None)
      case Of(event) =>
        var relay := Next(s.relay, event);
        Reading(relay,
                if MakesLink(e) && s.reader.None? then Some(relay.links) else s.reader,
                if event.ServerRecord? then s.origins + [s.reader.value] else s.origins)
  }

  function ReadRun(events: seq<ReadEvent>): Reading
    decreases |events|
  {
    if events == [] then UNREAD else ReadNext(ReadRun(events[..|events| - 1]), events[|events| - 1])
  }

  lemma RunMore(events: seq<Event>, e: Event)
    ensures Run(events + [e]) == Next(Run(events), e)
  {
  }

  /** Whatever is proved of the relay's runs holds of these. */
  lemma {:induction false} RunsOfTheRelay(events: seq<ReadEvent>)
    ensures exists plain :: ReadRun(events).relay == Run(plain)
    decreases |events|
  {
    hide Next, Enabled, Run;
    if events == [] {
      assert Run([]) == RelayRuns.INITIAL by {
        NoEvents();
      }
    } else {
      var s, e := ReadRun(events[..|events| - 1]), events[|events| - 1];
      RunsOfTheRelay(events[..|events| - 1]);
      var plain :| s.relay == Run(plain);
      if e.Of? {
        RunMore(plain, e.event);
      }
    }
  }

  lemma NoEvents()
    ensures Run([]) == RelayRuns.INITIAL
  {
  }

  // ---- what is read

  /** The reader reads a connection that was made; every record was read over one that was made no later. */
  predicate ReadsMade(s: Reading) {
    && (s.reader.Some? ==> 0 < s.reader.value <= s.relay.links)
    && (forall i :: 0 <= i < |s.origins| ==> 0 < s.origins[i] <= s.relay.links)
    && (forall i :: 0 <= i < |s.origins| && s.reader.Some? ==> s.origins[i] <= s.reader.value)
    && |s.origins| == |s.relay.fromServer|
  }

  lemma LogGrows(s: Relay, e: Event)
    ensures |Next(s, e).fromServer| == |s.fromServer| + if e.ServerRecord? && Enabled(s, e) then 1 else 0
  {
    hide TakeClientRecord, OnServerRecord, DoWrite;
  }

  lemma ReadsMadeStep(s: Reading, e: ReadEvent)
    requires ReadsMade(s)
    ensures ReadsMade(ReadNext(s, e))
  {
    hide Next, Enabled;
    if e.Of? {
      LogGrows(s.relay, e.event);
      RelaySplits.WritesGrow(s.relay, e.event);
      if MakesLink(e) && ReadEnabled(s, e) {
        LinkMade(s.relay, e.event);
      }
    }
  }

  lemma LinkMade(s: Relay, e: Event)
    requires Enabled(s, e) && e.Connected? && e.ok
    ensures Next(s, e).links == s.links + 1
  {
  }

  lemma {:induction false} ReadsMadeRun(events: seq<ReadEvent>)
    ensures ReadsMade(ReadRun(events))
    decreases |events|
  {
    if events != [] {
      hide ReadNext, ReadsMade;
      ReadsMadeRun(events[..|events| - 1]);
      ReadsMadeStep(ReadRun(events[..|events| - 1]), events[|events| - 1]);
    }
  }

  /** The first connection is read, and no other as long as its stream does not end. */
  predicate FirstRead(s: Reading) {
    && (s.relay.links > 0 <==> s.reader == Some(1)) && (s.reader.Some? ==> s.reader == Some(1))
    && forall i :: 0 <= i < |s.origins| ==> s.origins[i] == 1
  }

  lemma FirstReadStep(s: Reading, e: ReadEvent)
    requires FirstRead(s) && e.Of?
    ensures FirstRead(ReadNext(s, e))
  {
    hide Next, Enabled;
    RelaySplits.WritesGrow(s.relay, e.event);
    if MakesLink(e) && ReadEnabled(s, e) {
      LinkMade(s.relay, e.event);
    }
  }

  /** However many connections are made, all records of the server are read over the first until its stream ends. */
  lemma {:induction false} OnlyFirstRead(events: seq<ReadEvent>)
    requires StreamEnded !in events
    ensures FirstRead(ReadRun(events))
    decreases |events|
  {
    if events != [] {
      hide ReadNext, FirstRead;
      OnlyFirstRead(events[..|events| - 1]);
      FirstReadStep(ReadRun(events[..|events| - 1]), events[|events| - 1]);
    }
  }

  // ---- whether the last connection can be read

  /** The events from `n` on make no further connection. */
  predicate NoMoreLinks(events: seq<ReadEvent>, n: nat) {
    forall i :: n <= i < |events| ==> !MakesLink(events[i])
  }

  /** No record is read over this connection but those there were. */
  predicate Unheard(s: Reading, n: nat, link: nat) {
    s.reader != Some(link) && n <= |s.origins| && forall i :: n <= i < |s.origins| ==> s.origins[i] != link
  }

  lemma {:induction false} StaysUnheard(events: seq<ReadEvent>, later: seq<ReadEvent>, link: nat)
    requires events <= later && NoMoreLinks(later, |events|) && ReadRun(events).reader != Some(link)
    ensures Unheard(ReadRun(later), |ReadRun(events).origins|, link)
    decreases |later|
  {
    hide Next, Enabled;
    if |later| > |events| {
      StaysUnheard(events, later[..|later| - 1], link);
    } else {
      assert later == events;
    }
  }

  /** Some continuation without another connection reads a record over the last one. */
  ghost predicate CanBeRead(events: seq<ReadEvent>) {
    exists later, i: nat ::
      && events <= later && NoMoreLinks(later, |events|)
      && |ReadRun(events).origins| <= i < |ReadRun(later).origins|
      && ReadRun(later).origins[i] == ReadRun(events).relay.links
  }

  lemma ServerRuns(events: seq<ReadEvent>)
    requires ReadRun(events).relay.pair.client.running && ReadRun(events).relay.links > 0
    ensures ReadRun(events).relay.pair.server.running
  {
    hide Next, ReadRun, Run;
    RunsOfTheRelay(events);
    var plain :| ReadRun(events).relay == Run(plain);
    RunKeeps(plain);
  }

  /**
   * Of a live relay the last connection can still be read, without another being made, exactly if the reader runs on
   * it: a connection made while the reader runs on an earlier one is written to and never read.
   */
  lemma LastReadExactly(events: seq<ReadEvent>)
    requires ReadRun(events).relay.pair.client.running && ReadRun(events).relay.links > 0
    ensures CanBeRead(events) <==> ReadRun(events).reader == Some(ReadRun(events).relay.links)
  {
    var s := ReadRun(events);
    if s.reader == Some(s.relay.links) {
      ServerRuns(events);
      ReadOneMore(events, RelaySplits.ALERT);
    } else {
      hide ReadRun;
      forall later | events <= later && NoMoreLinks(later, |events|)
        ensures Unheard(ReadRun(later), |s.origins|, s.relay.links)
      {
        StaysUnheard(events, later, s.relay.links);
      }
    }
  }

  lemma ReadOneMore(events: seq<ReadEvent>, record: Record)
    requires var s := ReadRun(events);
             s.relay.pair.client.running && s.relay.pair.server.running && s.reader == Some(s.relay.links)
    ensures CanBeRead(events)
  {
    hide Next;
    var s, later := ReadRun(events), events + [Of(ServerRecord(record))];
    assert later[..|events|] == events;
    assert ReadRun(later).origins == s.origins + [s.relay.links];
    assert ReadRun(later).origins[|s.origins|] == s.relay.links;
  }

  // ---- what a later stream is read behind

  /** A record of five bytes of this type. */
  function BareRecord(kind: byte): seq<byte> {
    [kind, 3, 1, 0, 0]
  }

  lemma BareSplit(kind: byte)
    ensures IsRecord(BareRecord(kind)) && Split(BareRecord(kind)).records == [BareRecord(kind)]
  {
    var r := BareRecord(kind);
    assert RecordSize(r) == 5 && r[..5] == r && r[5..] == [];
  }

  lemma FirstOfFirst(s: seq<byte>)
    requires Split(s).records != []
    ensures s != [] && Split(s).records[0] != [] && Split(s).records[0][0] == s[0]
  {
  }

  /**
   * The reader keeps what the stream before left over, less than a record, and puts it before the next stream. That
   * stream's own records are what is read, whatever it brings, exactly if nothing was left.
   */
  lemma OwnRecordsExactly(rest: seq<byte>)
    ensures (forall b :: Split(rest + b).records == Split(b).records) <==> rest == []
  {
    if rest == [] {
      assert forall b :: rest + b == b;
    } else {
      var kind: byte := if rest[0] == 0 then 1 else 0;
      var b := BareRecord(kind);
      BareSplit(kind);
      if Split(rest + b).records != [] {
        FirstOfFirst(rest + b);
      }
      assert Split(rest + b).records != Split(b).records;
    }
  }
}
