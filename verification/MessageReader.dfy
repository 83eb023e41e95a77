/** Cutting a byte stream into TLS records: the meaning of the reader, without a buffer. */
module Framing {
  import opened Bytes

  /** Type, version and length of a record (section 5.1 of RFC 8446). */
  const HEADER_SIZE := 5

  /** Whole size of the record whose header starts `s`. */
  function RecordSize(s: seq<byte>): (n: nat)
    requires |s| >= HEADER_SIZE
    ensures n >= HEADER_SIZE
  {
    HEADER_SIZE + U16(s[3..HEADER_SIZE])
  }

  predicate StartsWithRecord(s: seq<byte>) {
    |s| >= HEADER_SIZE && |s| >= RecordSize(s)
  }

  predicate IsRecord(s: seq<byte>) {
    |s| >= HEADER_SIZE && |s| == RecordSize(s)
  }

  predicate AllRecords(records: seq<seq<byte>>) {
    forall i :: 0 <= i < |records| ==> IsRecord(records[i])
  }

  datatype Pieces = Pieces(records: seq<seq<byte>>, rest: seq<byte>)

  /** The records at the front of `s`, and what is left over. */
  function Split(s: seq<byte>): Pieces
    decreases |s|
  {
    if !StartsWithRecord(s) then Pieces([], s)
    else
      var tail := Split(s[RecordSize(s)..]);
      Pieces([s[..RecordSize(s)]] + tail.records, tail.rest)
  }

  /** Splitting loses nothing and leaves no record behind. */
  lemma {:induction false} SplitTiles(s: seq<byte>)
    ensures Concat(Split(s).records) + Split(s).rest == s
    ensures !StartsWithRecord(Split(s).rest)
    decreases |s|
  {
    hide RecordSize;
    if StartsWithRecord(s) {
      var first, tail := s[..RecordSize(s)], Split(s[RecordSize(s)..]);
      SplitTiles(s[RecordSize(s)..]);
      assert Split(s).records == [first] + tail.records && Split(s).rest == tail.rest;
      assert ([first] + tail.records)[1..] == tail.records;
      hide Split, StartsWithRecord;
      Regroup(first, Concat(tail.records), tail.rest);
    }
  }

  /** All the pieces are records. */
  lemma {:induction false} SplitYieldsRecords(s: seq<byte>)
    ensures AllRecords(Split(s).records)
    decreases |s|
  {
    if StartsWithRecord(s) {
      SplitYieldsRecords(s[RecordSize(s)..]);
      assert IsRecord(s[..RecordSize(s)]);
    }
  }

  /** A record in front is cut off first. */
  lemma SplitOfRecord(record: seq<byte>, more: seq<byte>)
    requires IsRecord(record)
    ensures Split(record + more) == Pieces([record] + Split(more).records, Split(more).rest)
  {
  }

  /** Records already cut off stay cut off whatever follows them. */
  lemma {:induction false} SplitOfRecords(records: seq<seq<byte>>, rest: seq<byte>)
    requires AllRecords(records)
    ensures Split(Concat(records) + rest) == Pieces(records + Split(rest).records, Split(rest).rest)
    decreases |records|
  {
    if records == [] {
      assert Concat(records) + rest == rest;
    } else {
      var first := records[0];
      SplitOfRecord(first, Concat(records[1..]) + rest);
      SplitOfRecords(records[1..], rest);
      Regroup(first, Concat(records[1..]), rest);
      Regroup([first], records[1..], Split(rest).records);
      assert [first] + records[1..] == records;
    }
  }

  /** A stream may be split in two goes: what the first leaves over is put before what comes next. */
  lemma SplitResumes(a: seq<byte>, b: seq<byte>)
    ensures Split(a + b).records == Split(a).records + Split(Split(a).rest + b).records
    ensures Split(a + b).rest == Split(Split(a).rest + b).rest
  {
    SplitTiles(a);
    SplitYieldsRecords(a);
    var p := Split(a);
    SplitOfRecords(p.records, p.rest + b);
    assert a + b == Concat(p.records) + (p.rest + b);
  }

  /** The handler takes its size as a 16-bit number. */
  function AsSeen(record: seq<byte>): seq<byte> {
    record[..|record| % 0x1_0000]
  }

  function AllAsSeen(records: seq<seq<byte>>): (seen: seq<seq<byte>>)
    ensures |seen| == |records|
    ensures forall i :: 0 <= i < |records| ==> seen[i] == AsSeen(records[i])
  {
    seq(|records|, i requires 0 <= i < |records| => AsSeen(records[i]))
  }

  lemma AllAsSeenAppend(records: seq<seq<byte>>, record: seq<byte>)
    ensures AllAsSeen(records + [record]) == AllAsSeen(records) + [AsSeen(record)]
  {
  }

  /** The handler sees the records themselves exactly when no length field is above 65530. */
  lemma SeenWholeExactly(records: seq<seq<byte>>)
    requires AllRecords(records)
    ensures AllAsSeen(records) == records <==>
            forall r :: r in records ==> |r| - HEADER_SIZE <= 65530
  {
    var seen := AllAsSeen(records);
    assert forall i :: 0 <= i < |records| ==> (seen[i] == records[i] <==> RecordSize(records[i]) <= 0xFFFF);
  }

  /** Bytes asked for while `window` is buffered and holds no whole record. */
  function Wanted(window: seq<byte>): nat
    requires !StartsWithRecord(window)
  {
    if |window| < HEADER_SIZE then HEADER_SIZE else RecordSize(window) - |window|
  }

  /** A header is buffered in part, and the record it begins would be whole with `arrived`. */
  predicate HeldBack(window: seq<byte>, arrived: seq<byte>) {
    0 < |window| < HEADER_SIZE && StartsWithRecord(window + arrived)
  }

  /**
   * Fewer than the wanted bytes have arrived, so the pending read does not complete. All the records of
   * the stream have been handed over, unless a header was buffered in part: asking then for five bytes
   * more, and not for the missing ones, holds a record of up to eight bytes back.
   */
  lemma HeldBackExactly(received: seq<byte>, arrived: seq<byte>)
    ensures !StartsWithRecord(Split(received).rest)
    ensures |arrived| < Wanted(Split(received).rest) ==>
      (Split(received + arrived).records == Split(received).records <==>
       !HeldBack(Split(received).rest, arrived))
    ensures |Split(received).rest| >= HEADER_SIZE ==>
      (|arrived| >= Wanted(Split(received).rest) <==> StartsWithRecord(Split(received).rest + arrived))
  {
    SplitTiles(received);
    SplitResumes(received, arrived);
    var window := Split(received).rest;
    var more := Split(window + arrived).records;
    assert more == [] <==> !StartsWithRecord(window + arrived);
    assert Split(received + arrived).records == Split(received).records + more;
    if |window| >= HEADER_SIZE {
      assert RecordSize(window + arrived) == RecordSize(window);
    }
  }

  /** A TLS 1.3 change_cipher_spec record of six bytes cut after its third is held back. */
  lemma ChangeCipherSpecHeldBack()
    ensures var received, arrived := [0x14, 3, 3], [0, 1, 1];
            && IsRecord(received + arrived)
            && |arrived| < Wanted(Split(received).rest)
            && HeldBack(Split(received).rest, arrived)
            && Split(received).records == [] && Split(received + arrived).records == [received + arrived]
  {
    var whole: seq<byte> := [0x14, 3, 3, 0, 1, 1];
    assert [0x14, 3, 3] + [0, 1, 1] == whole;
    assert RecordSize(whole) == 6;
    assert whole[..6] == whole && whole[6..] == [];
    assert Split(whole).records == [whole];
  }
}

/** `MessageReader` over a TCP stream, for the TLS record header. */
module MessageReader {
  import opened Bytes
  import opened Framing

  datatype NextStep = Read | Pause | Stop
  datatype Status = STOP | RUNNING

  /** The reasons a handler is called for without a message. */
  datatype Notice = IO_ERROR | MANUALLY_STOPPED | CONNECTION_CLOSED

  /** What a handler does with a message: its result, and whether it called `Stop` on the reader meanwhile. */
  datatype Reply = Reply(next: NextStep, stops: bool)

  /** A handler answers by the messages shown to it so far, the current one last. */
  type Handler = seq<seq<byte>> -> Reply

  /** How one turn of the reader ends; `Reading` is a pending read into the free tail of the buffer. */
  datatype Outcome =
    | Ended
    | Paused
    | Idle
    | Reading(at: nat, atLeast: nat, room: nat)

  datatype Error = EofOrCanceled | OtherError

  /** No buffer outgrows this however long the stream is. */
  const BUFFER_LIMIT := 131075

  ghost predicate NeverStops(handler: Handler) {
    forall messages :: !handler(messages).stops
  }

  /** The handler always answers that it wants more, though it may call `Stop`. */
  ghost predicate AnswersRead(handler: Handler) {
    forall messages :: handler(messages).next == Read
  }

  /** The handler always asks for more. */
  ghost predicate AlwaysReads(handler: Handler) {
    NeverStops(handler) && AnswersRead(handler)
  }

  /** One of the messages made the handler stop the reader, by its answer or by a call. */
  ghost predicate Halts(handler: Handler, messages: seq<seq<byte>>) {
    exists k :: 0 < k <= |messages| && (handler(messages[..k]).stops || handler(messages[..k]).next == Stop)
  }

  lemma HaltsAppend(handler: Handler, messages: seq<seq<byte>>, message: seq<byte>)
    ensures var longer := messages + [message];
            Halts(handler, longer) <==>
            Halts(handler, messages) || handler(longer).stops || handler(longer).next == Stop
  {
    var longer := messages + [message];
    assert longer[..|longer|] == longer;
    assert forall k :: 0 <= k <= |messages| ==> longer[..k] == messages[..k];
    if Halts(handler, messages) {
      var k :| 0 < k <= |messages| && (handler(messages[..k]).stops || handler(messages[..k]).next == Stop);
      assert longer[..k] == messages[..k];
    }
  }

  /** The handler answered `Read` to the messages after the first `from` up to `to`. */
  ghost predicate ReadsOn(handler: Handler, messages: seq<seq<byte>>, from: nat, to: nat)
    requires from <= to <= |messages|
  {
    forall k :: from < k <= to ==> handler(messages[..k]).next == Read
  }

  lemma ReadsOnFurther(handler: Handler, messages: seq<seq<byte>>, longer: seq<seq<byte>>, from: nat, to: nat)
    requires from <= |messages| <= to <= |longer| && messages <= longer
    requires ReadsOn(handler, messages, from, |messages|) && ReadsOn(handler, longer, |messages|, to)
    ensures ReadsOn(handler, longer, from, to)
  {
    assert forall k :: 0 <= k <= |messages| ==> longer[..k] == messages[..k];
  }

  /** The handler answered `Read` to all messages but perhaps the last. */
  ghost predicate ReadsUntilLast(handler: Handler, messages: seq<seq<byte>>, from: nat)
    requires from <= |messages|
  {
    from < |messages| ==> ReadsOn(handler, messages, from, |messages| - 1)
  }

  class MessageReader {
    var status: Status
    var dataOffset: nat
    var dataSize: nat
    var tcpMessageSize: nat
    var buffer: array<byte>

    // the calls of the handler since the last reset: with a message, and without one
    var messages: seq<seq<byte>>
    var notices: seq<Notice>

    ghost var received: seq<byte>        // bytes the reads have brought since the last reset
    ghost var records: seq<seq<byte>>    // records taken out of them
    ghost var ceiling: nat

    ghost predicate Valid()
      reads this, buffer
    {
      && dataOffset + dataSize <= buffer.Length <= ceiling
      && BUFFER_LIMIT <= ceiling
      && Accounted(Window(), tcpMessageSize, records, messages, received)
    }

    /** Every byte received is in a record shown to the handler or still in the window. */
    static ghost predicate Accounted(window: seq<byte>, pending: nat, records: seq<seq<byte>>,
                                     messages: seq<seq<byte>>, received: seq<byte>)
    {
      && (pending != 0 ==> |window| >= HEADER_SIZE && pending == RecordSize(window))
      && AllRecords(records)
      && Concat(records) + window == received
      && messages == AllAsSeen(records)
    }

    /** The bytes buffered and not yet consumed. */
    ghost function Window(): seq<byte>
      requires dataOffset + dataSize <= buffer.Length
      reads this, buffer
    {
      buffer[..][dataOffset..dataOffset + dataSize]
    }

    /** A read is pending: it fits the free tail, and no whole record was left unshown. */
    ghost predicate Awaiting(outcome: Outcome)
      requires dataOffset + dataSize <= buffer.Length
      reads this, buffer
    {
      && outcome.Reading?
      && outcome.at == dataOffset + dataSize
      && outcome.at + outcome.room == buffer.Length
      && !StartsWithRecord(Window())
      && outcome.atLeast == Wanted(Window())
      && 0 < outcome.atLeast <= outcome.room
      && outcome.atLeast <= 0xFFFF
    }

    constructor ()
      ensures Valid() && fresh(buffer)
      ensures status == STOP && messages == [] && notices == [] && received == [] && records == []
      ensures ceiling == BUFFER_LIMIT
    {
      status, dataOffset, dataSize, tcpMessageSize := STOP, 0, 0, 0;
      buffer := new byte[0];
      messages, notices := [], [];
      received, records, ceiling := [], [], BUFFER_LIMIT;
      new;
      assert Window() == [];
    }

    /** Forgets all buffered bytes. */
    method Reset()
      requires Valid()
      modifies this
      ensures Valid() && status == STOP && dataSize == 0
      ensures received == [] && records == [] && messages == [] && notices == []
      ensures buffer == old(buffer) && ceiling == old(ceiling)
    {
      status, dataOffset, dataSize, tcpMessageSize := STOP, 0, 0, 0;
      messages, notices, received, records := [], [], [], [];
    }

    method Stop()
      modifies `status
      ensures status == STOP
    {
      status := STOP;
    }

    /** Shows the handler a message; the handler may call `Stop`. */
    method Show(handler: Handler, message: seq<byte>) returns (next: NextStep)
      modifies `messages, `status
      ensures messages == old(messages) + [message]
      ensures next == handler(messages).next
      ensures status == if handler(messages).stops then STOP else old(status)
    {
      messages := messages + [message];
      next := handler(messages).next;
      if handler(messages).stops {
        Stop();
      }
    }

    /** Calls the handler without a message, after which the reader is stopped. */
    method Notify(notice: Notice)
      modifies `notices, `status
      ensures notices == old(notices) + [notice] && status == STOP
    {
      notices := notices + [notice];
      status := STOP;
    }

    static lemma ReadsOnExtends(handler: Handler, messages: seq<seq<byte>>, message: seq<byte>, from: nat)
      requires from <= |messages| && ReadsOn(handler, messages, from, |messages|)
      ensures ReadsOn(handler, messages + [message], from, |messages|)
      ensures handler(messages + [message]).next == Read ==>
                ReadsOn(handler, messages + [message], from, |messages| + 1)
    {
      var longer := messages + [message];
      assert longer[..|messages| + 1] == longer;
      assert forall k :: 0 <= k <= |messages| ==> longer[..k] == messages[..k];
    }

    /** Moving the first record out of the window and showing it accounts for it. */
    static lemma TakeOut(window: seq<byte>, pending: nat, records: seq<seq<byte>>,
                         messages: seq<seq<byte>>, received: seq<byte>)
      requires Accounted(window, pending, records, messages, received) && StartsWithRecord(window)
      ensures var n := RecordSize(window);
              Accounted(window[n..], 0, records + [window[..n]], messages + [AsSeen(window[..n])], received)
    {
      var record, rest := window[..RecordSize(window)], window[RecordSize(window)..];
      assert window == record + rest;
      assert IsRecord(record);
      ConcatAppend(records, record);
      Regroup(Concat(records), record, rest);
      AllAsSeenAppend(records, record);
    }

    /** A window of a buffer parted after `n` bytes, of which 16 bits count. */
    static lemma FrontOf(all: seq<byte>, from: nat, size: nat, n: nat)
      requires from + size <= |all| && n <= size
      ensures all[from..from + size][n..] == all[from + n..from + size]
      ensures AsSeen(all[from..from + size][..n]) == all[from..from + n % 0x1_0000]
    {
      SubSlice(all, from, size, n);
      SubSlice(all, from, n, n % 0x1_0000);
    }

    /** Shows the whole record at the front of the window and consumes it. */
    method ShowOne(handler: Handler, ghost record: seq<byte>) returns (next: NextStep)
      requires Valid() && StartsWithRecord(Window()) && tcpMessageSize == RecordSize(Window())
      requires record == Window()[..tcpMessageSize]
      modifies `messages, `status, `dataOffset, `dataSize, `tcpMessageSize, `records
      ensures Valid() && tcpMessageSize == 0
      ensures dataOffset == old(dataOffset) + |record| && dataSize == old(dataSize) - |record|
      ensures records == old(records) + [record] && messages == old(messages) + [AsSeen(record)]
      ensures next == handler(messages).next
      ensures status == if handler(messages).stops then STOP else old(status)
    {
      hide Accounted, RecordSize, AsSeen;
      TakeOut(Window(), tcpMessageSize, records, messages, received);
      FrontOf(buffer[..], dataOffset, dataSize, tcpMessageSize);
      var message := buffer[dataOffset..dataOffset + tcpMessageSize % 0x1_0000];
      assert message == AsSeen(record);
      next := Show(handler, message);
      dataSize := dataSize - tcpMessageSize;
      dataOffset := dataOffset + tcpMessageSize;
      tcpMessageSize := 0;
      records := records + [record];
    }

    /**
     * The framing loop: shows whole records one after another. `status` is not looked at in between, so
     * only the handler's result ends the loop early.
     */
    method ShowRecords(handler: Handler) returns (next: NextStep)
      requires Valid()
      modifies `messages, `status, `dataOffset, `dataSize, `tcpMessageSize, `records
      ensures Valid() && old(messages) <= messages
      ensures next.Read? ==> ReadsOn(handler, messages, |old(messages)|, |messages|)
      ensures next.Read? ==> !StartsWithRecord(Window()) && (tcpMessageSize == 0 <==> dataSize < HEADER_SIZE)
      ensures !Halts(handler, messages) ==> status == old(status)
      ensures !next.Read? ==> |old(messages)| < |messages| && ReadsOn(handler, messages, |old(messages)|, |messages| - 1)
      ensures !next.Read? ==> next == handler(messages).next
      ensures next.Stop? ==> status == STOP
    {
      hide Accounted, Halts;
      next := Read;
      while true
        invariant Valid() && old(messages) <= messages
        invariant ReadsOn(handler, messages, |old(messages)|, |messages|)
        invariant !Halts(handler, messages) ==> status == old(status)
        invariant next == Read
        decreases dataSize
      {
        var whole := HasRecord();
        if !whole {
          break;
        }
        ghost var was := messages;
        next := ShowOne(handler, Window()[..tcpMessageSize]);
        ReadsOnExtends(handler, was, messages[|was|], |old(messages)|);
        HaltsAppend(handler, was, messages[|was|]);
        if next == Pause {
          return;
        } else if next == NextStep.Stop {
          Stop();
          return;
        }
      }
    }

    /** Whether the window starts with a whole record; learns its size as soon as the header is there. */
    method HasRecord() returns (whole: bool)
      requires Valid()
      modifies `tcpMessageSize
      ensures Valid() && whole == StartsWithRecord(Window())
      ensures tcpMessageSize == if dataSize < HEADER_SIZE then 0 else RecordSize(Window())
    {
      if tcpMessageSize == 0 {
        if dataSize < HEADER_SIZE {
          return false;
        }
        assert Window()[3] == buffer[dataOffset + 3] && Window()[4] == buffer[dataOffset + 4];
        tcpMessageSize := HEADER_SIZE + U16(buffer[dataOffset + 3..dataOffset + HEADER_SIZE]);
      }
      whole := dataSize >= tcpMessageSize;
    }

    /** With no whole record in the window, the records taken out are all the stream has so far. */
    lemma CaughtUp()
      requires Valid() && !StartsWithRecord(Window())
      ensures Split(received) == Pieces(records, Window())
    {
      SplitOfRecords(records, Window());
      assert records + [] == records;
    }

    /** The records taken out are the first of those received. */
    lemma TakenFirst()
      requires Valid()
      ensures records <= Split(received).records && Concat(records) + Window() == received
    {
      SplitOfRecords(records, Window());
    }

    /**
     * The turn ended as the handler's last answer says, and it was asked no further than that. A call of `Stop`
     * shows in the status alone.
     */
    ghost predicate Answered(outcome: Outcome, handler: Handler, from: nat)
      reads this
    {
      && from <= |messages| && ReadsUntilLast(handler, messages, from) && outcome != Idle
      && (outcome.Reading? ==> ReadsOn(handler, messages, from, |messages|))
      && (!outcome.Reading? ==> from < |messages| && handler(messages).next != Read)
      && (outcome == Paused ==> handler(messages).next == Pause)
      && (outcome == Ended ==> handler(messages).next == NextStep.Stop)
      && (!Halts(handler, messages) ==> status == RUNNING)
    }

    /** One turn: show what is whole, then make room and ask for more. */
    method DoReadStream(open: bool, handler: Handler) returns (outcome: Outcome)
      requires Valid()
      modifies this, buffer
      ensures Valid() && (buffer == old(buffer) || fresh(buffer)) && ceiling == old(ceiling)
      ensures received == old(received)
      ensures old(messages) <= messages
      ensures old(status) == STOP ==> outcome == Ended && notices == old(notices) + [MANUALLY_STOPPED]
      ensures old(status) != STOP && !open ==> outcome == Ended && notices == old(notices) + [CONNECTION_CLOSED]
      ensures old(status) == STOP || !open ==> messages == old(messages)
      ensures old(status) != STOP && open ==> notices == old(notices) && Answered(outcome, handler, |old(messages)|)
      ensures old(status) != STOP && open && AnswersRead(handler) ==> outcome.Reading?
      ensures outcome == Ended ==> status == STOP
      ensures outcome.Reading? ==> Awaiting(outcome) && records == Split(received).records
      ensures outcome.Reading? ==> (outcome.atLeast == 0xFFFF <==> tcpMessageSize == 65540 && dataSize == HEADER_SIZE)
    {
      hide Accounted, RecordSize, Split, Halts;
      if status == STOP {
        Notify(MANUALLY_STOPPED);
        return Ended;
      }
      if !open {
        Notify(CONNECTION_CLOSED);
        return Ended;
      }
      var next := ShowRecords(handler);
      if next == Pause {
        return Paused;
      } else if next == NextStep.Stop {
        return Ended;
      }
      CaughtUp();
      outcome := Ask();
    }

    /** Moves or grows the buffer when its free tail is too short, and issues the read. */
    method Ask() returns (outcome: Outcome)
      requires Valid() && !StartsWithRecord(Window())
      requires tcpMessageSize == 0 <==> dataSize < HEADER_SIZE
      modifies `dataOffset, `buffer, buffer
      ensures Valid() && (buffer == old(buffer) || fresh(buffer))
      ensures Window() == old(Window())
      ensures Awaiting(outcome)
      ensures outcome.atLeast == 0xFFFF <==> tcpMessageSize == 65540 && dataSize == HEADER_SIZE
    {
      if dataSize == 0 {
        dataOffset := 0;
      }
      assert Window() == old(Window());
      var available := buffer.Length - dataOffset - dataSize;
      var readSize: nat := HEADER_SIZE;
      if tcpMessageSize != 0 {
        readSize := tcpMessageSize - dataSize;
      }
      if available < readSize {
        if dataOffset + available > readSize {
          available := available + dataOffset;
          Compact();
        } else {
          Grow(readSize - available);
          available := readSize;
        }
      }
      outcome := Reading(dataOffset + dataSize, readSize, available);
    }

    /** Moves the unconsumed bytes to the front of the buffer. */
    method Compact()
      requires dataOffset + dataSize <= buffer.Length
      modifies `dataOffset, buffer
      ensures dataOffset == 0 && Window() == old(Window())
    {
      ghost var window := Window();
      var i := 0;
      while i < dataSize
        invariant 0 <= i <= dataSize && dataOffset == old(dataOffset)
        invariant buffer[..i] == window[..i]
        invariant forall k :: i <= k < dataSize ==> buffer[dataOffset + k] == window[k]
        modifies buffer
      {
        buffer[i] := buffer[dataOffset + i];
        i := i + 1;
      }
      dataOffset := 0;
      assert buffer[0..dataSize] == buffer[..dataSize] == window;
    }

    /** `std::vector::resize` to a larger size. */
    method Grow(extra: nat)
      requires dataOffset + dataSize <= buffer.Length
      modifies `buffer
      ensures fresh(buffer) && buffer.Length == old(buffer.Length) + extra
      ensures buffer[..old(buffer.Length)] == old(buffer[..])
      ensures Window() == old(Window())
    {
      var larger := new byte[buffer.Length + extra](_ => 0);
      var i := 0;
      while i < buffer.Length
        invariant 0 <= i <= buffer.Length
        invariant larger[..i] == buffer[..i]
        modifies larger
      {
        larger[i] := buffer[i];
        i := i + 1;
      }
      ghost var all := buffer[..];
      assert larger[..buffer.Length] == all;
      buffer := larger;
      assert Window() == buffer[..][..|all|][dataOffset..dataOffset + dataSize];
    }

    /** The bytes a read has put behind the window. */
    method Fill(chunk: seq<byte>)
      requires Valid() && dataOffset + dataSize + |chunk| <= buffer.Length
      modifies `dataSize, `received, buffer
      ensures Valid() && Window() == old(Window()) + chunk && received == old(received) + chunk
    {
      var at := dataOffset + dataSize;
      forall i | 0 <= i < |chunk| {
        buffer[at + i] := chunk[i];
      }
      dataSize := dataSize + |chunk|;
      received := received + chunk;
      assert Window() == old(Window()) + chunk;
      Regroup(Concat(records), old(Window()), chunk);
      assert tcpMessageSize != 0 ==> RecordSize(Window()) == RecordSize(old(Window()));
    }

    /** The completion of a pending read: an error, or between `atLeast` and `room` bytes. */
    method OnRead(error: bool, kind: Error, chunk: seq<byte>, open: bool, handler: Handler, ghost pending: Outcome)
      returns (outcome: Outcome)
      requires Valid() && Awaiting(pending)
      requires !error ==> pending.atLeast <= |chunk| <= pending.room
      modifies this, buffer
      ensures Valid() && (buffer == old(buffer) || fresh(buffer)) && ceiling == old(ceiling)
      ensures received == old(received) + if error then [] else chunk
      ensures error ==> outcome == Ended && status == STOP
      ensures error ==> notices == old(notices) + if kind == OtherError then [IO_ERROR] else []
      ensures !error && old(status) == STOP ==> outcome == Ended && notices == old(notices) + [MANUALLY_STOPPED]
      ensures old(messages) <= messages
      ensures error || old(status) == STOP || !open ==> messages == old(messages) && outcome == Ended
      ensures !error && old(status) != STOP && open ==> Answered(outcome, handler, |old(messages)|)
      ensures outcome.Reading? ==> Awaiting(outcome) && records == Split(received).records
    {
      if error {
        if kind == OtherError {
          Notify(IO_ERROR);
        }
        status := STOP;
        return Ended;
      }
      Fill(chunk);
      outcome := DoReadStream(open, handler);
    }

    /** Starts reading unless it already runs; a paused reader still counts as running. */
    method Start(open: bool, handler: Handler) returns (outcome: Outcome)
      requires Valid()
      modifies this, buffer
      ensures Valid() && (buffer == old(buffer) || fresh(buffer)) && ceiling == old(ceiling)
      ensures received == old(received)
      ensures old(status) == RUNNING ==> outcome == Idle && messages == old(messages) && records == old(records)
      ensures old(messages) <= messages
      ensures old(status) != RUNNING && !open ==> messages == old(messages) && outcome == Ended
      ensures old(status) != RUNNING && open ==> Answered(outcome, handler, |old(messages)|)
      ensures outcome.Reading? ==> Awaiting(outcome) && records == Split(received).records
    {
      if status != RUNNING {
        status := RUNNING;
        outcome := DoReadStream(open, handler);
      } else {
        outcome := Idle;
      }
    }
  }

  /** The network gives `cut(i)` bytes to the i-th read, within what that read accepts. */
  function Clip(want: nat, low: nat, high: nat): (n: nat)
    requires low <= high
    ensures low <= n <= high
  {
    if want < low then low else if want > high then high else want
  }

  /** How reading came to its end: it waits for more, or the last answer ended it, or a call of `Stop` did. */
  ghost predicate EndsRightly(handler: Handler, messages: seq<seq<byte>>, outcome: Outcome) {
    && ReadsUntilLast(handler, messages, 0)
    && (outcome.Reading? ==> ReadsOn(handler, messages, 0, |messages|))
    && (outcome == Paused ==> messages != [] && handler(messages).next == Pause)
    && (outcome == Ended ==> Halts(handler, messages))
    && outcome != Idle
  }

  lemma EndsRightlyOn(
      handler: Handler, was: seq<seq<byte>>, reading: Outcome, reader: MessageReader, outcome: Outcome)
    requires was <= reader.messages && (was != [] ==> EndsRightly(handler, was, reading) && reading.Reading?)
    requires reader.Answered(outcome, handler, |was|)
    ensures EndsRightly(handler, reader.messages, outcome)
    ensures !Halts(handler, reader.messages) ==> reader.status == RUNNING
  {
    var messages := reader.messages;
    if outcome.Reading? {
      ReadsOnFurther(handler, was, messages, 0, |messages|);
    } else {
      ReadsOnFurther(handler, was, messages, 0, |messages| - 1);
      assert messages[..|messages|] == messages;
    }
  }

  lemma EndedByCall(handler: Handler, messages: seq<seq<byte>>, reading: Outcome)
    requires EndsRightly(handler, messages, reading) && reading.Reading? && Halts(handler, messages)
    ensures EndsRightly(handler, messages, Ended)
  {
  }

  lemma NeverEnds(handler: Handler, messages: seq<seq<byte>>, outcome: Outcome)
    requires EndsRightly(handler, messages, outcome)
    ensures AlwaysReads(handler) ==> outcome.Reading? && !Halts(handler, messages)
  {
  }

  /**
   * Reads a stream through a fresh reader, the reads cut in any way. What the handler sees does not depend on the
   * cuts as long as it asks for more: it is every record of what was received. A pending read leaves out of the
   * stream's records none, but for one held back by a partly read header.
   */
  method ReadStream(stream: seq<byte>, cut: nat -> nat, handler: Handler)
    returns (reader: MessageReader, outcome: Outcome, ghost left: seq<byte>)
    ensures reader.Valid() && fresh(reader)
    ensures stream == reader.received + left
    ensures reader.messages == AllAsSeen(reader.records)
    ensures reader.records <= Split(reader.received).records
    ensures Concat(reader.records) + reader.Window() + left == stream
    ensures EndsRightly(handler, reader.messages, outcome)
    ensures outcome.Reading? ==>
      && reader.records == Split(reader.received).records
      && (Split(stream).records == reader.records <==> !HeldBack(reader.Window(), left))
    ensures AlwaysReads(handler) ==> outcome.Reading? && reader.status == RUNNING
    ensures reader.buffer.Length <= BUFFER_LIMIT
  {
    hide Split, Concat, AllAsSeen, StartsWithRecord, RecordSize, Wanted, Halts, EndsRightly, AlwaysReads;
    reader := new MessageReader();
    outcome := reader.Start(true, handler);
    EndsRightlyOn(handler, [], outcome, reader, outcome);
    var taken, turn := 0, 0;
    assert stream[..0] == [];
    while outcome.Reading? && outcome.atLeast <= |stream| - taken
      invariant fresh(reader) && fresh(reader.buffer) && reader.Valid()
      invariant reader.ceiling == BUFFER_LIMIT
      invariant outcome.Reading? ==> reader.Awaiting(outcome) && reader.records == Split(reader.received).records
      invariant EndsRightly(handler, reader.messages, outcome)
      invariant !Halts(handler, reader.messages) ==> reader.status == RUNNING
      invariant 0 <= taken <= |stream| && reader.received == stream[..taken]
      decreases |stream| - taken
    {
      ghost var was, pending := reader.messages, outcome;
      var high := if outcome.room < |stream| - taken then outcome.room else |stream| - taken;
      var n := Clip(cut(turn), outcome.atLeast, high);
      var chunk := stream[taken..taken + n];
      assert stream[..taken] + chunk == stream[..taken + n];
      ghost var running := reader.status == RUNNING;
      outcome := reader.OnRead(false, OtherError, chunk, true, handler, outcome);
      if running {
        EndsRightlyOn(handler, was, pending, reader, outcome);
      } else {
        EndedByCall(handler, was, pending);
      }
      taken, turn := taken + n, turn + 1;
    }
    left := stream[taken..];
    assert stream == stream[..taken] + left;
    reader.TakenFirst();
    NeverEnds(handler, reader.messages, outcome);
    if outcome.Reading? {
      reader.CaughtUp();
      HeldBackExactly(reader.received, left);
    }
  }
}
