/**
 The two ends of the serial link: the writer, which must survive partial writes,
 and the reader thread's byte loop.
 */
module StreamLink {
  import opened Bytes
  import opened Framing
  import opened FramingUnits

  // ----- writing

  datatype WriteResult = Count(n: int) | NoCount | Raised

  /** The stream handle.  `sent` is what has reached the wire; `faults` counts what went wrong on the way. */
  class Port {
    var sent: seq<byte>
    var isOpen: bool
    ghost var faults: nat
    ghost var flushed: seq<byte>  // what had reached the wire at the last flush

    constructor ()
      ensures sent == [] && isOpen && faults == 0 && flushed == []
    {
      sent, isOpen, faults, flushed := [], true, 0, [];
    }

    // A write may take any part of what it is offered, and reports how much it took.
    method Write(b: seq<byte>) returns (r: WriteResult)
      modifies this`sent, this`faults
      ensures faults == old(faults) + if r.Count? && r.n > 0 then 0 else 1
      ensures r.Count? ==> r.n <= |b| && sent == old(sent) + b[..if r.n < 0 then 0 else r.n]
      ensures r.NoCount? ==> sent == old(sent)
      ensures r.Raised? ==> exists k :: 0 <= k <= |b| && sent == old(sent) + b[..k]
    {
      var taken: int := *;
      var raises: bool := *;
      if raises {
        if taken < 0 || taken > |b| {
          taken := 0;
        }
        sent, faults := sent + b[..taken], faults + 1;
        return Raised;
      }
      if taken > |b| {
        faults := faults + 1;
        return NoCount;
      }
      if taken <= 0 {
        faults := faults + 1;
      }
      sent := sent + b[..if taken < 0 then 0 else taken];
      return Count(taken);
    }

    // The write deadline, which moves on with every progress; whether it has passed is up to the clock.
    method DeadlinePassed() returns (passed: bool)
      modifies this`faults
      ensures faults == old(faults) + if passed then 1 else 0
    {
      passed := *;
      if passed {
        faults := faults + 1;
      }
    }

    method Flush() returns (ok: bool)
      modifies this`faults, this`flushed
      ensures faults == old(faults) + if ok then 0 else 1
      ensures ok ==> flushed == sent
    {
      ok := *;
      if ok {
        flushed := sent;
      } else {
        faults := faults + 1;
      }
    }
  }

  datatype SendError = StreamClosed | PayloadTooLarge

  datatype Sent = Done | Failed(error: SendError)

  // The wire holds what it held before, and a beginning of `b`.
  twostate predicate PartlyWritten(port: Port, b: seq<byte>)
    reads port
  {
    exists k :: 0 <= k <= |b| && port.sent == old(port.sent) + b[..k]
  }

  /**
   Offer the rest of `b` until everything is taken.  It fails exactly if the port is
   closed or something goes wrong on the way.
   */
  method WriteBytes(port: Port, b: seq<byte>) returns (r: Sent)
    modifies port`sent, port`faults, port`flushed
    ensures r == Done <==> port.isOpen && port.faults == old(port.faults)
    ensures r == Done ==> port.sent == old(port.sent) + b && port.flushed == port.sent
    ensures r != Done ==> r == Failed(StreamClosed) && PartlyWritten(port, b)
    ensures !old(port.isOpen) ==> r != Done && port.sent == old(port.sent)
  {
    ghost var before := port.sent;
    assert before == before + b[..0];
    if !port.isOpen {
      return Failed(StreamClosed);
    }
    var bytesWritten := 0;
    while bytesWritten < |b|
      invariant 0 <= bytesWritten <= |b|
      invariant port.sent == before + b[..bytesWritten] && port.faults == old(port.faults)
      decreases |b| - bytesWritten
    {
      var deadlinePassed := port.DeadlinePassed();
      if deadlinePassed {
        return Failed(StreamClosed);
      }
      var written := port.Write(b[bytesWritten..]);
      match written {
        case NoCount =>
          return Failed(StreamClosed);
        case Raised =>
          ghost var k :| 0 <= k <= |b| - bytesWritten
              && port.sent == before + b[..bytesWritten] + b[bytesWritten..][..k];
          assert b[..bytesWritten] + b[bytesWritten..][..k] == b[..bytesWritten + k];
          return Failed(StreamClosed);
        case Count(n) =>
          if n <= 0 {
            assert b[bytesWritten..][..0] == [];
            return Failed(StreamClosed);
          }
          assert b[..bytesWritten] + b[bytesWritten..][..n] == b[..bytesWritten + n];
          bytesWritten := bytesWritten + n;
      }
    }
    var flushed := port.Flush();
    if !flushed {
      return Failed(StreamClosed);
    }
    return Done;
  }

  /** Frame one message; an oversized one is refused before anything is written. */
  method SendToRadio(port: Port, payload: seq<byte>) returns (r: Sent)
    modifies port`sent, port`faults, port`flushed
    ensures r == Failed(PayloadTooLarge) <==> |payload| > MAX_TO_FROM_RADIO_SIZE
    ensures r == Failed(PayloadTooLarge) ==> port.sent == old(port.sent)
    ensures r == Done <==>
            |payload| <= MAX_TO_FROM_RADIO_SIZE && port.isOpen && port.faults == old(port.faults)
    ensures r == Failed(StreamClosed) ==> PartlyWritten(port, FrameBytes(payload))
    ensures r == Done ==> port.sent == old(port.sent) + FrameBytes(payload) && port.flushed == port.sent
  {
    var bufLen := |payload|;
    if bufLen > MAX_TO_FROM_RADIO_SIZE {
      return Failed(PayloadTooLarge);
    }
    var header := [START1, START2, (bufLen / 256 % 256) as byte, (bufLen % 256) as byte];
    r := WriteBytes(port, header + payload);
  }

  // ----- log text

  /** One log byte decoded on its own: anything but ASCII becomes a question mark. */
  function Decoded(b: byte): char {
    if b < 0x80 then b as char else '?'
  }

  /** The text of a run of log bytes, without carriage returns. */
  function LogText(bytes: seq<byte>): string {
    if bytes == [] then ""
    else
      var c := Decoded(bytes[|bytes| - 1]);
      LogText(bytes[..|bytes| - 1]) + if c == '\r' then "" else [c]
  }

  function Terminated(lines: seq<string>): string {
    if lines == [] then "" else Terminated(lines[..|lines| - 1]) + lines[|lines| - 1] + "\n"
  }

  predicate OneLine(s: string) {
    forall i :: 0 <= i < |s| ==> s[i] != '\n' && s[i] != '\r'
  }

  // ----- events, sorted by kind

  function FramesIn(events: seq<Event>): seq<seq<byte>> {
    if events == [] then []
    else
      FramesIn(events[..|events| - 1]) +
      match events[|events| - 1] case Frame(p) => [p] case Log(_) => []
  }

  function LogBytesIn(events: seq<Event>): seq<byte> {
    if events == [] then []
    else
      LogBytesIn(events[..|events| - 1]) +
      match events[|events| - 1] case Frame(_) => [] case Log(b) => [b]
  }

  lemma OneEvent()
    ensures FramesIn([]) == [] && LogBytesIn([]) == [] && LogText([]) == ""
    ensures forall p :: FramesIn([Frame(p)]) == [p] && LogBytesIn([Frame(p)]) == []
    ensures forall b :: FramesIn([Log(b)]) == [] && LogBytesIn([Log(b)]) == [b]
    ensures forall b :: LogText([b]) == if Decoded(b) == '\r' then "" else [Decoded(b)]
  {
    assert forall b: byte :: LogText([b][..0]) == "";
  }

  lemma {:induction false} EventsConcat(a: seq<Event>, b: seq<Event>)
    ensures FramesIn(a + b) == FramesIn(a) + FramesIn(b)
    ensures LogBytesIn(a + b) == LogBytesIn(a) + LogBytesIn(b)
  {
    if b == [] {
      assert a + b == a;
    } else {
      assert (a + b)[..|a + b| - 1] == a + b[..|b| - 1];
      EventsConcat(a, b[..|b| - 1]);
    }
  }

  lemma {:induction false} LogTextConcat(a: seq<byte>, b: seq<byte>)
    ensures LogText(a + b) == LogText(a) + LogText(b)
  {
    if b == [] {
      assert a + b == a;
    } else {
      assert (a + b)[..|a + b| - 1] == a + b[..|b| - 1];
      LogTextConcat(a, b[..|b| - 1]);
    }
  }

  /** Log text character by character: ASCII is itself, other bytes are question marks, carriage returns vanish. */
  lemma {:induction false} LogTextSpelled(bytes: seq<byte>)
    requires 13 !in bytes
    ensures |LogText(bytes)| == |bytes|
    ensures forall i :: 0 <= i < |bytes| ==> LogText(bytes)[i] == if bytes[i] < 128 then bytes[i] as char else '?'
  {
    if bytes != [] {
      var front := bytes[..|bytes| - 1];
      assert forall b :: b in front ==> b in bytes;
      LogTextSpelled(front);
      assert bytes[|bytes| - 1] in bytes;
    }
  }

  lemma CarriageReturnVanishes(a: seq<byte>, b: seq<byte>)
    ensures LogText(a + [13] + b) == LogText(a + b)
  {
    LogTextConcat(a + [13], b);
    LogTextConcat(a, [13]);
    LogTextConcat(a, b);
    assert LogText([13]) == "" by { OneEvent(); }
    assert LogText(a) + "" == LogText(a);
  }

  /** The frames and the log text of a stream read in units are its packets and its characters. */
  lemma {:induction false} UnitsSorted(units: seq<Unit>)
    ensures FramesIn(EventsIn(units)) == PacketsOf(units) && LogBytesIn(EventsIn(units)) == CharactersOf(units)
    decreases units
  {
    hide FramesIn, LogBytesIn;
    OneEvent();
    if units != [] {
      UnitsSorted(units[1..]);
      EventsConcat(UnitEvents(units[0]), EventsIn(units[1..]));
    }
  }

  /** The reader's share of the interface object. */
  class Reader {
    var rxBuf: seq<byte>
    var curLogLine: string
    var frames: seq<seq<byte>>  // payloads handed to the radio-message handler
    var lines: seq<string>  // lines handed to the log handler
    ghost var input: seq<byte>  // everything read so far

    ghost predicate Valid()
      reads this
    {
      && Parse(input).rest == rxBuf
      && frames == FramesIn(Parse(input).events)
      && Terminated(lines) + curLogLine == LogText(LogBytesIn(Parse(input).events))
      && OneLine(curLogLine) && forall i :: 0 <= i < |lines| ==> OneLine(lines[i])
    }

    /** Told without the parser: what came in, unit by unit, is what was handed on and what is held. */
    ghost predicate Explained()
      reads this
    {
      exists units ::
        && ReadsAs(input, units, rxBuf)
        && frames == PacketsOf(units)
        && Terminated(lines) + curLogLine == LogText(CharactersOf(units))
    }

    lemma ValidIsExplained()
      requires Valid()
      ensures Explained()
    {
      hide ReadsAs, Parse;
      var units, rest := EveryStreamReads(input);
      ReadingIsParse(input, units, rest);
      UnitsSorted(units);
    }

    constructor ()
      ensures Valid() && input == []
    {
      rxBuf, curLogLine, frames, lines, input := [], "", [], [], [];
      new;
      EmptyStream();
    }

    method HandleLogByte(b: byte)
      modifies this`curLogLine, this`lines
      ensures Terminated(lines) + curLogLine
           == old(Terminated(lines) + curLogLine) + (if Decoded(b) == '\r' then "" else [Decoded(b)])
      ensures old(OneLine(curLogLine) && forall i :: 0 <= i < |lines| ==> OneLine(lines[i]))
              ==> OneLine(curLogLine) && forall i :: 0 <= i < |lines| ==> OneLine(lines[i])
    {
      var utf := '?';
      if b < 0x80 {
        utf := b as char;
      }
      if utf == '\r' {
        return;
      }
      if utf == '\n' {
        lines := lines + [curLogLine];
        curLogLine := "";
        assert lines[..|lines| - 1] == old(lines);
        return;
      }
      curLogLine := curLogLine + [utf];
    }

    // One pass of the loop body: the buffer becomes what the parse leaves undecided, and
    // every decided event is handed on.
    method Step(c: byte)
      requires Pending(rxBuf)
      modifies this`rxBuf, this`frames, this`curLogLine, this`lines
      ensures var step := Parse(old(rxBuf) + [c]);
              && rxBuf == step.rest
              && frames == old(frames) + FramesIn(step.events)
              && Terminated(lines) + curLogLine == old(Terminated(lines) + curLogLine)
                  + LogText(LogBytesIn(step.events))
      ensures old(OneLine(curLogLine) && forall i :: 0 <= i < |lines| ==> OneLine(lines[i]))
              ==> OneLine(curLogLine) && forall i :: 0 <= i < |lines| ==> OneLine(lines[i])
    {
      hide Parse, OneLine, Terminated, LogText, FramesIn, LogBytesIn;
      ghost var seen := rxBuf + [c];
      PendingBound(rxBuf);
      StepParse(seen);
      OneEvent();
      ghost var text := Terminated(lines) + curLogLine;
      assert text + "" == text && frames + [] == frames;
      var ptr := |rxBuf|;
      rxBuf := rxBuf + [c];
      if ptr == 0 {
        if c != START1 {
          rxBuf := [];
          HandleLogByte(c);
        }
      } else if ptr == 1 {
        if c != START2 {
          if c == START1 {
            rxBuf := [START1];
          } else {
            rxBuf := [];
          }
        }
      } else if ptr >= HEADER_LEN - 1 {
        var packetLen := rxBuf[2] as int * 256 + rxBuf[3] as int;
        if ptr == HEADER_LEN - 1 && (packetLen == 0 || packetLen > MAX_TO_FROM_RADIO_SIZE) {
          rxBuf := [];
        } else if rxBuf != [] && ptr + 1 >= packetLen + HEADER_LEN {
          frames := frames + [rxBuf[HEADER_LEN..packetLen + HEADER_LEN]];
          rxBuf := [];
        }
      }
    }

    method HandleByte(c: byte)
      requires Valid()
      modifies this
      ensures Valid() && input == old(input) + [c]
    {
      hide Parse, OneLine, Terminated, LogText, FramesIn, LogBytesIn;
      ParseRestPending(input);
      ParseAppend(input, [c]);
      ghost var step := Parse(rxBuf + [c]);
      EventsConcat(Parse(input).events, step.events);
      LogTextConcat(LogBytesIn(Parse(input).events), LogBytesIn(step.events));
      Step(c);
      input := input + [c];
    }

    /** The loop of the reader thread over everything the stream delivers. */
    method Run(stream: seq<byte>)
      requires Valid()
      modifies this
      ensures Valid() && Explained() && input == old(input) + stream
    {
      for i := 0 to |stream|
        invariant Valid() && input == old(input) + stream[..i]
      {
        HandleByte(stream[i]);
        assert stream[..i + 1] == stream[..i] + [stream[i]];
      }
      assert stream[..|stream|] == stream;
      ValidIsExplained();
    }
  }

  // What one more byte does to a pending buffer.
  lemma StepParse(s: seq<byte>)
    requires s != [] && Pending(s[..|s| - 1])
    ensures Piece(s) == 0 ==> Parse(s) == Parsed([], s)
    ensures Piece(s) == |s| ==> Parse(s) == Parsed(PieceEvents(s), [])
    ensures 0 < Piece(s) < |s| ==> s == [START1, START1] && Parse(s) == Parsed([], [START1])
  {
    var buf, n := s[..|s| - 1], Piece(s);
    assert forall i :: 0 <= i < |buf| ==> s[i] == buf[i];
    EmptyStream();
    if n == |s| {
      assert s[n..] == [];
      assert PieceEvents(s) + [] == PieceEvents(s);
    } else if n > 0 {
      assert s[1..] == [START1] && Parse(s[1..]) == Parsed([], [START1]);
    }
  }

  // ----- the whole link

  function Payloads(items: seq<Item>): seq<seq<byte>> {
    if items == [] then []
    else
      Payloads(items[..|items| - 1]) +
      match items[|items| - 1] case Message(p) => [p] case Text(_) => []
  }

  function TextBytes(items: seq<Item>): seq<byte> {
    if items == [] then []
    else
      TextBytes(items[..|items| - 1]) +
      match items[|items| - 1] case Message(_) => [] case Text(b) => [b]
  }

  lemma {:induction false} EventsOfItems(items: seq<Item>)
    ensures FramesIn(EventsOf(items)) == Payloads(items) && LogBytesIn(EventsOf(items)) == TextBytes(items)
  {
    if items != [] {
      var front := items[..|items| - 1];
      EventsOfItems(front);
      assert EventsOf(items)[..|items| - 1] == EventsOf(front);
    }
  }

  method WriteItems(port: Port, items: seq<Item>) returns (r: Sent)
    requires forall i :: 0 <= i < |items| ==> Sendable(items[i])
    requires port.sent == []
    modifies port`sent, port`faults, port`flushed
    ensures r == Done <==> items == [] || (port.isOpen && port.faults == old(port.faults))
    ensures r == Done ==> port.sent == Stream(items)
  {
    for i := 0 to |items|
      invariant port.sent == Stream(items[..i]) && (i > 0 ==> port.isOpen) && port.faults == old(port.faults)
    {
      assert items[..i + 1][..i] == items[..i] && Sendable(items[i]);
      match items[i] {
        case Message(p) => r := SendToRadio(port, p);
        case Text(b) => r := WriteBytes(port, [b]);
      }
      if r != Done {
        return r;
      }
    }
    assert items[..|items|] == items;
    return Done;
  }

  /**
   Messages and log text, written in any interleaving and however the port splits the
   writes, arrive as they were sent: every payload, every character of log text, in order.
   */
  method Exchange(port: Port, reader: Reader, items: seq<Item>) returns (r: Sent)
    requires forall i :: 0 <= i < |items| ==> Sendable(items[i])
    requires port.sent == [] && reader.Valid() && reader.input == []
    modifies port`sent, port`faults, port`flushed, reader
    ensures r == Done <==> items == [] || (port.isOpen && port.faults == old(port.faults))
    ensures r == Done ==>
              && reader.rxBuf == []
              && reader.frames == Payloads(items)
              && Terminated(reader.lines) + reader.curLogLine == LogText(TextBytes(items))
              && OneLine(reader.curLogLine) && forall i :: 0 <= i < |reader.lines| ==> OneLine(reader.lines[i])
  {
    r := WriteItems(port, items);
    if r == Done {
      reader.Run(port.sent);
      assert reader.input == Stream(items);
      Delivery(items);
      EventsOfItems(items);
    }
  }
}
