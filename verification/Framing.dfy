/**
 The serial wire format: length-prefixed frames multiplexed with device log text
 on one byte stream, and the parse that separates them.

 `Parse` reads a whole stream with lookahead; the reader works byte by byte with a
 buffer.  The lemmas below are about every stream, valid or not.
 */
module Framing {
  import opened Bytes

  const START1: byte := 0x94
  const START2: byte := 0xC3
  const HEADER_LEN := 4
  const MAX_TO_FROM_RADIO_SIZE := 512

  /** What the reader hands on: a frame's payload, or one byte of log text. */
  datatype Event = Frame(payload: seq<byte>) | Log(value: byte)

  /** The events of a stream, and its undecided end. */
  datatype Parsed = Parsed(events: seq<Event>, rest: seq<byte>) {
    function Then(more: Parsed): Parsed {
      Parsed(events + more.events, more.rest)
    }
  }

  function PayloadLength(s: seq<byte>): int
    requires |s| >= HEADER_LEN
  {
    s[2] as int * 256 + s[3] as int
  }

  predicate ValidLength(n: int) {
    0 < n <= MAX_TO_FROM_RADIO_SIZE
  }

  /** The length of the first decided piece of a stream; 0 when more bytes are needed. */
  function Piece(s: seq<byte>): (n: nat)
    ensures n <= |s|
  {
    if s == [] then 0
    else if s[0] != START1 then 1
    else if |s| == 1 then 0
    else if s[1] == START1 then 1
    else if s[1] != START2 then 2
    else if |s| < HEADER_LEN then 0
    else if !ValidLength(PayloadLength(s)) then HEADER_LEN
    else if |s| < HEADER_LEN + PayloadLength(s) then 0
    else HEADER_LEN + PayloadLength(s)
  }

  function PieceEvents(s: seq<byte>): seq<Event>
    requires Piece(s) > 0
  {
    if s[0] != START1 then [Log(s[0])]
    else if Piece(s) > HEADER_LEN then [Frame(s[HEADER_LEN..Piece(s)])]
    else []
  }

  function Parse(s: seq<byte>): Parsed
    decreases |s|
  {
    var n := Piece(s);
    if n == 0 then Parsed([], s) else Parsed(PieceEvents(s), []).Then(Parse(s[n..]))
  }

  // What a reader can hold between two bytes: a beginning that decides nothing yet.
  predicate Pending(buf: seq<byte>) {
    Piece(buf) == 0
  }

  // ----- parsing is incremental

  lemma PieceStable(s: seq<byte>, t: seq<byte>)
    requires Piece(s) > 0
    ensures Piece(s + t) == Piece(s) && PieceEvents(s + t) == PieceEvents(s)
    ensures (s + t)[Piece(s)..] == s[Piece(s)..] + t
  {
    var n := Piece(s);
    assert forall i :: 0 <= i < |s| ==> (s + t)[i] == s[i];
    assert (s + t)[..n] == s[..n];
    if n > HEADER_LEN {
      assert (s + t)[HEADER_LEN..n] == s[HEADER_LEN..n];
    }
  }

  lemma {:induction false} ParseRestPending(s: seq<byte>)
    ensures Pending(Parse(s).rest)
    decreases |s|
  {
    if Piece(s) > 0 {
      ParseRestPending(s[Piece(s)..]);
    }
  }

  lemma {:induction false} ParseAppend(s: seq<byte>, t: seq<byte>)
    ensures Parse(s + t) == Parse(s).Then(Parse(Parse(s).rest + t))
    decreases |s|
  {
    var n := Piece(s);
    if n == 0 {
      assert [] + Parse(s + t).events == Parse(s + t).events;
    } else {
      PieceStable(s, t);
      ParseAppend(s[n..], t);
      var tail := Parse(s[n..]);
      var more := Parse(tail.rest + t);
      assert PieceEvents(s) + (tail.events + more.events) == (PieceEvents(s) + tail.events) + more.events;
    }
  }

  // ----- what a sender puts on the wire

  function Header(n: nat): seq<byte>
    requires n <= MAX_TO_FROM_RADIO_SIZE
  {
    [START1, START2, (n / 256 % 256) as byte, (n % 256) as byte]
  }

  function FrameBytes(payload: seq<byte>): seq<byte>
    requires |payload| <= MAX_TO_FROM_RADIO_SIZE
  {
    Header(|payload|) + payload
  }

  lemma FramePiece(payload: seq<byte>, t: seq<byte>)
    requires |payload| <= MAX_TO_FROM_RADIO_SIZE
    ensures Parse(FrameBytes(payload) + t)
         == Parsed(if payload == [] then [] else [Frame(payload)], []).Then(Parse(t))
  {
    var s := FrameBytes(payload) + t;
    var n := |payload|;
    assert s[0] == START1 && s[1] == START2 && PayloadLength(s) == n;
    assert Piece(s) == HEADER_LEN + n;
    assert s[HEADER_LEN..HEADER_LEN + n] == payload && s[HEADER_LEN + n..] == t;
  }

  // A frame survives the wire exactly when it is not empty: a zero length is
  // indistinguishable from a malformed header, and the reader discards it.
  lemma DeliveredIffNonEmpty(payload: seq<byte>)
    requires |payload| <= MAX_TO_FROM_RADIO_SIZE
    ensures Parse(FrameBytes(payload)) == Parsed([Frame(payload)], []) <==> payload != []
  {
    FramePiece(payload, []);
    assert FrameBytes(payload) + [] == FrameBytes(payload);
    assert Parse([]) == Parsed([], []);
  }

  /** One thing a device writes: a message, or a byte of log text. */
  datatype Item = Message(payload: seq<byte>) | Text(value: byte)

  predicate Sendable(item: Item) {
    match item
    case Message(p) => 0 < |p| <= MAX_TO_FROM_RADIO_SIZE
    case Text(b) => b != START1
  }

  function Wire(item: Item): seq<byte>
    requires Sendable(item)
  {
    match item
    case Message(p) => FrameBytes(p)
    case Text(b) => [b]
  }

  function Stream(items: seq<Item>): seq<byte>
    requires forall i :: 0 <= i < |items| ==> Sendable(items[i])
  {
    if items == [] then [] else Stream(items[..|items| - 1]) + Wire(items[|items| - 1])
  }

  function EventOf(item: Item): Event {
    match item
    case Message(p) => Frame(p)
    case Text(b) => Log(b)
  }

  function EventsOf(items: seq<Item>): (r: seq<Event>)
    ensures |r| == |items| && forall i :: 0 <= i < |r| ==> r[i] == EventOf(items[i])
  {
    seq(|items|, i requires 0 <= i < |items| => EventOf(items[i]))
  }

  lemma ItemDelivered(item: Item)
    requires Sendable(item)
    ensures Parse(Wire(item)) == Parsed([EventOf(item)], [])
  {
    match item
    case Message(p) => DeliveredIffNonEmpty(p);
    case Text(b) =>
      assert Wire(item)[1..] == [];
      assert Parse([]) == Parsed([], []);
  }

  /** Whatever is written is what is read, in order, with nothing left over. */
  lemma {:induction false} Delivery(items: seq<Item>)
    requires forall i :: 0 <= i < |items| ==> Sendable(items[i])
    ensures Parse(Stream(items)) == Parsed(EventsOf(items), [])
  {
    hide Piece, PieceEvents, FrameBytes, EventOf, Wire;
    if items != [] {
      var front, last := items[..|items| - 1], items[|items| - 1];
      Delivery(front);
      ParseAppend(Stream(front), Wire(last));
      assert [] + Wire(last) == Wire(last);
      ItemDelivered(last);
      assert EventsOf(items) == EventsOf(front) + [EventOf(last)];
    } else {
      assert Parse([]) == Parsed([], []) by { EmptyStream(); }
    }
  }

  lemma EmptyStream()
    ensures Parse([]) == Parsed([], [])
  {
  }

  // ----- resynchronisation

  /** An upper bound on the bytes other than START1 that empty a pending buffer. */
  function Debt(buf: seq<byte>): nat
    requires Pending(buf)
  {
    if |buf| == 0 then 0
    else if |buf| < HEADER_LEN then MAX_TO_FROM_RADIO_SIZE + HEADER_LEN - |buf|
    else HEADER_LEN + PayloadLength(buf) - |buf|
  }

  const RESYNC_BYTES := MAX_TO_FROM_RADIO_SIZE + HEADER_LEN - 1

  lemma PendingBound(buf: seq<byte>)
    requires Pending(buf)
    ensures |buf| <= RESYNC_BYTES && Debt(buf) <= RESYNC_BYTES
    ensures buf != [] ==> buf[0] == START1
  {
  }

  lemma DebtShrinks(buf: seq<byte>, c: byte)
    requires Pending(buf) && c != START1
    ensures var r := Parse(buf + [c]).rest; Pending(r) && Debt(r) <= if Debt(buf) == 0 then 0 else Debt(buf) - 1
  {
    var s := buf + [c];
    ParseRestPending(s);
    assert forall i :: 0 <= i < |buf| ==> s[i] == buf[i];
    if Piece(s) > 0 {
      assert Piece(s) == |s| && s[|s|..] == [] && Parse([]).rest == [];
    }
  }

  lemma NoDebt(buf: seq<byte>)
    requires Pending(buf) && Debt(buf) == 0
    ensures buf == []
  {
  }

  predicate Quiet(s: seq<byte>) {
    forall i :: 0 <= i < |s| ==> s[i] != START1
  }

  lemma {:induction false} DebtPaid(buf: seq<byte>, noise: seq<byte>)
    requires Pending(buf) && Quiet(noise) && |noise| >= Debt(buf)
    ensures Parse(buf + noise).rest == []
    decreases |noise|
  {
    hide Debt, Pending, Parse;
    if noise == [] {
      NoDebt(buf);
      EmptyStream();
      assert buf + noise == [];
    } else {
      var c := noise[0];
      DebtShrinks(buf, c);
      ParseAppend(buf + [c], noise[1..]);
      assert buf + noise == buf + [c] + noise[1..];
      DebtPaid(Parse(buf + [c]).rest, noise[1..]);
    }
  }

  /** After 515 bytes other than START1 the reader is back at a frame boundary. */
  lemma {:induction false} Resynchronised(buf: seq<byte>, noise: seq<byte>, payload: seq<byte>)
    requires Pending(buf) && Quiet(noise) && |noise| >= RESYNC_BYTES
    requires 0 < |payload| <= MAX_TO_FROM_RADIO_SIZE
    ensures Parse(buf + noise).rest == []
    ensures Parse(buf + noise + FrameBytes(payload)) == Parse(buf + noise).Then(Parsed([Frame(payload)], []))
  {
    PendingBound(buf);
    DebtPaid(buf, noise);
    ParseAppend(buf + noise, FrameBytes(payload));
    DeliveredIffNonEmpty(payload);
    assert [] + FrameBytes(payload) == FrameBytes(payload);
  }

  // 514 bytes are not always enough.
  lemma ResyncBoundIsTight()
    ensures exists buf, noise ::
              Pending(buf) && Quiet(noise) && |noise| == RESYNC_BYTES - 1 && Parse(buf + noise).rest != []
  {
    var buf: seq<byte> := [START1];
    var zeros: seq<byte> := seq(511, _ => 0 as byte);
    var noise: seq<byte> := [START2, 2, 0] + zeros;
    var s := buf + noise;
    assert Quiet(noise) && |noise| == RESYNC_BYTES - 1;
    assert s[0] == START1 && s[1] == START2 && s[2] == 2 && s[3] == 0;
    assert PayloadLength(s) == 512 && Piece(s) == 0;
  }

  function Repeat(b: byte, n: nat): seq<byte> {
    seq(n, _ => b)
  }

  /** Extra START1 bytes in front of a frame cost nothing. */
  lemma {:induction false} RepeatedStart(n: nat, payload: seq<byte>, t: seq<byte>)
    requires |payload| <= MAX_TO_FROM_RADIO_SIZE
    ensures Parse(Repeat(START1, n) + FrameBytes(payload) + t) == Parse(FrameBytes(payload) + t)
    decreases n
  {
    var s := Repeat(START1, n) + FrameBytes(payload) + t;
    if n == 0 {
      assert s == FrameBytes(payload) + t;
    } else {
      assert s[0] == START1 && s[1] == START1;
      assert s[1..] == Repeat(START1, n - 1) + FrameBytes(payload) + t;
      RepeatedStart(n - 1, payload, t);
      assert Parse(s) == Parsed([], []).Then(Parse(s[1..]));
    }
  }
}
