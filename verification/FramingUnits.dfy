/**
 What a stream is, told without the parser: a sequence of packets, log bytes and
 malformed bits, each spelled out in bytes, and an undecided end.  There is exactly one
 way to read any stream, and the parser finds it.
 */
module FramingUnits {
  import opened Bytes
  import opened Framing

  /** One stretch of a stream.  Only packets and characters are handed on. */
  datatype Unit =
    | Packet(payload: seq<byte>)
    | Character(value: byte)
    | BadLength(hi: byte, lo: byte)  // a header that announces nothing, or too much
    | BadStart(second: byte)         // a start byte that starts nothing
    | ExtraStart                     // a start byte in front of another

  function UnitBytes(u: Unit): seq<byte>
  {
    match u
    case Packet(p) => [0x94, 0xC3, (|p| / 256 % 256) as byte, (|p| % 256) as byte] + p
    case Character(b) => [b]
    case BadLength(hi, lo) => [0x94, 0xC3, hi, lo]
    case BadStart(x) => [0x94, x]
    case ExtraStart => [0x94]
  }

  /** Whether the unit may stand in front of the bytes `t`. */
  predicate Proper(u: Unit, t: seq<byte>) {
    match u
    case Packet(p) => 0 < |p| <= 512
    case Character(b) => b != 0x94
    case BadLength(hi, lo) => hi as int * 256 + lo as int == 0 || hi as int * 256 + lo as int > 512
    case BadStart(x) => x != 0x94 && x != 0xC3
    case ExtraStart => t != [] && t[0] == 0x94
  }

  /** The beginning of a packet, or nothing. */
  predicate Undecided(t: seq<byte>) {
    || t == []
    || t == [0x94]
    || t == [0x94, 0xC3]
    || (|t| == 3 && t[..2] == [0x94, 0xC3])
    || (|t| >= 4 && t[..2] == [0x94, 0xC3] && |t| - 4 < t[2] as int * 256 + t[3] as int <= 512)
  }

  ghost predicate ReadsAs(s: seq<byte>, units: seq<Unit>, rest: seq<byte>)
    decreases units
  {
    if units == [] then s == rest && Undecided(rest)
    else exists t :: Leads(s, units[0], t) && ReadsAs(t, units[1..], rest)
  }

  ghost predicate Leads(s: seq<byte>, u: Unit, t: seq<byte>) {
    Proper(u, t) && s == UnitBytes(u) + t
  }

  function UnitEvents(u: Unit): seq<Event> {
    match u
    case Packet(p) => [Frame(p)]
    case Character(b) => [Log(b)]
    case _ => []
  }

  function EventsIn(units: seq<Unit>): seq<Event> {
    if units == [] then [] else UnitEvents(units[0]) + EventsIn(units[1..])
  }

  // ----- the parser, unit by unit

  lemma PendingIsUndecided(s: seq<byte>)
    ensures Pending(s) <==> Undecided(s)
  {
  }

  lemma PacketParsed(p: seq<byte>, t: seq<byte>)
    requires 0 < |p| <= 512
    ensures Parse(UnitBytes(Packet(p)) + t) == Parsed([Frame(p)], []).Then(Parse(t))
  {
    assert UnitBytes(Packet(p)) == FrameBytes(p);
    FramePiece(p, t);
  }

  /** A header that announces nothing or too much is dropped, and nothing else. */
  lemma BadLengthDropped(hi: byte, lo: byte, t: seq<byte>)
    requires hi as int * 256 + lo as int == 0 || hi as int * 256 + lo as int > 512
    ensures Parse([0x94, 0xC3, hi, lo] + t) == Parse(t)
  {
    var s := [0x94, 0xC3, hi, lo] + t;
    assert s[0] == 0x94 && s[1] == 0xC3 && s[2] == hi && s[3] == lo && s[4..] == t;
    assert Piece(s) == 4 && PieceEvents(s) == [];
    NothingThen(Parse(t));
  }

  /** A start byte that starts nothing is dropped with the byte behind it. */
  lemma BadStartDropped(x: byte, t: seq<byte>)
    requires x != 0x94 && x != 0xC3
    ensures Parse([0x94, x] + t) == Parse(t)
  {
    var s := [0x94, x] + t;
    assert s[0] == 0x94 && s[1] == x && s[2..] == t;
    assert Piece(s) == 2 && PieceEvents(s) == [];
    NothingThen(Parse(t));
  }

  /** Of two start bytes the first is dropped. */
  lemma ExtraStartDropped(t: seq<byte>)
    requires t != [] && t[0] == 0x94
    ensures Parse([0x94] + t) == Parse(t)
  {
    var s := [0x94] + t;
    assert s[0] == 0x94 && s[1] == 0x94 && s[1..] == t;
    assert Piece(s) == 1 && PieceEvents(s) == [];
    NothingThen(Parse(t));
  }

  /** Any other byte is log text. */
  lemma CharacterParsed(b: byte, t: seq<byte>)
    requires b != 0x94
    ensures Parse([b] + t) == Parsed([Log(b)], []).Then(Parse(t))
  {
    var s := [b] + t;
    assert s[0] == b && s[1..] == t && Piece(s) == 1;
  }

  lemma NothingThen(p: Parsed)
    ensures Parsed([], []).Then(p) == p
  {
  }

  lemma UnitParsed(u: Unit, t: seq<byte>)
    requires Proper(u, t)
    ensures Parse(UnitBytes(u) + t) == Parsed(UnitEvents(u), []).Then(Parse(t))
  {
    hide Parse, UnitBytes;
    NothingThen(Parse(t));
    SpelledOut(u);
    match u
    case Packet(p) => PacketParsed(p, t);
    case Character(b) => CharacterParsed(b, t);
    case BadLength(hi, lo) => BadLengthDropped(hi, lo, t);
    case BadStart(x) => BadStartDropped(x, t);
    case ExtraStart => ExtraStartDropped(t);
  }

  lemma SpelledOut(u: Unit)
    ensures u.Character? ==> UnitBytes(u) == [u.value]
    ensures u.BadLength? ==> UnitBytes(u) == [0x94, 0xC3, u.hi, u.lo]
    ensures u.BadStart? ==> UnitBytes(u) == [0x94, u.second]
    ensures u.ExtraStart? ==> UnitBytes(u) == [0x94]
  {
  }

  // The first unit of a stream that has one.
  lemma FirstUnit(s: seq<byte>) returns (u: Unit, t: seq<byte>)
    requires !Undecided(s)
    ensures Leads(s, u, t) && |t| < |s|
  {
    if s[0] != 0x94 {
      u, t := Character(s[0]), s[1..];
    } else if s[1] == 0x94 {
      u, t := ExtraStart, s[1..];
    } else if s[1] != 0xC3 {
      u, t := BadStart(s[1]), s[2..];
    } else {
      var n := s[2] as int * 256 + s[3] as int;
      if n == 0 || n > 512 {
        u, t := BadLength(s[2], s[3]), s[4..];
      } else {
        u, t := Packet(s[4..4 + n]), s[4 + n..];
        assert s == s[..4] + (s[4..4 + n] + t) && s[..4] == [0x94, 0xC3, s[2], s[3]];
        assert (n / 256 % 256) as byte == s[2] && (n % 256) as byte == s[3];
      }
    }
  }

  /** The payloads handed on, and the log bytes, in order. */
  function PacketsOf(units: seq<Unit>): seq<seq<byte>> {
    if units == [] then []
    else (match units[0] case Packet(p) => [p] case _ => []) + PacketsOf(units[1..])
  }

  function CharactersOf(units: seq<Unit>): seq<byte> {
    if units == [] then []
    else (match units[0] case Character(b) => [b] case _ => []) + CharactersOf(units[1..])
  }

  // ----- one reading, and the parser's

  /** Every stream can be read in units. */
  lemma {:induction false} EveryStreamReads(s: seq<byte>) returns (units: seq<Unit>, rest: seq<byte>)
    ensures ReadsAs(s, units, rest)
    decreases |s|
  {
    hide Undecided, Leads;
    if Undecided(s) {
      units, rest := [], s;
    } else {
      var u, t := FirstUnit(s);
      var more;
      more, rest := EveryStreamReads(t);
      units := [u] + more;
      assert units[0] == u && units[1..] == more;
    }
  }

  /** However a stream is read in units, the parser finds exactly their events and the same end. */
  lemma {:induction false} ReadingIsParse(s: seq<byte>, units: seq<Unit>, rest: seq<byte>)
    requires ReadsAs(s, units, rest)
    ensures Parse(s) == Parsed(EventsIn(units), rest)
    decreases units
  {
    hide Parse, Undecided, Proper, UnitEvents, UnitBytes;
    if units == [] {
      UndecidedParsed(s);
    } else {
      var t :| Leads(s, units[0], t) && ReadsAs(t, units[1..], rest);
      UnitParsed(units[0], t);
      ReadingIsParse(t, units[1..], rest);
    }
  }

  lemma UndecidedParsed(s: seq<byte>)
    requires Undecided(s)
    ensures Parse(s) == Parsed([], s)
  {
    PendingIsUndecided(s);
  }

  /** The parser, said without it. */
  lemma ParseExactly(s: seq<byte>, parsed: Parsed)
    ensures Parse(s) == parsed <==> exists units :: ReadsAs(s, units, parsed.rest) && EventsIn(units) == parsed.events
  {
    hide Parse, ReadsAs;
    var units, rest := EveryStreamReads(s);
    ReadingIsParse(s, units, rest);
    forall us | ReadsAs(s, us, parsed.rest) ensures Parse(s) == Parsed(EventsIn(us), parsed.rest) {
      ReadingIsParse(s, us, parsed.rest);
    }
  }

  // ----- where the events stand

  function EventBytes(e: Event): seq<byte>
  {
    match e
    case Frame(p) => [0x94, 0xC3, (|p| / 256 % 256) as byte, (|p| % 256) as byte] + p
    case Log(b) => [b]
  }

  /** An event that can be read at all. */
  predicate Readable(e: Event) {
    match e
    case Frame(p) => 0 < |p| <= 512
    case Log(b) => b != 0x94
  }

  ghost predicate StandsAt(s: seq<byte>, e: Event, at: nat) {
    && Readable(e) && at + |EventBytes(e)| <= |s|
    && s[at..at + |EventBytes(e)|] == EventBytes(e)
  }

  /** Each event at its place in the stream, and none overlaps the next. */
  ghost predicate Stand(s: seq<byte>, events: seq<Event>, at: seq<nat>) {
    && |at| == |events|
    && (forall k :: 0 <= k < |events| ==> StandsAt(s, events[k], at[k]))
    && (forall k, m :: 0 <= k < m < |events| ==> at[k] + |EventBytes(events[k])| <= at[m])
  }

  function Moved(at: seq<nat>, n: nat): (r: seq<nat>)
    ensures |r| == |at| && forall k :: 0 <= k < |r| ==> r[k] == at[k] + n
  {
    seq(|at|, k requires 0 <= k < |at| => at[k] + n)
  }

  lemma StandBehind(u: seq<byte>, t: seq<byte>, events: seq<Event>, at: seq<nat>)
    requires Stand(t, events, at)
    ensures Stand(u + t, events, Moved(at, |u|))
  {
    hide EventBytes, Readable;
    forall k | 0 <= k < |events| ensures StandsAt(u + t, events[k], Moved(at, |u|)[k]) {
      assert StandsAt(t, events[k], at[k]);
      var n := |EventBytes(events[k])|;
      assert (u + t)[at[k] + |u|..at[k] + |u| + n] == t[at[k]..at[k] + n];
    }
    forall k, m | 0 <= k < m < |events|
      ensures Moved(at, |u|)[k] + |EventBytes(events[k])| <= Moved(at, |u|)[m]
    {
      assert StandsAt(t, events[k], at[k]);
    }
  }

  lemma FirstStands(u: Unit, t: seq<byte>)
    requires Proper(u, t) && UnitEvents(u) != []
    ensures var e := UnitEvents(u)[0];
            UnitEvents(u) == [e] && EventBytes(e) == UnitBytes(u) && StandsAt(UnitBytes(u) + t, e, 0)
  {
    var s, n := UnitBytes(u) + t, |UnitBytes(u)|;
    assert s[0..n] == UnitBytes(u);
  }

  lemma StandCons(s: seq<byte>, e: Event, events: seq<Event>, at: seq<nat>)
    requires StandsAt(s, e, 0) && Stand(s, events, at) && forall k :: 0 <= k < |at| ==> |EventBytes(e)| <= at[k]
    ensures Stand(s, [e] + events, [0] + at)
  {
    hide EventBytes, StandsAt;
    var all, places := [e] + events, [0] + at;
    assert forall k :: 0 < k < |all| ==> all[k] == events[k - 1] && places[k] == at[k - 1];
  }

  lemma StandFirst(u: Unit, t: seq<byte>, events: seq<Event>, at: seq<nat>)
    requires Proper(u, t) && UnitEvents(u) != [] && Stand(t, events, at)
    ensures Stand(UnitBytes(u) + t, UnitEvents(u) + events, [0] + Moved(at, |UnitBytes(u)|))
  {
    hide EventBytes, StandsAt, Stand, UnitBytes, UnitEvents, Proper;
    FirstStands(u, t);
    StandBehind(UnitBytes(u), t, events, at);
    StandCons(UnitBytes(u) + t, UnitEvents(u)[0], events, Moved(at, |UnitBytes(u)|));
  }

  lemma {:induction false} UnitsStand(s: seq<byte>, units: seq<Unit>, rest: seq<byte>) returns (at: seq<nat>)
    requires ReadsAs(s, units, rest)
    ensures Stand(s, EventsIn(units), at)
    decreases units
  {
    hide Undecided, Proper, UnitEvents, UnitBytes, Stand;
    if units == [] {
      at := [];
      assert Stand(s, [], []) by { NothingStands(s); }
    } else {
      var t :| Leads(s, units[0], t) && ReadsAs(t, units[1..], rest);
      var later := UnitsStand(t, units[1..], rest);
      var events := EventsIn(units[1..]);
      if UnitEvents(units[0]) == [] {
        at := Moved(later, |UnitBytes(units[0])|);
        StandBehind(UnitBytes(units[0]), t, events, later);
        assert [] + events == events;
      } else {
        at := [0] + Moved(later, |UnitBytes(units[0])|);
        StandFirst(units[0], t, events, later);
      }
    }
  }

  lemma NothingStands(s: seq<byte>)
    ensures Stand(s, [], [])
  {
  }

  /**
   Whatever the stream: every frame has 1 to 512 bytes and stands in it with its header,
   every log byte is one of its bytes and no start byte, in order and without overlap.
   */
  lemma EventsStand(s: seq<byte>) returns (at: seq<nat>)
    ensures Stand(s, Parse(s).events, at)
  {
    hide Parse, ReadsAs, Stand;
    var units, rest := EveryStreamReads(s);
    ReadingIsParse(s, units, rest);
    at := UnitsStand(s, units, rest);
  }
}
