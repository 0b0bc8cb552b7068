/**
 The byte-budgeted output capture: UTF-8 as section 3 of RFC 3629 lays it out, a
 decoder that ignores errors, and the class that cuts the output at its limit.
 */
module Utf8 {
  import opened Bytes

  // ----- encoding

  function Width(c: char): (n: nat)
    ensures 1 <= n <= 4
  {
    var n := c as int;
    if n < 0x80 then 1 else if n < 0x800 then 2 else if n < 0x10000 then 3 else 4
  }

  function EncodeChar(c: char): (r: seq<byte>)
    ensures |r| == Width(c)
  {
    var n := c as int;
    if n < 0x80 then [n as byte]
    else if n < 0x800 then [(0xC0 + n / 0x40) as byte, (0x80 + n % 0x40) as byte]
    else if n < 0x10000 then
      [(0xE0 + n / 0x1000) as byte, (0x80 + n / 0x40 % 0x40) as byte, (0x80 + n % 0x40) as byte]
    else
      [(0xF0 + n / 0x40000) as byte, (0x80 + n / 0x1000 % 0x40) as byte, (0x80 + n / 0x40 % 0x40) as byte,
          (0x80 + n % 0x40) as byte]
  }

  function Encode(s: string): seq<byte> {
    if s == "" then [] else EncodeChar(s[0]) + Encode(s[1..])
  }

  /** The table of RFC 3629, section 3: which characters take how many bytes, and where their bits go. */
  ghost predicate Spelled(n: nat, r: seq<byte>) {
    if n <= 127 then r == [n as byte]
    else if n <= 2047 then
      && |r| == 2 && 192 <= r[0] <= 223 && 128 <= r[1] <= 191
      && n == (r[0] as int - 192) * 64 + (r[1] as int - 128)
    else if n <= 65535 then
      && |r| == 3 && 224 <= r[0] <= 239 && 128 <= r[1] <= 191 && 128 <= r[2] <= 191
      && n == (r[0] as int - 224) * 4096 + (r[1] as int - 128) * 64 + (r[2] as int - 128)
    else
      && |r| == 4 && 240 <= r[0] <= 247 && 128 <= r[1] <= 191 && 128 <= r[2] <= 191 && 128 <= r[3] <= 191
      && n == (r[0] as int - 240) * 262144 + (r[1] as int - 128) * 4096 + (r[2] as int - 128) * 64 + (r[3] as int - 128)
  }

  lemma Digits(n: nat)
    ensures n == n / 64 * 64 + n % 64 && n == n / 4096 * 4096 + n / 64 % 64 * 64 + n % 64
    ensures n == n / 262144 * 262144 + n / 4096 % 64 * 4096 + n / 64 % 64 * 64 + n % 64
  {
    assert n / 64 / 64 == n / 4096;
    assert n / 4096 / 64 == n / 262144;
  }

  lemma EncodeSpelled(c: char)
    ensures Spelled(c as int, EncodeChar(c))
  {
    var n := c as int;
    Digits(n);
    if n <= 127 {
    } else if n <= 2047 {
      TwoBytes(n, EncodeChar(c));
    } else if n <= 65535 {
      ThreeBytes(n, EncodeChar(c));
    } else {
      FourBytes(n, EncodeChar(c));
    }
  }

  lemma TwoBytes(n: nat, r: seq<byte>)
    requires 128 <= n <= 2047 && r == [(192 + n / 64) as byte, (128 + n % 64) as byte]
    ensures Spelled(n, r)
  {
    Digits(n);
  }

  lemma ThreeBytes(n: nat, r: seq<byte>)
    requires 2048 <= n <= 65535
    requires r == [(224 + n / 4096) as byte, (128 + n / 64 % 64) as byte, (128 + n % 64) as byte]
    ensures Spelled(n, r)
  {
    Digits(n);
  }

  lemma FourBytes(n: nat, r: seq<byte>)
    requires 65536 <= n < 0x110000
    requires r == [(240 + n / 262144) as byte, (128 + n / 4096 % 64) as byte,
                   (128 + n / 64 % 64) as byte, (128 + n % 64) as byte]
    ensures Spelled(n, r)
  {
    Digits(n);
  }

  // ----- decoding, ignoring what is malformed

  /** The length a first byte announces; 0 for a byte that cannot come first. */
  function Announced(b: byte): (n: nat)
    ensures n <= 4
  {
    if b < 0x80 then 1
    else if 0xC2 <= b <= 0xDF then 2
    else if 0xE0 <= b <= 0xEF then 3
    else if 0xF0 <= b <= 0xF4 then 4
    else 0
  }

  predicate Continuation(b: byte) {
    0x80 <= b <= 0xBF
  }

  predicate SecondOk(first: byte, second: byte) {
    if first == 0xE0 then 0xA0 <= second <= 0xBF
    else if first == 0xED then 0x80 <= second <= 0x9F
    else if first == 0xF0 then 0x90 <= second <= 0xBF
    else if first == 0xF4 then 0x80 <= second <= 0x8F
    else Continuation(second)
  }

  /** How many bytes of `b` belong to the sequence its first byte announces. */
  function Coherent(b: seq<byte>): (n: nat)
    requires b != []
    ensures n <= |b| && n <= Announced(b[0])
  {
    var want := Announced(b[0]);
    if want < 2 then want
    else if |b| < 2 || !SecondOk(b[0], b[1]) then 1
    else if want == 2 then 2
    else if |b| < 3 || !Continuation(b[2]) then 2
    else if want == 3 then 3
    else if |b| < 4 || !Continuation(b[3]) then 3
    else 4
  }

  function Scalar(b: seq<byte>): int
    requires b != [] && Coherent(b) == Announced(b[0]) > 0
  {
    match Announced(b[0])
    case 1 => b[0] as int
    case 2 => (b[0] as int - 0xC0) * 0x40 + (b[1] as int - 0x80)
    case 3 => (b[0] as int - 0xE0) * 0x1000 + (b[1] as int - 0x80) * 0x40 + (b[2] as int - 0x80)
    case _ =>
      (b[0] as int - 0xF0) * 0x40000 + (b[1] as int - 0x80) * 0x1000
      + (b[2] as int - 0x80) * 0x40 + (b[3] as int - 0x80)
  }

  lemma ScalarIsChar(b: seq<byte>)
    requires b != [] && Coherent(b) == Announced(b[0]) > 0
    ensures 0 <= Scalar(b) < 0xD800 || 0xE000 <= Scalar(b) < 0x110000
  {
  }

  function DecodeIgnore(b: seq<byte>): string
    decreases |b|
  {
    if b == [] then ""
    else if Coherent(b) == Announced(b[0]) > 0 then
      ScalarIsChar(b);
      [Scalar(b) as char] + DecodeIgnore(b[Coherent(b)..])
    else DecodeIgnore(b[if Coherent(b) == 0 then 1 else Coherent(b)..])
  }

  // Taking a number of digits to base 64 apart again.
  lemma Undigits(h: nat, m: nat, l: nat, k: nat)
    requires k < 64 && l < 64 && m < 64
    ensures (l * 64 + k) / 64 == l && (l * 64 + k) % 64 == k
    ensures (m * 4096 + l * 64 + k) / 4096 == m && (m * 4096 + l * 64 + k) / 64 % 64 == l
    ensures (m * 4096 + l * 64 + k) % 64 == k
    ensures var n := h * 262144 + m * 4096 + l * 64 + k;
            n / 262144 == h && n / 4096 % 64 == m && n / 64 % 64 == l && n % 64 == k
  {
    assert (m * 4096 + l * 64 + k) / 64 == m * 64 + l;
    var n := h * 262144 + m * 4096 + l * 64 + k;
    assert n / 64 == h * 4096 + m * 64 + l && n / 4096 == h * 64 + m;
  }

  lemma OneByteOnly(b: seq<byte>)
    requires b != [] && Announced(b[0]) == 1
    ensures Coherent(b) == 1 && EncodeChar(Scalar(b) as char) == b[..1]
  {
    assert b[..1] == [b[0]];
  }

  lemma TwoBytesOnly(b: seq<byte>)
    requires b != [] && Coherent(b) == Announced(b[0]) == 2
    ensures 0x80 <= Scalar(b) < 0x800 && EncodeChar(Scalar(b) as char) == b[..2]
  {
    Undigits(0, 0, b[0] as int - 0xC0, b[1] as int - 0x80);
    assert b[..2] == [b[0], b[1]];
  }

  lemma ThreeBytesOnly(b: seq<byte>)
    requires b != [] && Coherent(b) == Announced(b[0]) == 3
    ensures 0x800 <= Scalar(b) < 0xD800 || 0xE000 <= Scalar(b) < 0x10000
    ensures EncodeChar(Scalar(b) as char) == b[..3]
  {
    Undigits(0, b[0] as int - 0xE0, b[1] as int - 0x80, b[2] as int - 0x80);
    assert b[..3] == [b[0], b[1], b[2]];
  }

  lemma FourBytesOnly(b: seq<byte>)
    requires b != [] && Coherent(b) == Announced(b[0]) == 4
    ensures 0x10000 <= Scalar(b) < 0x110000 && EncodeChar(Scalar(b) as char) == b[..4]
  {
    Undigits(b[0] as int - 0xF0, b[1] as int - 0x80, b[2] as int - 0x80, b[3] as int - 0x80);
    assert b[..4] == [b[0], b[1], b[2], b[3]];
  }

  /** What the decoder takes for a character is that character's one encoding. */
  lemma OnlyEncodings(b: seq<byte>)
    requires b != [] && Coherent(b) == Announced(b[0]) > 0
    ensures 0 <= Scalar(b) < 0xD800 || 0xE000 <= Scalar(b) < 0x110000
    ensures EncodeChar(Scalar(b) as char) == b[..Coherent(b)]
  {
    ScalarIsChar(b);
    hide Coherent, Scalar, EncodeChar, Announced;
    match Coherent(b)
    case 1 => OneByteOnly(b);
    case 2 => TwoBytesOnly(b);
    case 3 => ThreeBytesOnly(b);
    case _ => FourBytesOnly(b);
  }

  /** A byte that cannot start a character is ignored. */
  lemma StrayByteIgnored(b: byte, t: seq<byte>)
    requires 128 <= b <= 193 || 245 <= b
    ensures DecodeIgnore([b] + t) == DecodeIgnore(t)
  {
    assert ([b] + t)[1..] == t;
  }

  // ----- cutting an encoded text

  /** How many leading characters of `s` fit into `k` bytes. */
  function Fit(s: string, k: nat): (n: nat)
    ensures n <= |s|
  {
    if s == "" || Width(s[0]) > k then 0 else 1 + Fit(s[1..], k - Width(s[0]))
  }

  lemma {:induction false} EncodeConcat(a: string, b: string)
    ensures Encode(a + b) == Encode(a) + Encode(b)
  {
    if a == "" {
      assert a + b == b;
    } else {
      assert (a + b)[1..] == a[1..] + b;
      EncodeConcat(a[1..], b);
    }
  }

  /** `Fit` is the longest prefix that fits, on character boundaries. */
  lemma {:induction false} FitIsLongest(s: string, k: nat)
    ensures |Encode(s[..Fit(s, k)])| <= k
    ensures forall n :: Fit(s, k) < n <= |s| ==> |Encode(s[..n])| > k
  {
    if s != "" && Width(s[0]) <= k {
      var rest, left := s[1..], k - Width(s[0]);
      FitIsLongest(rest, left);
      forall n | 0 < n <= |s| ensures |Encode(s[..n])| == Width(s[0]) + |Encode(rest[..n - 1])| {
        assert s[..n][1..] == rest[..n - 1];
      }
    } else {
      forall n | 0 < n <= |s| ensures |Encode(s[..n])| > k {
        assert s[..n][0] == s[0];
      }
    }
  }

  lemma {:induction false} FitConcat(a: string, b: string, k: nat)
    ensures |Encode(a)| <= k ==> Fit(a + b, k) == |a| + Fit(b, k - |Encode(a)|)
    ensures |Encode(a)| > k ==> Fit(a + b, k) == Fit(a, k) < |a|
  {
    if a == "" {
      assert a + b == b;
    } else {
      assert (a + b)[1..] == a[1..] + b;
      if Width(a[0]) <= k {
        FitConcat(a[1..], b, k - Width(a[0]));
      }
    }
  }

  lemma CharBytes(c: char)
    ensures var b := EncodeChar(c);
            Announced(b[0]) == Width(c) == Coherent(b)
  {
    hide Coherent, Announced;
    if c as int < 0x800 {
      NarrowBytes(c);
    } else {
      WideBytes(c);
    }
  }

  lemma NarrowBytes(c: char)
    requires c as int < 0x800
    ensures var b := EncodeChar(c); Announced(b[0]) == Width(c) == Coherent(b)
  {
  }

  lemma WideBytes(c: char)
    requires c as int >= 0x800
    ensures var b := EncodeChar(c); Announced(b[0]) == Width(c) == Coherent(b)
  {
  }

  // The groups of six bits put a code point back together.
  lemma Groups(n: nat)
    ensures n / 0x1000 * 0x1000 + n / 0x40 % 0x40 * 0x40 + n % 0x40 == n
    ensures n / 0x40000 * 0x40000 + n / 0x1000 % 0x40 * 0x1000 + n / 0x40 % 0x40 * 0x40 + n % 0x40 == n
  {
    assert n / 0x40 / 0x40 == n / 0x1000;
    assert n / 0x1000 / 0x40 == n / 0x40000;
  }

  lemma {:induction false} CharScalar(c: char)
    ensures var b := EncodeChar(c);
            Announced(b[0]) == Coherent(b) && Scalar(b) == c as int
  {
    CharBytes(c);
    Groups(c as int);
    hide Coherent, Announced;
    match Width(c)
    case 1 =>
    case 2 =>
    case 3 =>
    case _ =>
  }

  // What follows a sequence does not change how it reads.
  lemma CoherentPrefix(b: seq<byte>, rest: seq<byte>)
    requires b != [] && Coherent(b) == Announced(b[0]) == |b|
    ensures Coherent(b + rest) == |b| && (|b| > 0 ==> Scalar(b + rest) == Scalar(b))
  {
    assert forall i :: 0 <= i < |b| ==> (b + rest)[i] == b[i];
  }

  lemma {:induction false} CharRoundTrip(c: char, rest: seq<byte>)
    ensures var b := EncodeChar(c) + rest;
            Announced(b[0]) == Width(c) == Coherent(b) && Scalar(b) == c as int
  {
    hide Coherent, Scalar, EncodeChar;
    CharBytes(c);
    CharScalar(c);
    CoherentPrefix(EncodeChar(c), rest);
  }

  lemma CutChar(c: char, k: nat)
    requires 0 < k < Width(c)
    ensures var b := EncodeChar(c)[..k]; Coherent(b) == k < Announced(b[0])
  {
    CharRoundTrip(c, []);
    assert EncodeChar(c) + [] == EncodeChar(c);
  }

  /** Cutting the encoding at any byte and decoding leniently gives the longest prefix that fits. */
  lemma {:induction false} DecodeCut(s: string, k: nat)
    requires k <= |Encode(s)|
    ensures DecodeIgnore(Encode(s)[..k]) == s[..Fit(s, k)]
  {
    if s == "" || k == 0 {
      assert Encode(s)[..k] == [];
    } else {
      var c, w := s[0], Width(s[0]);
      if w <= k {
        var tail := Encode(s[1..])[..k - w];
        assert Encode(s)[..k] == EncodeChar(c) + tail;
        CharRoundTrip(c, tail);
        assert (EncodeChar(c) + tail)[w..] == tail;
        DecodeCut(s[1..], k - w);
        assert s[..Fit(s, k)] == [c] + s[1..][..Fit(s[1..], k - w)];
      } else {
        assert Encode(s)[..k] == EncodeChar(c)[..k];
        CutChar(c, k);
        assert EncodeChar(c)[..k][k..] == [];
      }
    }
  }
}

module OutputCapture {
  import opened Bytes
  import opened Text
  import opened Utf8

  function Concat(parts: seq<string>): string {
    if parts == [] then "" else Concat(parts[..|parts| - 1]) + parts[|parts| - 1]
  }

  lemma ConcatSnoc(parts: seq<string>, part: string)
    ensures Concat(parts + [part]) == Concat(parts) + part
  {
    assert (parts + [part])[..|parts|] == parts;
  }

  datatype Result = Result(exitCode: int, output: string, failed: bool, truncated: bool)

  /** One write against the whole output: what is kept, and whether the budget is spent. */
  lemma CaptureStep(written: string, text: string, limit: nat, remaining: nat)
    requires text != ""
    requires remaining == if |Encode(written)| > limit then 0 else limit - |Encode(written)|
    ensures var encoded := Encode(text);
            var cut := if |encoded| <= remaining then |encoded| else remaining;
            && |Encode(written + text)| == |Encode(written)| + |encoded| && |encoded| > 0
            && DecodeIgnore(encoded[..cut]) == text[..Fit(text, remaining)]
            && (written + text)[..Fit(written + text, limit)] == written[..Fit(written, limit)]
                + text[..Fit(text, remaining)]
  {
    EncodeConcat(written, text);
    FitConcat(written, text, limit);
    var encoded := Encode(text);
    DecodeCut(text, if |encoded| <= remaining then |encoded| else remaining);
    FitCut(text, remaining);
    if |Encode(written)| <= limit {
      FitAll(written, limit);
    }
  }

  class Capture {
    const limit: nat
    var remaining: nat
    var parts: seq<string>
    var truncated: bool
    var sink: bool  // an output callable is attached
    var error: bool  // that callable has failed
    ghost var written: string  // everything written so far, newlines included
    ghost var received: string  // what the callable has been given

    ghost predicate Valid()
      reads this
    {
      && Concat(parts) == written[..Fit(written, limit)]
      && (truncated <==> |Encode(written)| > limit)
      && remaining == (if truncated then 0 else limit - |Encode(written)|)
      && received <= Concat(parts)
      && (sink ==> received == Concat(parts) && !error)
    }

    constructor (limit: nat, sink: bool)
      requires limit > 0
      ensures Valid() && this.limit == limit && written == "" && received == "" && this.sink == sink && !error
    {
      this.limit, remaining, parts, truncated := limit, limit, [], false;
      this.sink, error, written, received := sink, false, "", "";
    }

    /** `sinkFails` says what the attached callable would do if it were called. */
    method Write(message: string, sinkFails: bool) returns (raised: bool)
      requires Valid()
      modifies this
      ensures Valid() && written == old(written) + message + "\n"
      ensures raised <==> old(sink) && sinkFails && Concat(parts) != old(Concat(parts))
      ensures raised ==> error && !sink
      ensures !raised ==> sink == old(sink) && error == old(error)
      ensures raised || !old(sink) ==> received == old(received)
    {
      hide Encode, Fit, DecodeIgnore, Concat;
      var text := message + "\n";
      assert old(written) + message + "\n" == old(written) + text;
      CaptureStep(written, text, limit, remaining);
      var encoded := Encode(text);
      var cut := if |encoded| <= remaining then |encoded| else remaining;
      var retained := DecodeIgnore(encoded[..cut]);
      truncated := truncated || |encoded| > remaining;
      remaining := if remaining > |encoded| then remaining - |encoded| else 0;
      ghost var before := Concat(parts);
      assert before + "" == before;
      ConcatSnoc(parts, retained);
      assert |before + retained| == |before| + |retained|;
      if retained != "" {
        parts := parts + [retained];
      }
      written := written + text;
      raised := false;
      if retained != "" && sink {
        if sinkFails {
          error, sink := true, false;
          raised := true;
        } else {
          received := received + retained;
        }
      }
    }

    method GetResult(status: int, commandFailed: bool) returns (r: Result)
      requires Valid()
      ensures r.output == written[..Fit(written, limit)] && r.truncated == (|Encode(written)| > limit)
      ensures r.failed == (error || commandFailed)
      ensures r.exitCode == if status == 0 && r.failed then 1 else status
    {
      var failed := error || commandFailed;
      return Result(if failed && status == 0 then 1 else status, Concat(parts), failed, truncated);
    }
  }

  // Beyond the end of the encoding the budget makes no difference.
  lemma {:induction false} FitCut(s: string, k: nat)
    ensures Fit(s, k) == Fit(s, if |Encode(s)| <= k then |Encode(s)| else k)
  {
    if |Encode(s)| <= k {
      FitAll(s, k);
      FitAll(s, |Encode(s)|);
    }
  }

  lemma {:induction false} FitAll(s: string, k: nat)
    requires |Encode(s)| <= k
    ensures Fit(s, k) == |s|
  {
    if s != "" {
      FitAll(s[1..], k - Width(s[0]));
    }
  }

  // What a run of writes leaves is a property of the whole output: the longest prefix
  // whose encoding fits the limit.
  method WriteAll(capture: Capture, messages: seq<string>)
    requires capture.Valid() && capture.written == "" && capture.sink
    modifies capture
    ensures capture.Valid() && capture.sink
    ensures capture.written == Lines(messages)
    ensures capture.received == Lines(messages)[..Fit(Lines(messages), capture.limit)]
  {
    for i := 0 to |messages|
      invariant capture.Valid() && capture.sink && capture.written == Lines(messages[..i])
    {
      var raised := capture.Write(messages[i], false);
      assert messages[..i + 1][..i] == messages[..i];
    }
    assert messages[..|messages|] == messages;
  }

  function Lines(messages: seq<string>): string {
    if messages == [] then ""
    else Lines(messages[..|messages| - 1]) + messages[|messages| - 1] + "\n"
  }
}
