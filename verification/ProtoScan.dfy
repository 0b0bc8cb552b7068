/**
 The line scanner as it runs: a character array blanked in place, and the offsets of
 brackets and semicolons collected on the way.
 */
module ProtoScan {
  import opened ProtoMask

  datatype CodeLine = CodeLine(code: string, inBlockComment: bool, opens: seq<nat>, closes: seq<nat>,
      semicolons: seq<nat>)

  /** The code view of a line and the offsets of its structural characters. */
  function Scanned(text: string, inBlock: bool): CodeLine {
    var code := LineCode(text, inBlock);
    CodeLine(code, LineState(text, inBlock), Positions(code, '['), Positions(code, ']'), Positions(code, ';'))
  }

  lemma PositionsSnoc(code: string, d: char, c: char)
    ensures Positions(code + [d], c) == Positions(code, c) + if d == c then [|code|] else []
  {
    assert (code + [d])[..|code|] == code;
  }

  lemma {:induction false} PositionsBlank(code: string, n: nat, c: char)
    requires c != ' '
    ensures Positions(code + Spaces(n), c) == Positions(code, c)
  {
    if n == 0 {
      assert code + Spaces(0) == code;
    } else {
      assert code + Spaces(n) == code + Spaces(n - 1) + [' '];
      PositionsSnoc(code + Spaces(n - 1), ' ', c);
      PositionsBlank(code, n - 1, c);
    }
  }

  // Blanks from `from` up to `to`, everything else as before.
  ghost predicate Blanked(before: string, after: string, from: nat, to: nat) {
    && |after| == |before|
    && forall k :: 0 <= k < |before| ==> after[k] == if from <= k < to then ' ' else before[k]
  }

  lemma BlankedText(before: string, after: string, from: nat, to: nat)
    requires from <= to <= |before| && Blanked(before, after, from, to)
    ensures after == before[..from] + Spaces(to - from) + before[to..]
  {
  }

  method BlankRange(out: array<char>, from: nat, to: nat)
    requires from <= to <= out.Length
    modifies out
    ensures Blanked(old(out[..]), out[..], from, to)
  {
    for i := from to to
      invariant Blanked(old(out[..]), out[..], from, i)
    {
      out[i] := ' ';
    }
  }

  // The body of a string literal, up to and including its closing quote.
  method BlankString(out: array<char>, text: string, start: nat, quote: char) returns (end: nat)
    requires start <= |text| == out.Length
    modifies out
    ensures end == start + Span(text[start..], quote)
    ensures Blanked(old(out[..]), out[..], start, end)
  {
    var i := start;
    while i < |text|
      invariant start <= i <= |text|
      invariant i + Span(text[i..], quote) == start + Span(text[start..], quote)
      invariant Blanked(old(out[..]), out[..], start, i)
      decreases |text| - i
    {
      out[i] := ' ';
      assert text[i..][1..] == text[i + 1..];
      if text[i] == '\\' {
        if i + 1 < |text| {
          assert text[i..][2..] == text[i + 2..];
          out[i + 1] := ' ';
          i := i + 2;
        } else {
          i := i + 1;
        }
        continue;
      }
      if text[i] == quote {
        i := i + 1;
        return i;
      }
      i := i + 1;
    }
    return i;
  }

  method FindClose(text: string, from: nat) returns (end: int)
    requires from <= |text|
    ensures end == if HasClose(text[from..]) then from + CloseSpan(text[from..]) - 2 else -1
  {
    var i := from;
    while i < |text|
      invariant from <= i <= |text|
      invariant HasClose(text[from..]) == HasClose(text[i..])
      invariant HasClose(text[i..]) ==> from + CloseSpan(text[from..]) == i + CloseSpan(text[i..])
    {
      assert text[i..][1..] == text[i + 1..];
      if i + 1 < |text| && text[i] == '*' && text[i + 1] == '/' {
        return i;
      }
      i := i + 1;
    }
    return -1;
  }

  // What the scanner has done after `i` characters, and what is left to do.
  ghost predicate Progress(text: string, b0: bool, done: string, i: nat, b: bool) {
    && i == |done| && i <= |text|
    && LineCode(text, b0) == done + LineCode(text[i..], b)
    && LineState(text, b0) == LineState(text[i..], b)
  }

  lemma {:induction false} ProgressBlank(text: string, b0: bool, done: string, i: nat, b: bool, n: nat, b': bool)
    requires Progress(text, b0, done, i, b) && i + n <= |text|
    requires LineCode(text[i..], b) == Spaces(n) + LineCode(text[i + n..], b')
    requires LineState(text[i..], b) == LineState(text[i + n..], b')
    ensures Progress(text, b0, done + Spaces(n), i + n, b')
  {
    hide LineCode, LineState;
    Regroup(done, Spaces(n), LineCode(text[i + n..], b'));
  }

  lemma ProgressChar(text: string, b0: bool, done: string, i: nat)
    requires i < |text| && Progress(text, b0, done, i, false)
    requires !IsQuote(text[i]) && !Opens(text[i..], '/', '/') && !Opens(text[i..], '/', '*')
    ensures Progress(text, b0, done + [text[i]], i + 1, false)
  {
    assert text[i..][1..] == text[i + 1..];
    Regroup(done, [text[i]], LineCode(text[i + 1..], false));
  }

  // The pieces that are blanked in one go.
  lemma {:induction false} CommentPiece(text: string, i: nat)
    requires i < |text| && HasClose(text[i..])
    ensures var to := i + CloseSpan(text[i..]);
            && LineCode(text[i..], true) == Spaces(to - i) + LineCode(text[to..], false)
            && LineState(text[i..], true) == LineState(text[to..], false)
  {
    assert text[i..][CloseSpan(text[i..])..] == text[i + CloseSpan(text[i..])..];
  }

  lemma OpeningPiece(text: string, i: nat)
    requires i < |text| && Opens(text[i..], '/', '*')
    ensures LineCode(text[i..], false) == Spaces(2) + LineCode(text[i + 2..], true)
    ensures LineState(text[i..], false) == LineState(text[i + 2..], true)
  {
    assert text[i..][2..] == text[i + 2..];
  }

  lemma StringPiece(text: string, i: nat)
    requires i < |text| && IsQuote(text[i])
    ensures var to := i + 1 + Span(text[i + 1..], text[i]);
            && LineCode(text[i..], false) == Spaces(to - i) + LineCode(text[to..], false)
            && LineState(text[i..], false) == LineState(text[to..], false)
  {
    var t := text[i..];
    assert t[1..] == text[i + 1..] && t[0] == text[i];
    var n := 1 + Span(t[1..], t[0]);
    assert t[n..] == text[i + n..];
    hide Span;
  }

  // A piece that reaches the end of the line.
  lemma BlankRest(text: string, b0: bool, done: string, i: nat, b: bool)
    requires i < |text| && Progress(text, b0, done, i, b)
    requires if b then !HasClose(text[i..]) else Opens(text[i..], '/', '/')
    ensures LineCode(text, b0) == done + Spaces(|text| - i) && LineState(text, b0) == b
  {
  }

  // The scanner's state: `out` is done up to `i` and untouched from there on.
  ghost predicate ScanState(text: string, b0: bool, out: string, i: nat, b: bool,
                            opens: seq<nat>, closes: seq<nat>, semicolons: seq<nat>) {
    && |out| == |text| && i <= |text| && out[i..] == text[i..]
    && Progress(text, b0, out[..i], i, b)
    && opens == Positions(out[..i], '[') && closes == Positions(out[..i], ']') && semicolons == Positions(out[..i], ';')
  }

  lemma StateStart(text: string, b0: bool)
    ensures ScanState(text, b0, text, 0, b0, [], [], [])
  {
    assert text[..0] == "" && text[0..] == text && "" + LineCode(text, b0) == LineCode(text, b0);
    EmptyPositions();
  }

  lemma StateBlank(text: string, b0: bool, out: string, i: nat, b: bool,
                   opens: seq<nat>, closes: seq<nat>, semicolons: seq<nat>, to: nat, b': bool)
    requires ScanState(text, b0, out, i, b, opens, closes, semicolons) && i <= to <= |text|
    requires LineCode(text[i..], b) == Spaces(to - i) + LineCode(text[to..], b')
    requires LineState(text[i..], b) == LineState(text[to..], b')
    ensures ScanState(text, b0, out[..i] + Spaces(to - i) + out[to..], to, b', opens, closes, semicolons)
  {
    hide LineCode, LineState, Positions;
    var after := out[..i] + Spaces(to - i) + out[to..];
    ProgressBlank(text, b0, out[..i], i, b, to - i, b');
    PositionsDone(out[..i], to - i);
    assert after[..to] == out[..i] + Spaces(to - i);
    assert after[to..] == out[to..] == text[to..] by { assert out[to..] == out[i..][to - i..]; }
  }

  lemma StateRest(text: string, b0: bool, out: string, i: nat, b: bool, opens: seq<nat>, closes: seq<nat>,
      semicolons: seq<nat>)
    requires ScanState(text, b0, out, i, b, opens, closes, semicolons) && i < |text|
    requires if b then !HasClose(text[i..]) else Opens(text[i..], '/', '/')
    ensures Scanned(text, b0) == CodeLine(out[..i] + Spaces(|text| - i), b, opens, closes, semicolons)
  {
    hide LineCode, LineState, Positions, HasClose;
    BlankRest(text, b0, out[..i], i, b);
    PositionsDone(out[..i], |text| - i);
  }

  lemma StateChar(text: string, b0: bool, out: string, i: nat, opens: seq<nat>, closes: seq<nat>, semicolons: seq<nat>)
    requires ScanState(text, b0, out, i, false, opens, closes, semicolons) && i < |text|
    requires !IsQuote(text[i]) && !Opens(text[i..], '/', '/') && !Opens(text[i..], '/', '*')
    ensures ScanState(text, b0, out, i + 1, false,
                      opens + (if text[i] == '[' then [i] else []),
                      closes + (if text[i] == ']' then [i] else []),
                      semicolons + (if text[i] == ';' then [i] else []))
  {
    hide LineCode, LineState, Positions;
    var ch := text[i];
    assert out[i] == out[i..][0] == text[i..][0];
    assert out[..i + 1] == out[..i] + [ch] && out[i + 1..] == out[i..][1..] && text[i + 1..] == text[i..][1..];
    ProgressChar(text, b0, out[..i], i);
    PositionsSnoc(out[..i], ch, '[');
    PositionsSnoc(out[..i], ch, ']');
    PositionsSnoc(out[..i], ch, ';');
  }

  lemma StateEnd(text: string, b0: bool, out: string, b: bool, opens: seq<nat>, closes: seq<nat>, semicolons: seq<nat>)
    requires ScanState(text, b0, out, |text|, b, opens, closes, semicolons)
    ensures Scanned(text, b0) == CodeLine(out, b, opens, closes, semicolons)
  {
    assert out[..|text|] == out && text[|text|..] == "";
    assert out + "" == out;
  }

  method ScanProtoCodeLine(text: string, inBlock0: bool) returns (line: CodeLine)
    ensures line == Scanned(text, inBlock0)
  {
    hide LineCode, LineState, HasClose, CloseSpan, Span, Positions, ScanState, Scanned;
    var out := new char[|text|](i requires 0 <= i < |text| => text[i]);
    var inBlock := inBlock0;
    var opens: seq<nat>, closes: seq<nat>, semicolons: seq<nat> := [], [], [];
    var i := 0;
    StateStart(text, inBlock0);
    assert out[..] == text;
    while i < |text|
      invariant 0 <= i <= |text| && out.Length == |text|
      invariant ScanState(text, inBlock0, out[..], i, inBlock, opens, closes, semicolons)
      decreases |text| - i
    {
      ghost var before := out[..];
      if inBlock {
        var end := FindClose(text, i);
        if end < 0 {
          StateRest(text, inBlock0, before, i, true, opens, closes, semicolons);
          BlankRange(out, i, |text|);
          BlankedText(before, out[..], i, |text|);
          assert out[..] == before[..i] + Spaces(|text| - i);
          return CodeLine(out[..], true, opens, closes, semicolons);
        }
        CommentPiece(text, i);
        StateBlank(text, inBlock0, before, i, true, opens, closes, semicolons, end + 2, false);
        BlankRange(out, i, end + 2);
        BlankedText(before, out[..], i, end + 2);
        i := end + 2;
        inBlock := false;
        continue;
      }
      if Opens(text[i..], '/', '/') {
        StateRest(text, inBlock0, before, i, false, opens, closes, semicolons);
        BlankRange(out, i, |text|);
        BlankedText(before, out[..], i, |text|);
        assert out[..] == before[..i] + Spaces(|text| - i);
        return CodeLine(out[..], false, opens, closes, semicolons);
      }
      if Opens(text[i..], '/', '*') {
        OpeningPiece(text, i);
        StateBlank(text, inBlock0, before, i, false, opens, closes, semicolons, i + 2, true);
        BlankRange(out, i, i + 2);
        BlankedText(before, out[..], i, i + 2);
        i := i + 2;
        inBlock := true;
        continue;
      }
      var ch := text[i];
      if ch == '"' || ch == '\'' {
        out[i] := ' ';
        var end := BlankString(out, text, i + 1, ch);
        StringPiece(text, i);
        StateBlank(text, inBlock0, before, i, false, opens, closes, semicolons, end, false);
        BlankedText(before, out[..], i, end);
        i := end;
        continue;
      }
      StateChar(text, inBlock0, before, i, opens, closes, semicolons);
      assert opens + [] == opens && closes + [] == closes && semicolons + [] == semicolons;
      if ch == '[' {
        opens := opens + [i];
      } else if ch == ']' {
        closes := closes + [i];
      } else if ch == ';' {
        semicolons := semicolons + [i];
      }
      i := i + 1;
    }
    StateEnd(text, inBlock0, out[..], inBlock, opens, closes, semicolons);
    return CodeLine(out[..], inBlock, opens, closes, semicolons);
  }

  lemma EmptyPositions()
    ensures forall c :: Positions("", c) == []
  {
  }

  lemma PositionsDone(done: string, n: nat)
    ensures Positions(done + Spaces(n), '[') == Positions(done, '[')
    ensures Positions(done + Spaces(n), ']') == Positions(done, ']')
    ensures Positions(done + Spaces(n), ';') == Positions(done, ';')
  {
    PositionsBlank(done, n, '[');
    PositionsBlank(done, n, ']');
    PositionsBlank(done, n, ';');
  }

  // The scanner over a whole source, line by line, with its carried comment state.
  method ScanSource(source: string) returns (code: string)
    ensures code == Fold(source, false)
    ensures WellFormed(source) ==> code == Mask(source, true)
  {
    hide LineCode, LineState;
    code := "";
    var rest, inBlock := source, false;
    assert code + Fold(rest, inBlock) == Fold(source, false);
    while LineEnd(rest) < |rest|
      invariant code + Fold(rest, inBlock) == Fold(source, false)
      decreases |rest|
    {
      var k := LineEnd(rest);
      var line := ScanProtoCodeLine(rest[..k], inBlock);
      var tail := Fold(rest[k + 1..], line.inBlockComment);
      assert code + (line.code + ("\n" + tail)) == code + line.code + "\n" + tail;
      code := code + line.code + "\n";
      rest, inBlock := rest[k + 1..], line.inBlockComment;
    }
    var line := ScanProtoCodeLine(rest, inBlock);
    assert rest[..LineEnd(rest)] == rest && line.code + "" == line.code;
    code := code + line.code;
    if WellFormed(source) {
      MaskersAgree(source);
    }
  }
}
