/**
 Two maskers of proto source: one works on the whole file, one line by line with a
 carried block-comment state.  Both blank comments and string literals and keep
 every other character where it is.  On any source whose strings close on their
 own line and whose block comments close, they agree character for character.
 */
module ProtoMask {

  function Spaces(n: nat): (r: string)
    ensures |r| == n && forall i :: 0 <= i < n ==> r[i] == ' '
  {
    seq(n, _ => ' ')
  }

  function Blank(s: string): (r: string)
    ensures |r| == |s| && forall i :: 0 <= i < |s| ==> r[i] == if s[i] == '\n' then '\n' else ' '
  {
    seq(|s|, i requires 0 <= i < |s| => if s[i] == '\n' then '\n' else ' ')
  }

  predicate IsQuote(c: char) {
    c == '"' || c == '\''
  }

  predicate Opens(s: string, a: char, b: char) {
    |s| > 1 && s[0] == a && s[1] == b
  }

  // ----- ends of protected regions

  /** The length of the first line of `s`, without its newline. */
  function LineEnd(s: string): (k: nat)
    ensures k <= |s| && (forall i :: 0 <= i < k ==> s[i] != '\n') && (k < |s| ==> s[k] == '\n')
  {
    if s == "" || s[0] == '\n' then 0 else 1 + LineEnd(s[1..])
  }

  predicate HasClose(s: string) {
    if s == "" then false else Opens(s, '*', '/') || HasClose(s[1..])
  }

  /** How far a block comment reaches into `s`, its closing mark included. */
  function CloseSpan(s: string): (n: nat)
    requires HasClose(s)
    ensures 2 <= n <= |s|
  {
    if Opens(s, '*', '/') then 2 else 1 + CloseSpan(s[1..])
  }

  /** Whether the string literal opened in front of `t` by `q` is closed in `t`. */
  predicate Closed(t: string, q: char) {
    if t == "" then false
    else if t[0] == '\\' then |t| > 1 && Closed(t[2..], q)
    else t[0] == q || Closed(t[1..], q)
  }

  /** How far that literal reaches into `t`: past its closing quote, or to the end. */
  function Span(t: string, q: char): (n: nat)
    ensures n <= |t|
  {
    if t == "" then 0
    else if t[0] == '\\' then if |t| > 1 then 2 + Span(t[2..], q) else 1
    else if t[0] == q then 1
    else 1 + Span(t[1..], q)
  }

  // ----- the whole-file masker

  /** The length of the comment or string that starts `s`; 0 if none does. */
  function Token(s: string): (n: nat)
    ensures n <= |s|
  {
    if s == "" then 0
    else if Opens(s, '/', '/') then LineEnd(s)
    else if Opens(s, '/', '*') then if HasClose(s[2..]) then 2 + CloseSpan(s[2..]) else 0
    else if IsQuote(s[0]) && Closed(s[1..], s[0]) then 1 + Span(s[1..], s[0])
    else 0
  }

  function Mask(s: string, protectStrings: bool): (r: string)
    ensures |r| == |s|
    decreases |s|
  {
    if s == "" then ""
    else
      var n := Token(s);
      if n == 0 then [s[0]] + Mask(s[1..], protectStrings)
      else (if IsQuote(s[0]) && !protectStrings then s[..n] else Blank(s[..n])) + Mask(s[n..], protectStrings)
  }

  /** A literal that ends on the line it starts; anything else qualifies. */
  predicate OneLine(t: string) {
    t != "" && IsQuote(t[0]) ==> forall y :: 0 <= y < |t| ==> t[y] != '\n'
  }

  ghost predicate SingleLine(ts: seq<string>) {
    forall x :: 0 <= x < |ts| ==> OneLine(ts[x])
  }

  // ----- the line masker

  function LineCode(text: string, inBlock: bool): (r: string)
    ensures |r| == |text|
    decreases |text|
  {
    if text == "" then ""
    else if inBlock then
      if HasClose(text) then Spaces(CloseSpan(text)) + LineCode(text[CloseSpan(text)..], false) else Spaces(|text|)
    else if Opens(text, '/', '/') then Spaces(|text|)
    else if Opens(text, '/', '*') then Spaces(2) + LineCode(text[2..], true)
    else if IsQuote(text[0]) then
      var n := 1 + Span(text[1..], text[0]);
      Spaces(n) + LineCode(text[n..], false)
    else [text[0]] + LineCode(text[1..], false)
  }

  /** Whether a block comment is open at the end of the line. */
  predicate LineState(text: string, inBlock: bool)
    decreases |text|
  {
    if text == "" then inBlock
    else if inBlock then !HasClose(text) || LineState(text[CloseSpan(text)..], false)
    else if Opens(text, '/', '/') then false
    else if Opens(text, '/', '*') then LineState(text[2..], true)
    else if IsQuote(text[0]) then LineState(text[1 + Span(text[1..], text[0])..], false)
    else LineState(text[1..], false)
  }

  /** The offsets of `c` in `code`, in order. */
  function Positions(code: string, c: char): (r: seq<nat>)
    ensures forall k :: 0 <= k < |r| ==> r[k] < |code|
  {
    if code == "" then []
    else
      var n := |code| - 1;
      Positions(code[..n], c) + if code[n] == c then [n] else []
  }

  lemma {:induction false} PositionsExact(code: string, c: char)
    ensures forall i :: 0 <= i < |code| ==> (i in Positions(code, c) <==> code[i] == c)
  {
    if code != "" {
      PositionsExact(code[..|code| - 1], c);
    }
  }

  /** The line masker over a whole source, line after line, carrying the block state. */
  function Fold(s: string, inBlock: bool): (r: string)
    ensures |r| == |s|
    decreases |s|
  {
    var k := LineEnd(s);
    LineCode(s[..k], inBlock)
    + if k == |s| then "" else "\n" + Fold(s[k + 1..], LineState(s[..k], inBlock))
  }

  // ----- well-formed sources

  predicate WellFormed(s: string)
    decreases |s|
  {
    if s == "" then true
    else if Opens(s, '/', '/') then WellFormed(s[LineEnd(s)..])
    else if Opens(s, '/', '*') then HasClose(s[2..]) && WellFormed(s[2 + CloseSpan(s[2..])..])
    else if IsQuote(s[0]) then
      Closed(s[1..LineEnd(s)], s[0]) && WellFormed(s[1 + Span(s[1..LineEnd(s)], s[0])..])
    else WellFormed(s[1..])
  }

  // ----- the maskers agree

  lemma {:induction false} ClosedPrefix(t: string, u: string, q: char)
    requires Closed(t, q)
    ensures Closed(t + u, q) && Span(t + u, q) == Span(t, q)
    decreases |t|
  {
    if t[0] == '\\' {
      assert (t + u)[2..] == t[2..] + u;
      ClosedPrefix(t[2..], u, q);
    } else if t[0] != q {
      assert (t + u)[1..] == t[1..] + u;
      ClosedPrefix(t[1..], u, q);
    }
  }

  lemma Regroup(a: string, b: string, c: string)
    ensures a + b + c == a + (b + c)
  {
  }

  // If the line masker consumes the first n characters of a line on their own, so does the fold.
  lemma FoldAdvance(s: string, b: bool, n: nat, code: string, b': bool)
    requires n <= LineEnd(s)
    requires LineCode(s[..LineEnd(s)], b) == code + LineCode(s[n..LineEnd(s)], b')
    requires LineState(s[..LineEnd(s)], b) == LineState(s[n..LineEnd(s)], b')
    ensures Fold(s, b) == code + Fold(s[n..], b')
  {
    hide LineCode, LineState, LineEnd;
    var k := LineEnd(s);
    var t := s[n..];
    LineEndTail(s, n);
    assert t[..k - n] == s[n..k];
    var rest := if k == |s| then "" else "\n" + Fold(s[k + 1..], LineState(s[..k], b));
    assert k < |s| ==> t[k - n + 1..] == s[k + 1..];
    Regroup(code, LineCode(s[n..k], b'), rest);
  }

  lemma LineEndTail(s: string, n: nat)
    requires n <= LineEnd(s)
    ensures LineEnd(s[n..]) == LineEnd(s) - n
  {
    var k := LineEnd(s);
    var t := s[n..];
    assert forall i :: 0 <= i < |t| ==> t[i] == s[n + i];
  }

  lemma FoldNewline(s: string, b: bool)
    requires s != "" && s[0] == '\n'
    ensures Fold(s, b) == "\n" + Fold(s[1..], b)
  {
    assert s[..0] == "" && LineCode("", b) == "" && LineState("", b) == b;
    assert "" + "\n" == "\n";
  }

  lemma FoldChar(s: string)
    requires s != "" && s[0] != '\n' && !IsQuote(s[0]) && !Opens(s, '/', '/') && !Opens(s, '/', '*')
    ensures Fold(s, false) == [s[0]] + Fold(s[1..], false)
  {
    var line := s[..LineEnd(s)];
    assert line[0] == s[0] && (|line| > 1 ==> line[1] == s[1]);
    assert line[1..] == s[1..LineEnd(s)];
    FoldAdvance(s, false, 1, [s[0]], false);
  }

  lemma FoldLineComment(s: string)
    requires Opens(s, '/', '/')
    ensures Fold(s, false) == Spaces(LineEnd(s)) + Fold(s[LineEnd(s)..], false)
  {
    var k := LineEnd(s);
    assert s[0] != '\n' && s[1] != '\n' && k >= 2;
    var line := s[..k];
    assert Opens(line, '/', '/') && s[k..k] == "";
    assert Spaces(k) + "" == Spaces(k);
    FoldAdvance(s, false, k, Spaces(k), false);
  }

  lemma FoldBlockOpen(s: string)
    requires Opens(s, '/', '*')
    ensures Fold(s, false) == Spaces(2) + Fold(s[2..], true)
  {
    var k := LineEnd(s);
    assert k >= 2;
    var line := s[..k];
    assert Opens(line, '/', '*') && line[2..] == s[2..k];
    FoldAdvance(s, false, 2, Spaces(2), true);
  }

  lemma {:induction false} FoldString(s: string)
    requires s != "" && IsQuote(s[0]) && Closed(s[1..LineEnd(s)], s[0])
    ensures var n := 1 + Span(s[1..LineEnd(s)], s[0]);
            n <= LineEnd(s) && Fold(s, false) == Spaces(n) + Fold(s[n..], false)
  {
    var k := LineEnd(s);
    var line := s[..k];
    assert line[0] == s[0] && line[1..] == s[1..k];
    var n := 1 + Span(s[1..k], s[0]);
    assert line[n..] == s[n..k];
    FoldAdvance(s, false, n, Spaces(n), false);
  }

  // Inside a block comment, character by character.
  lemma FoldBlockClose(s: string)
    requires Opens(s, '*', '/')
    ensures Fold(s, true) == Spaces(2) + Fold(s[2..], false)
  {
    var k := LineEnd(s);
    assert k >= 2;
    var line := s[..k];
    assert Opens(line, '*', '/') && line[2..] == s[2..k];
    FoldAdvance(s, true, 2, Spaces(2), false);
  }

  lemma {:induction false} FoldBlockChar(s: string)
    requires s != "" && s[0] != '\n' && !Opens(s, '*', '/')
    ensures Fold(s, true) == Spaces(1) + Fold(s[1..], true)
  {
    var k := LineEnd(s);
    var line := s[..k];
    assert line[0] == s[0] && (|line| > 1 ==> line[1] == s[1]) && line[1..] == s[1..k];
    BlockLineChar(line);
    FoldAdvance(s, true, 1, Spaces(1), true);
  }

  lemma BlockLineChar(line: string)
    requires line != "" && !Opens(line, '*', '/')
    ensures LineCode(line, true) == Spaces(1) + LineCode(line[1..], true)
    ensures LineState(line, true) == LineState(line[1..], true)
  {
    var t := line[1..];
    assert HasClose(line) == HasClose(t);
    if HasClose(t) {
      var n := CloseSpan(t);
      assert CloseSpan(line) == n + 1 && line[n + 1..] == t[n..];
      BlockLineClosed(line, t, n);
    } else {
      BlockLineOpen(line, t);
    }
  }

  lemma BlockLineClosed(line: string, t: string, n: nat)
    requires line != "" && t == line[1..] && HasClose(line) && HasClose(t) && CloseSpan(line) == n + 1
        && CloseSpan(t) == n
    ensures LineCode(line, true) == Spaces(1) + LineCode(t, true) && LineState(line, true) == LineState(t, true)
  {
    hide HasClose, CloseSpan;
    assert line[n + 1..] == t[n..];
    assert Spaces(n + 1) == Spaces(1) + Spaces(n);
    Regroup(Spaces(1), Spaces(n), LineCode(t[n..], false));
  }

  lemma BlockLineOpen(line: string, t: string)
    requires line != "" && t == line[1..] && !HasClose(line) && !HasClose(t)
    ensures LineCode(line, true) == Spaces(1) + LineCode(t, true) && LineState(line, true) == LineState(t, true)
  {
    hide HasClose, CloseSpan;
    assert Spaces(|line|) == Spaces(1) + Spaces(|t|);
    if t == "" {
      assert Spaces(1) + LineCode(t, true) == Spaces(1);
    }
  }

  lemma {:induction false} BlockFold(s: string)
    requires HasClose(s)
    ensures Fold(s, true) == Blank(s[..CloseSpan(s)]) + Fold(s[CloseSpan(s)..], false)
    decreases |s|
  {
    hide Fold;
    var n := CloseSpan(s);
    if Opens(s, '*', '/') {
      FoldBlockClose(s);
      assert Blank(s[..2]) == Spaces(2);
    } else {
      BlockFold(s[1..]);
      assert s[1..][n - 1..] == s[n..];
      FoldBlockAny(s);
      BlankSplit(s, 1, n);
      assert s[1..n] == s[1..][..n - 1];
      Regroup(Blank(s[..1]), Blank(s[1..n]), Fold(s[n..], false));
    }
  }

  lemma {:induction false} FoldBlockAny(s: string)
    requires s != "" && !Opens(s, '*', '/')
    ensures Fold(s, true) == Blank(s[..1]) + Fold(s[1..], true)
  {
    hide Fold;
    if s[0] == '\n' {
      FoldNewline(s, true);
      assert Blank(s[..1]) == "\n";
    } else {
      FoldBlockChar(s);
      assert Blank(s[..1]) == Spaces(1);
    }
  }

  lemma BlankSplit(s: string, i: nat, n: nat)
    requires i <= n <= |s|
    ensures Blank(s[..n]) == Blank(s[..i]) + Blank(s[i..n])
  {
  }

  lemma BlankLine(s: string, n: nat)
    requires n <= LineEnd(s)
    ensures Blank(s[..n]) == Spaces(n)
  {
  }

  lemma MaskString(s: string)
    requires s != "" && IsQuote(s[0]) && Closed(s[1..LineEnd(s)], s[0])
    ensures Token(s) == 1 + Span(s[1..LineEnd(s)], s[0])
  {
    var k := LineEnd(s);
    assert s[1..] == s[1..k] + s[k..];
    ClosedPrefix(s[1..k], s[k..], s[0]);
  }

  lemma MaskToken(s: string)
    requires Token(s) > 0
    ensures Mask(s, true) == Blank(s[..Token(s)]) + Mask(s[Token(s)..], true)
  {
  }

  lemma FoldBlockComment(s: string)
    requires Opens(s, '/', '*') && HasClose(s[2..])
    ensures Fold(s, false) == Blank(s[..Token(s)]) + Fold(s[Token(s)..], false)
  {
    hide Fold, CloseSpan, HasClose;
    var n := 2 + CloseSpan(s[2..]);
    FoldBlockOpen(s);
    BlockFold(s[2..]);
    assert s[2..][n - 2..] == s[n..] && s[2..][..n - 2] == s[2..n];
    BlankSplit(s, 2, n);
    assert Blank(s[..2]) == Spaces(2);
    Regroup(Spaces(2), Blank(s[2..n]), Fold(s[n..], false));
  }

  /** The line masker, run over a well-formed source, is the whole-file masker. */
  lemma {:induction false} MaskersAgree(s: string)
    requires WellFormed(s)
    ensures Fold(s, false) == Mask(s, true)
    decreases |s|
  {
    hide Fold, Closed, HasClose, CloseSpan, Span, LineEnd;
    if s == "" {
      FoldEmpty();
    } else if Opens(s, '/', '/') {
      FoldLineComment(s);
      CommentLine(s);
      MaskToken(s);
      MaskersAgree(s[LineEnd(s)..]);
      BlankLine(s, LineEnd(s));
    } else if Opens(s, '/', '*') {
      FoldBlockComment(s);
      MaskToken(s);
      MaskersAgree(s[Token(s)..]);
    } else if IsQuote(s[0]) {
      FoldString(s);
      MaskString(s);
      MaskToken(s);
      MaskersAgree(s[Token(s)..]);
      BlankLine(s, Token(s));
    } else {
      if s[0] == '\n' {
        FoldNewline(s, false);
      } else {
        FoldChar(s);
      }
      MaskersAgree(s[1..]);
    }
  }

  lemma FoldEmpty()
    ensures Fold("", false) == ""
  {
  }

  lemma CommentLine(s: string)
    requires Opens(s, '/', '/')
    ensures LineEnd(s) >= 2
  {
    assert s[0] != '\n' && s[1] != '\n';
  }

  // Without its premise the agreement fails: an unclosed quote is code to the
  // whole-file masker, and a string to the line masker.
  lemma UnclosedStringDiffers()
    ensures !WellFormed("\"a") && Fold("\"a", false) == "  " && Mask("\"a", true) == "\"a"
  {
    var s := "\"a";
    assert LineEnd(s) == 2 && s[..2] == s;
    assert s[1..] == "a" && Span("a", '"') == 1 && !Closed("a", '"');
    assert Token(s) == 0 && Mask("a", true) == "a";
    assert LineCode(s, false) == Spaces(2) + LineCode("", false);
    assert s[1..2] == "a";
  }
}
