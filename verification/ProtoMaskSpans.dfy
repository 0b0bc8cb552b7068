/**
 The two maskers on sources with literals that span lines: they agree where the further
 lines of such a literal are blank, and differ where one of them shows on its next line.
 */
module ProtoMaskSpans {
  import opened ProtoInsert
  import opened ProtoMask
  import opened ProtoMaskExact

  predicate AllBlank(s: string) {
    forall y :: 0 <= y < |s| ==> BlankChar(s[y])
  }

  /** The quote that starts `s` opens a literal that is closed on a later line. */
  predicate SpansLines(s: string) {
    s != "" && IsQuote(s[0]) && !Closed(s[1..LineEnd(s)], s[0]) && Token(s) > LineEnd(s)
  }

  /** The rest of such a literal, and of the line it ends on, is blank. */
  predicate BlankSpan(s: string)
    requires SpansLines(s)
  {
    var n := Token(s);
    AllBlank(s[LineEnd(s)..n - 1]) && AllBlank(s[n..n + LineEnd(s[n..])])
  }

  /** Well-formed, but for literals that span lines and are blank from their second line on. */
  predicate Tolerated(s: string)
    decreases |s|
  {
    if s == "" then true
    else if Opens(s, '/', '/') then LineEnd(s) > 0 && Tolerated(s[LineEnd(s)..])
    else if Opens(s, '/', '*') then HasClose(s[2..]) && Tolerated(s[2 + CloseSpan(s[2..])..])
    else if SpansLines(s) then BlankSpan(s) && Tolerated(s[Token(s) + LineEnd(s[Token(s)..])..])
    else if IsQuote(s[0]) then
      Closed(s[1..LineEnd(s)], s[0]) && Tolerated(s[1 + Span(s[1..LineEnd(s)], s[0])..])
    else Tolerated(s[1..])
  }

  /** The next character is code, and shows. */
  predicate ShowsFirst(s: string) {
    s != "" && !BlankChar(s[0]) && !IsQuote(s[0]) && s[0] != '/'
  }

  /** Well-formed up to a literal that goes on, on its second line, with something that shows. */
  predicate Exposed(s: string)
    decreases |s|
  {
    if s == "" then false
    else if Opens(s, '/', '/') then LineEnd(s) > 0 && Exposed(s[LineEnd(s)..])
    else if Opens(s, '/', '*') then HasClose(s[2..]) && Exposed(s[2 + CloseSpan(s[2..])..])
    else if SpansLines(s) then LineEnd(s) + 1 < Token(s) && ShowsFirst(s[LineEnd(s) + 1..])
    else if IsQuote(s[0]) then
      Closed(s[1..LineEnd(s)], s[0]) && Exposed(s[1 + Span(s[1..LineEnd(s)], s[0])..])
    else Exposed(s[1..])
  }

  // ----- the line masker at an open quote

  // A quote that is not closed on its line blanks the line.
  lemma FoldOpenString(s: string)
    requires s != "" && IsQuote(s[0]) && !Closed(s[1..LineEnd(s)], s[0])
    ensures LineEnd(s) > 0 && Fold(s, false) == Spaces(LineEnd(s)) + Fold(s[LineEnd(s)..], false)
  {
    var k := LineEnd(s);
    var line := s[..k];
    assert k > 0 && line[0] == s[0] && line[1..] == s[1..k];
    OpenSpan(line[1..], s[0]);
    hide Span, Closed, LineEnd;
    assert line[k..] == "" && s[k..k] == "";
    assert LineCode(line, false) == Spaces(k) + LineCode("", false);
    FoldAdvance(s, false, k, Spaces(k), false);
  }

  lemma BlankTail(s: string, k: nat)
    requires 0 < k <= |s| && AllBlank(s[..k])
    ensures BlankChar(s[0]) && AllBlank(s[1..][..k - 1]) && s[1..][k - 1..] == s[k..]
    ensures Blank(s[..k]) == [s[0]] + Blank(s[1..][..k - 1])
  {
    assert s[1..][..k - 1] == s[..k][1..];
    assert BlankChar(s[..k][0]);
  }

  lemma BlankNone(s: string, t: string)
    ensures s[0..] == s && Blank(s[..0]) + t == t
  {
  }

  lemma BlankIsPlain(s: string)
    requires s != "" && BlankChar(s[0])
    ensures !IsQuote(s[0]) && !Opens(s, '/', '/') && !Opens(s, '/', '*')
  {
  }

  // Blanks are copied.
  lemma {:induction false} FoldBlanks(s: string, k: nat)
    requires k <= |s| && AllBlank(s[..k])
    ensures Fold(s, false) == Blank(s[..k]) + Fold(s[k..], false)
    decreases k
  {
    hide Fold, LineEnd, Blank, AllBlank, BlankChar;
    if k == 0 {
      BlankNone(s, Fold(s, false));
    } else {
      BlankTail(s, k);
      BlankIsPlain(s);
      FoldPlain(s);
      FoldBlanks(s[1..], k - 1);
      Regroup([s[0]], Blank(s[1..][..k - 1]), Fold(s[k..], false));
    }
  }

  lemma {:induction false} MaskBlanks(s: string, k: nat)
    requires k <= |s| && AllBlank(s[..k])
    ensures Mask(s, true) == Blank(s[..k]) + Mask(s[k..], true)
    decreases k
  {
    hide Mask, LineEnd, Token, Blank, AllBlank, BlankChar;
    if k == 0 {
      BlankNone(s, Mask(s, true));
    } else {
      BlankTail(s, k);
      BlankIsPlain(s);
      PlainToken(s);
      MaskHead(s, true);
      MaskBlanks(s[1..], k - 1);
      Regroup([s[0]], Blank(s[1..][..k - 1]), Mask(s[k..], true));
    }
  }

  // A closing quote with nothing but blanks behind it on its line, read as an opening one.
  lemma FoldLastQuote(s: string)
    requires s != "" && IsQuote(s[0]) && AllBlank(s[1..1 + LineEnd(s[1..])])
    ensures var k := 1 + LineEnd(s[1..]);
            k <= |s| && Fold(s, false) == Spaces(k) + Fold(s[k..], false)
  {
    hide Fold;
    var k := 1 + LineEnd(s[1..]);
    var rest := s[1..k];
    assert LineEnd(s) == k;
    NoQuote(rest, s[0]);
    FoldOpenString(s);
  }

  lemma {:induction false} NoQuote(t: string, q: char)
    requires AllBlank(t) && IsQuote(q)
    ensures !Closed(t, q)
  {
    if t != "" {
      assert BlankChar(t[0]);
      NoQuote(t[1..], q);
    }
  }

  lemma LiteralEnd(s: string)
    requires SpansLines(s)
    ensures s[Token(s) - 1] == s[0]
  {
    hide LineEnd;
    ClosedEnd(s[1..], s[0]);
  }

  // The further lines of the literal.
  lemma FoldMiddle(s: string, e: nat, n: nat)
    requires e < n <= |s| && AllBlank(s[e..n - 1])
    ensures Fold(s[e..], false) == Blank(s[e..n - 1]) + Fold(s[n - 1..], false)
  {
    hide Fold, Blank, AllBlank, LineEnd;
    var t, m := s[e..], n - 1 - e;
    assert t[..m] == s[e..n - 1] && t[m..] == s[n - 1..];
    FoldBlanks(t, m);
  }

  // Its closing quote, and the rest of that line.
  lemma FoldClosing(s: string, n: nat, l: nat)
    requires 0 < n <= |s| && IsQuote(s[n - 1]) && l == LineEnd(s[n..]) && AllBlank(s[n..][..l])
    ensures n + l <= |s| && Fold(s[n - 1..], false) == Spaces(1 + l) + Fold(s[n + l..], false)
  {
    hide Fold, AllBlank, LineEnd, IsQuote, Spaces;
    var t := s[n - 1..];
    assert t[0] == s[n - 1] && t[1..] == s[n..];
    assert t[1..1 + l] == s[n..][..l] && t[1 + l..] == s[n + l..];
    FoldLastQuote(t);
  }

  lemma MaskParts(s: string, n: nat, l: nat)
    requires s != "" && n == Token(s) > 0 && l == LineEnd(s[n..]) && AllBlank(s[n..][..l])
    ensures n + l <= |s| && Mask(s, true) == Blank(s[..n]) + (Spaces(l) + Mask(s[n + l..], true))
  {
    hide Mask, Token, LineEnd, Blank, AllBlank;
    MaskToken(s);
    assert s[n..][l..] == s[n + l..];
    MaskBlanks(s[n..], l);
    BlankLine(s[n..], l);
  }

  lemma BlankSplit(s: string, e: nat, n: nat)
    requires e < n <= |s| && (forall y :: 0 <= y < e ==> s[y] != '\n') && s[n - 1] != '\n'
    ensures Blank(s[..n]) == Spaces(e) + (Blank(s[e..n - 1]) + Spaces(1))
  {
  }

  lemma SpanFacts(s: string)
    requires SpansLines(s) && BlankSpan(s)
    ensures var e, n := LineEnd(s), Token(s);
            && 0 < e < n && IsQuote(s[n - 1]) && AllBlank(s[e..n - 1]) && AllBlank(s[n..][..LineEnd(s[n..])])
            && Blank(s[..n]) == Spaces(e) + (Blank(s[e..n - 1]) + Spaces(1))
            && Fold(s, false) == Spaces(e) + Fold(s[e..], false)
  {
    hide Token, Closed, LineEnd, Blank, AllBlank, Fold;
    LiteralEnd(s);
    FoldOpenString(s);
    var n := Token(s);
    assert s[n..n + LineEnd(s[n..])] == s[n..][..LineEnd(s[n..])];
    BlankSplit(s, LineEnd(s), n);
  }

  lemma SpacesAdd(a: nat, b: nat)
    ensures Spaces(a + b) == Spaces(a) + Spaces(b)
  {
  }

  // The parts of both views are the same.
  lemma SameParts(x: string, y: string, l: nat, fold: string)
    ensures x + (y + (Spaces(1 + l) + fold)) == x + (y + Spaces(1)) + (Spaces(l) + fold)
  {
    SpacesAdd(1, l);
  }

  // Both maskers blank such a literal and the rest of its last line.
  lemma SpanIsBlank(s: string)
    requires SpansLines(s) && BlankSpan(s)
    ensures var n := Token(s);
            var l := LineEnd(s[n..]);
            && n + l <= |s|
            && Fold(s, false) == Blank(s[..n]) + (Spaces(l) + Fold(s[n + l..], false))
            && Mask(s, true) == Blank(s[..n]) + (Spaces(l) + Mask(s[n + l..], true))
  {
    hide Fold, Mask, Token, Closed, LineEnd, Blank, AllBlank, BlankSpan, IsQuote, SpansLines, Spaces;
    SpanFacts(s);
    var e, n := LineEnd(s), Token(s);
    var l := LineEnd(s[n..]);
    FoldMiddle(s, e, n);
    FoldClosing(s, n, l);
    SpanStart(s);
    MaskParts(s, n, l);
    SameParts(Spaces(e), Blank(s[e..n - 1]), l, Fold(s[n + l..], false));
  }

  lemma SpanStart(s: string)
    requires SpansLines(s)
    ensures s != "" && Token(s) > 0
  {
  }

  /** Blank further lines do no harm. */
  lemma {:induction false} ToleratedAgree(s: string)
    requires Tolerated(s)
    ensures Fold(s, false) == Mask(s, true)
    decreases |s|
  {
    hide Fold, Closed, HasClose, CloseSpan, Span, LineEnd, Mask, Token, BlankSpan, SpansLines;
    if s == "" {
      MaskersAgree(s);
    } else if Opens(s, '/', '/') {
      FoldLineComment(s);
      CommentToken(s);
      MaskToken(s);
      ToleratedAgree(s[LineEnd(s)..]);
      BlankLine(s, LineEnd(s));
    } else if Opens(s, '/', '*') {
      BlockToken(s);
      FoldBlockComment(s);
      MaskToken(s);
      ToleratedAgree(s[Token(s)..]);
    } else if SpansLines(s) {
      SpanIsBlank(s);
      SpanStart(s);
      ToleratedAgree(s[Token(s) + LineEnd(s[Token(s)..])..]);
    } else if IsQuote(s[0]) {
      FoldString(s);
      MaskString(s);
      MaskToken(s);
      ToleratedAgree(s[Token(s)..]);
      BlankLine(s, Token(s));
    } else {
      PlainToken(s);
      MaskHead(s, true);
      ToleratedAgree(s[1..]);
      FoldPlain(s);
    }
  }

  // What shows on the second line of a literal is code to the line masker only.
  lemma ExposedSpan(s: string)
    requires SpansLines(s) && LineEnd(s) + 1 < Token(s) && ShowsFirst(s[LineEnd(s) + 1..])
    ensures Fold(s, false) != Mask(s, true)
  {
    hide Fold, Mask, Token, Closed, Span, LineEnd, Blank;
    var e := LineEnd(s);
    FoldOpenString(s);
    assert s[e..][0] == '\n' && s[e..][1..] == s[e + 1..];
    FoldNewline(s[e..], false);
    FoldChar(s[e + 1..]);
    MaskToken(s);
    assert Fold(s, false)[e + 1] == s[e + 1];
    assert Mask(s, true)[e + 1] == Blank(s[..Token(s)])[e + 1];
  }

  /** Something that shows does. */
  lemma {:induction false} ExposedDiffer(s: string)
    requires Exposed(s)
    ensures Fold(s, false) != Mask(s, true)
    decreases |s|
  {
    hide Fold, Closed, HasClose, CloseSpan, Span, LineEnd, Mask, Token, ShowsFirst, SpansLines;
    if Opens(s, '/', '/') {
      FoldLineComment(s);
      CommentToken(s);
      MaskToken(s);
      ExposedDiffer(s[LineEnd(s)..]);
      BlankLine(s, LineEnd(s));
      SameTails(Spaces(LineEnd(s)), Fold(s[LineEnd(s)..], false), Mask(s[LineEnd(s)..], true));
    } else if Opens(s, '/', '*') {
      BlockToken(s);
      FoldBlockComment(s);
      MaskToken(s);
      ExposedDiffer(s[Token(s)..]);
      SameTails(Blank(s[..Token(s)]), Fold(s[Token(s)..], false), Mask(s[Token(s)..], true));
    } else if SpansLines(s) {
      ExposedSpan(s);
    } else if IsQuote(s[0]) {
      FoldString(s);
      MaskString(s);
      MaskToken(s);
      ExposedDiffer(s[Token(s)..]);
      BlankLine(s, Token(s));
      SameTails(Spaces(Token(s)), Fold(s[Token(s)..], false), Mask(s[Token(s)..], true));
    } else {
      PlainToken(s);
      MaskHead(s, true);
      ExposedDiffer(s[1..]);
      FoldPlain(s);
      SameTails([s[0]], Fold(s[1..], false), Mask(s[1..], true));
    }
  }

  /** Well-formed sources are among those that agree. */
  lemma {:induction false} WellFormedTolerated(s: string)
    requires WellFormed(s)
    ensures Tolerated(s)
    decreases |s|
  {
    hide Closed, HasClose, CloseSpan, Span, LineEnd, Token;
    if s != "" {
      if Opens(s, '/', '/') {
        CommentLine(s);
        WellFormedTolerated(s[LineEnd(s)..]);
      } else if Opens(s, '/', '*') {
        WellFormedTolerated(s[2 + CloseSpan(s[2..])..]);
      } else if IsQuote(s[0]) {
        WellFormedTolerated(s[1 + Span(s[1..LineEnd(s)], s[0])..]);
      } else {
        WellFormedTolerated(s[1..]);
      }
    }
  }
}
