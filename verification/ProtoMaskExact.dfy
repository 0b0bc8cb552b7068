/**
 Exactly when the two maskers agree on sources whose literals, as the whole-file masker
 finds them, do not span lines; and what can happen when one does.
 */
module ProtoMaskExact {
  import opened ProtoInsert
  import opened ProtoMask

  // ----- one step of both

  lemma SameTails(code: string, a: string, b: string)
    ensures code + a == code + b <==> a == b
  {
    assert (code + a)[|code|..] == a && (code + b)[|code|..] == b;
  }

  lemma SingleLineTail(s: string)
    requires s != "" && SingleLine(Protected(s, true))
    ensures SingleLine(Protected(s[if Token(s) == 0 then 1 else Token(s)..], true))
    ensures Token(s) > 0 ==> OneLine(s[..Token(s)])
  {
    hide Token, OneLine, Protected, Mask;
    if Token(s) == 0 {
      MaskHead(s, true);
      assert [] + Protected(s[1..], true) == Protected(s[1..], true);
    } else {
      MaskAfter(s, true);
      var all, rest := Protected(s, true), Protected(s[Token(s)..], true);
      assert all == [s[..Token(s)]] + rest;
      assert all[0] == s[..Token(s)];
      forall x | 0 <= x < |rest| ensures OneLine(rest[x]) {
        assert all[x + 1] == rest[x];
      }
    }
  }

  // A literal that is not closed on its line is either not closed at all, or spans lines.
  lemma {:induction false} ClosedLater(t: string, k: nat, q: char)
    requires k <= |t| && Closed(t, q) && !Closed(t[..k], q)
    ensures Span(t, q) > k
    decreases |t|
  {
    if k > 0 {
      assert t[..k][0] == t[0];
      if t[0] == '\\' {
        if k > 1 {
          assert t[..k][2..] == t[2..][..k - 2];
          ClosedLater(t[2..], k - 2, q);
        }
      } else if t[0] != q {
        assert t[..k][1..] == t[1..][..k - 1];
        ClosedLater(t[1..], k - 1, q);
      }
    } else {
      ClosedSome(t, q);
    }
  }

  lemma OpenOnLine(s: string)
    requires s != "" && IsQuote(s[0]) && !Closed(s[1..LineEnd(s)], s[0])
    requires Token(s) > 0 ==> OneLine(s[..Token(s)])
    ensures Token(s) == 0
  {
    hide Token, Closed, LineEnd, OneLine;
    if Token(s) > 0 {
      TokenPastLine(s);
      TokenOnLine(s);
    }
  }

  lemma TokenPastLine(s: string)
    requires s != "" && IsQuote(s[0]) && Token(s) > 0 && !Closed(s[1..LineEnd(s)], s[0])
    ensures Token(s) > LineEnd(s)
  {
    var k := LineEnd(s);
    assert k >= 1 && s[1..][..k - 1] == s[1..k];
    ClosedLater(s[1..], k - 1, s[0]);
  }

  lemma TokenOnLine(s: string)
    requires s != "" && IsQuote(s[0]) && Token(s) > 0 && OneLine(s[..Token(s)])
    ensures Token(s) <= LineEnd(s)
  {
    var n := Token(s);
    hide Token, LineEnd;
    forall y | 0 <= y < n ensures s[y] != '\n' {
      assert s[..n][y] == s[y];
    }
  }

  // The line masker blanks what opens a comment or a literal, closed or not.
  lemma FoldBlanksOpening(s: string)
    requires s != "" && (IsQuote(s[0]) || Opens(s, '/', '*'))
    ensures Fold(s, false) != "" && Fold(s, false)[0] == ' '
  {
    if Opens(s, '/', '*') {
      FoldBlockOpen(s);
    } else {
      var line := s[..LineEnd(s)];
      assert line != "" && line[0] == s[0];
      hide LineEnd, Span, HasClose, CloseSpan;
      assert LineCode(line, false)[0] == ' ';
    }
  }

  lemma MaskShowsPlain(s: string)
    requires s != "" && Token(s) == 0
    ensures Mask(s, true) != "" && Mask(s, true)[0] == s[0]
  {
    MaskHead(s, true);
  }

  // ----- the exact domain of agreement

  /**
   On a source without multi-line literals the maskers agree exactly if every quote is
   closed on its line and every block comment is closed.
   */
  lemma {:induction false} MaskersAgreeExactly(s: string)
    requires SingleLine(Protected(s, true))
    ensures Fold(s, false) == Mask(s, true) <==> WellFormed(s)
    decreases |s|
  {
    hide Fold, Closed, HasClose, CloseSpan, Span, LineEnd, Mask, Protected, Token, SingleLine, OneLine;
    if s == "" {
      MaskersAgree(s);
    } else {
      SingleLineTail(s);
      if Opens(s, '/', '/') {
        FoldLineComment(s);
        CommentLine(s);
        CommentToken(s);
        MaskToken(s);
        MaskersAgreeExactly(s[LineEnd(s)..]);
        BlankLine(s, LineEnd(s));
        SameTails(Spaces(LineEnd(s)), Fold(s[LineEnd(s)..], false), Mask(s[LineEnd(s)..], true));
      } else if Opens(s, '/', '*') {
        BlockToken(s);
        if HasClose(s[2..]) {
          FoldBlockComment(s);
          MaskToken(s);
          MaskersAgreeExactly(s[Token(s)..]);
          SameTails(Blank(s[..Token(s)]), Fold(s[Token(s)..], false), Mask(s[Token(s)..], true));
        } else {
          FoldBlanksOpening(s);
          MaskShowsPlain(s);
        }
      } else if IsQuote(s[0]) {
        if Closed(s[1..LineEnd(s)], s[0]) {
          FoldString(s);
          MaskString(s);
          MaskToken(s);
          MaskersAgreeExactly(s[Token(s)..]);
          BlankLine(s, Token(s));
          SameTails(Spaces(Token(s)), Fold(s[Token(s)..], false), Mask(s[Token(s)..], true));
        } else {
          OpenOnLine(s);
          FoldBlanksOpening(s);
          MaskShowsPlain(s);
        }
      } else {
        PlainToken(s);
        MaskHead(s, true);
        MaskersAgreeExactly(s[1..]);
        FoldPlain(s);
        SameTails([s[0]], Fold(s[1..], false), Mask(s[1..], true));
      }
    }
  }

  lemma FoldPlain(s: string)
    requires s != "" && !IsQuote(s[0]) && !Opens(s, '/', '/') && !Opens(s, '/', '*')
    ensures Fold(s, false) == [s[0]] + Fold(s[1..], false)
  {
    hide Fold;
    if s[0] == '\n' {
      FoldNewline(s, false);
    } else {
      FoldChar(s);
    }
  }

  lemma PlainToken(s: string)
    requires s != "" && !IsQuote(s[0]) && !Opens(s, '/', '/') && !Opens(s, '/', '*')
    ensures Token(s) == 0
  {
    hide LineEnd, HasClose, CloseSpan, Closed, Span;
  }

  lemma CommentToken(s: string)
    requires Opens(s, '/', '/')
    ensures Token(s) == LineEnd(s)
  {
    hide LineEnd, HasClose, CloseSpan, Closed, Span;
  }

  lemma BlockToken(s: string)
    requires Opens(s, '/', '*')
    ensures Token(s) == if HasClose(s[2..]) then 2 + CloseSpan(s[2..]) else 0
  {
    hide LineEnd, HasClose, CloseSpan, Closed, Span;
  }

  // ----- beyond it

  // A literal that spans lines: what is blank anyway cannot tell the maskers apart.
  lemma MultiLineCanAgree()
    ensures var s := "\"\n\"";
            !SingleLine(Protected(s, true)) && !WellFormed(s) && Fold(s, false) == Mask(s, true)
  {
    var s := "\"\n\"";
    hide Mask, Protected, Token, Span, Closed, WellFormed, Fold;
    QuoteLine();
    ShortLiteral();
    assert Protected(s, true)[0] == s && s[1] == '\n';
    LoneQuote(s, "\"");
  }

  lemma ShortLiteral()
    ensures var s := "\"\n\"";
            Token(s) == 3 && Protected(s, true) == [s] && Mask(s, true) == " \n " && Span(s[1..], '"') == 2
  {
    var s := "\"\n\"";
    assert s[1..] == "\n\"" && s[1..][1..] == "\"";
    assert Closed(s[1..], '"') && Span(s[1..], '"') == 2 && Token(s) == 3;
    hide Token, Closed, Span;
    MaskAfter(s, true);
    assert s[3..] == "" && s[..3] == s;
  }

  lemma LongLiteral()
    ensures var s := "\"\na\"";
            Token(s) == 4 && Protected(s, true) == [s] && Mask(s, true) == " \n  " && Span(s[1..], '"') == 3
  {
    var s := "\"\na\"";
    assert s[1..] == "\na\"" && s[1..][1..] == "a\"" && s[1..][1..][1..] == "\"";
    assert Span("\"", '"') == 1 && Closed("\"", '"');
    assert Span("a\"", '"') == 2 && Closed("a\"", '"');
    assert Closed(s[1..], '"') && Span(s[1..], '"') == 3 && Token(s) == 4;
    hide Token, Closed, Span;
    MaskAfter(s, true);
    assert s[4..] == "" && s[..4] == s;
  }

  // The lone quote, as a line of its own.
  lemma QuoteLine()
    ensures LineCode("\"", false) == " " && !LineState("\"", false) && Fold("\"", false) == " "
  {
    var q := "\"";
    assert q[1..] == "" && Span("", '"') == 0;
    assert LineCode(q, false) == Spaces(1) + LineCode("", false);
    assert Spaces(1) + "" == " ";
    assert LineEnd(q) == 1 && q[..1] == q;
  }

  // A source whose first line is a lone quote.
  lemma LoneQuote(s: string, rest: string)
    requires s == "\"\n" + rest
    ensures !WellFormed(s) && Fold(s, false) == " \n" + Fold(rest, false)
  {
    hide LineCode, LineState;
    QuoteLine();
    assert LineEnd(s) == 1 && s[..1] == "\"" && s[2..] == rest && s[1..1] == "";
    assert " " + ("\n" + Fold(rest, false)) == " \n" + Fold(rest, false);
    assert !Closed("", '"');
  }

  // Text on its further lines does.
  lemma MultiLineCanDiffer()
    ensures var s := "\"\na\"";
            !SingleLine(Protected(s, true)) && !WellFormed(s) && Fold(s, false) != Mask(s, true)
  {
    var s := "\"\na\"";
    hide Mask, Protected, Token, Span, Closed, WellFormed, Fold;
    LongLiteral();
    assert Protected(s, true)[0] == s && s[1] == '\n';
    LoneQuote(s, "a\"");
    FoldChar("a\"");
    assert Fold(s, false)[2] == 'a' && Mask(s, true)[2] == ' ';
  }
}
