/**
 Comments and string literals, spelled out as in the whole-file masker's own pattern:
 `//` to the end of the line, a block comment to its first closing mark, and a literal of
 either quote, in which a backslash takes the next character with it.
 */
module ProtoTokens {
  import opened ProtoInsert
  import opened ProtoMask

  /** The body of a literal: plain characters, and pairs of a backslash and any character. */
  predicate Body(t: string, q: char)
    decreases |t|
  {
    if t == "" then true
    else if t[0] == '\\' then |t| > 1 && Body(t[2..], q)
    else t[0] != q && Body(t[1..], q)
  }

  /** The first `n` characters behind the opening quote are the body and the closing quote. */
  predicate LiteralRest(t: string, q: char, n: nat) {
    0 < n <= |t| && t[n - 1] == q && Body(t[..n - 1], q)
  }

  lemma {:induction false} ClosedIsRest(t: string, q: char)
    requires q != '\\' && Closed(t, q)
    ensures LiteralRest(t, q, Span(t, q))
    decreases |t|
  {
    var n := Span(t, q);
    ClosedEnd(t, q);
    if t[0] == '\\' {
      ClosedIsRest(t[2..], q);
      assert t[..n - 1][2..] == t[2..][..n - 3];
    } else if t[0] != q {
      ClosedIsRest(t[1..], q);
      assert t[..n - 1][1..] == t[1..][..n - 2];
    }
  }

  lemma {:induction false} RestIsClosed(t: string, q: char, n: nat)
    requires q != '\\' && LiteralRest(t, q, n)
    ensures Closed(t, q) && Span(t, q) == n
    decreases |t|
  {
    var body := t[..n - 1];
    if n > 1 {
      assert body[0] == t[0];
      if t[0] == '\\' {
        assert body[2..] == t[2..][..n - 3] && t[2..][n - 3] == t[n - 1];
        RestIsClosed(t[2..], q, n - 2);
      } else {
        assert body[1..] == t[1..][..n - 2] && t[1..][n - 2] == t[n - 1];
        RestIsClosed(t[1..], q, n - 1);
      }
    }
  }

  /** The closing mark of a block comment ends `n` characters in, and there is none before. */
  ghost predicate FirstClose(t: string, n: nat) {
    && 2 <= n <= |t| && t[n - 2] == '*' && t[n - 1] == '/'
    && forall i :: 0 <= i < n - 2 ==> !(t[i] == '*' && t[i + 1] == '/')
  }

  lemma {:induction false} CloseIsFirst(t: string)
    requires HasClose(t)
    ensures FirstClose(t, CloseSpan(t))
    decreases |t|
  {
    if !Opens(t, '*', '/') {
      CloseIsFirst(t[1..]);
      assert forall i :: 1 <= i < |t| ==> t[i] == t[1..][i - 1];
    }
  }

  lemma {:induction false} FirstIsClose(t: string, n: nat)
    requires FirstClose(t, n)
    ensures HasClose(t) && CloseSpan(t) == n
    decreases |t|
  {
    if n > 2 {
      assert !(t[0] == '*' && t[1] == '/');
      assert forall i :: 1 <= i < |t| ==> t[i] == t[1..][i - 1];
      FirstIsClose(t[1..], n - 1);
    }
  }

  /** A comment or literal of `n` characters at the start of `s`. */
  ghost predicate StartsToken(s: string, n: nat) {
    && n <= |s| && |s| > 1
    && if s[0] == '/' && s[1] == '/' then
         n >= 2 && (forall i :: 0 <= i < n ==> s[i] != '\n') && (n < |s| ==> s[n] == '\n')
       else if s[0] == '/' && s[1] == '*' then n >= 2 && FirstClose(s[2..], n - 2)
       else (s[0] == '"' || s[0] == '\'') && n >= 1 && LiteralRest(s[1..], s[0], n - 1)
  }

  lemma TokenFound(s: string)
    requires Token(s) > 0
    ensures StartsToken(s, Token(s))
  {
    hide LineEnd, HasClose, CloseSpan, Closed, Span, LiteralRest, FirstClose;
    if Opens(s, '/', '/') {
    } else if Opens(s, '/', '*') {
      CloseIsFirst(s[2..]);
    } else {
      ClosedIsRest(s[1..], s[0]);
      RestIsSome(s[1..], s[0], Span(s[1..], s[0]));
    }
  }

  lemma RestIsSome(t: string, q: char, n: nat)
    requires LiteralRest(t, q, n)
    ensures t != ""
  {
  }

  lemma LineEndIs(s: string, n: nat)
    requires n <= |s| && (forall i :: 0 <= i < n ==> s[i] != '\n') && (n < |s| ==> s[n] == '\n')
    ensures LineEnd(s) == n
  {
    var k := LineEnd(s);
    assert k < |s| ==> s[k] == '\n';
  }

  lemma TokenIs(s: string, n: nat)
    requires StartsToken(s, n)
    ensures Token(s) == n > 0
  {
    hide LineEnd, HasClose, CloseSpan, Closed, Span, LiteralRest, FirstClose;
    if Opens(s, '/', '/') {
      LineEndIs(s, n);
    } else if Opens(s, '/', '*') {
      FirstIsClose(s[2..], n - 2);
    } else {
      RestIsClosed(s[1..], s[0], n - 1);
    }
  }

  /** A comment or literal starts a text exactly as spelled out, and has that length. */
  lemma TokenExactly(s: string, n: nat)
    ensures n > 0 && Token(s) == n <==> StartsToken(s, n)
  {
    hide Token, StartsToken;
    if n > 0 && Token(s) == n {
      TokenFound(s);
    } else if StartsToken(s, n) {
      TokenIs(s, n);
    }
  }

  /** What the mask keeps and blanks: comments always, literals if asked to, and nothing else. */
  lemma MaskSpelled(s: string, protectStrings: bool)
    requires s != ""
    ensures (forall n: nat :: !StartsToken(s, n)) ==> Mask(s, protectStrings) == [s[0]] + Mask(s[1..], protectStrings)
    ensures forall n: nat :: StartsToken(s, n) ==>
              Mask(s, protectStrings)
              == (if s[0] == '/' || protectStrings then Blank(s[..n]) else s[..n]) + Mask(s[n..], protectStrings)
  {
    hide Token, StartsToken, Mask;
    if Token(s) == 0 {
      MaskHead(s, protectStrings);
      forall n: nat ensures !StartsToken(s, n) {
        TokenExactly(s, n);
      }
    } else {
      TokenExactly(s, Token(s));
      MaskAfter(s, protectStrings);
      forall n: nat | StartsToken(s, n) ensures n == Token(s) {
        TokenExactly(s, n);
      }
      TokenHead(s);
    }
  }

  lemma TokenHead(s: string)
    requires Token(s) > 0
    ensures s[0] == '/' || IsQuote(s[0])
    ensures !(s[0] == '/' && IsQuote(s[0]))
  {
  }
}
