/**
 Inserting harmless text into a proto source: the whole-file mask commutes with it,
 and every comment (and, for an insertion into code, every string) is left as it is.
 */
module ProtoInsert {
  import opened ProtoMask

  // ----- harmless insertions

  /** Text that opens and closes nothing, whatever stands around it. */
  predicate Inert(w: string) {
    && w != ""
    && (forall k :: 0 <= k < |w| ==> !IsQuote(w[k]) && w[k] != '\\' && w[k] != '\n' && w[k] != '*')
    && (forall k :: 0 <= k < |w| - 1 ==> w[k] != '/' || w[k + 1] != '/')
  }

  /** Where such a text may be put: it splits no mark, and its end joins no mark. */
  predicate Allowed(s: string, i: nat, w: string) {
    && 0 < i <= |s|
    && s[i - 1] != '/' && s[i - 1] != '*' && s[i - 1] != '\\'
    && FitsBefore(w, s[i..])
  }

  predicate FitsBefore(w: string, rest: string) {
    w != "" && w[|w| - 1] == '/' ==> rest != "" && rest[0] != '/' && rest[0] != '*'
  }

  function Insert(s: string, i: nat, w: string): (r: string)
    requires i <= |s|
    ensures |r| == |s| + |w|
  {
    s[..i] + w + s[i..]
  }

  // A point strictly inside a blanked token, or at the end of a line comment.
  predicate Hidden(s: string, i: nat, protectStrings: bool)
    requires i <= |s|
    decreases |s|
  {
    if i == 0 then false
    else
      var n := Token(s);
      if n == 0 then Hidden(s[1..], i - 1, protectStrings)
      else if i < n || (i == n && Opens(s, '/', '/')) then !IsQuote(s[0]) || protectStrings
      else Hidden(s[n..], i - n, protectStrings)
  }

  function Shown(s: string, i: nat, w: string, protectStrings: bool): (r: string)
    requires i <= |s|
    ensures |r| == |w|
  {
    if Hidden(s, i, protectStrings) then Spaces(|w|) else w
  }

  /** The tokens that are blanked: comments, and strings when they are protected. */
  function Protected(s: string, protectStrings: bool): seq<string>
    decreases |s|
  {
    if s == "" then []
    else
      var n := Token(s);
      if n == 0 then Protected(s[1..], protectStrings)
      else (if IsQuote(s[0]) && !protectStrings then [] else [s[..n]]) + Protected(s[n..], protectStrings)
  }

  // ----- an insertion moves no closing mark

  lemma {:induction false} HasCloseInsert(s: string, i: nat, w: string)
    requires Inert(w) && i <= |s| && (i > 0 ==> s[i - 1] != '*')
    ensures HasClose(Insert(s, i, w)) == HasClose(s)
    ensures HasClose(s) ==>
              CloseSpan(Insert(s, i, w)) == CloseSpan(s) + (if i < CloseSpan(s) then |w| else 0)
    decreases |s| + |w|
  {
    var t := Insert(s, i, w);
    if i > 0 {
      assert t[0] == s[0] && t[1..] == Insert(s[1..], i - 1, w);
      assert Opens(t, '*', '/') == Opens(s, '*', '/') by {
        assert |s| > 1 && i > 1 ==> t[1] == s[1];
      }
      if !Opens(s, '*', '/') {
        HasCloseInsert(s[1..], i - 1, w);
      }
    } else {
      SkipInert(s, w);
      assert t == w + s by { assert s[..0] == "" && s[0..] == s; }
    }
  }

  lemma {:induction false} SkipInert(s: string, w: string)
    requires forall k :: 0 <= k < |w| ==> w[k] != '*'
    ensures HasClose(w + s) == HasClose(s) && (HasClose(s) ==> CloseSpan(w + s) == |w| + CloseSpan(s))
    decreases |w|
  {
    if w == "" {
      assert w + s == s;
    } else {
      assert (w + s)[1..] == w[1..] + s;
      SkipInert(s, w[1..]);
    }
  }

  lemma {:induction false} ClosedInsert(t: string, i: nat, w: string, q: char)
    requires Inert(w) && i <= |t| && (i > 0 ==> t[i - 1] != '\\') && IsQuote(q)
    ensures Closed(Insert(t, i, w), q) == Closed(t, q)
    ensures Closed(t, q) ==> Span(Insert(t, i, w), q) == Span(t, q) + (if i < Span(t, q) then |w| else 0)
    decreases |t| + |w|
  {
    hide Closed, Span, Inert, Insert;
    var u := Insert(t, i, w);
    if i == 0 {
      InertSkip(t, w, q);
      InsertFirst(t, w);
      ClosedSome(t, q);
    } else {
      InsertLater(t, i, w, 1);
      ClosedStep(t, q);
      ClosedStep(u, q);
      if t[0] == '\\' {
        InsertLater(t, i, w, 2);
        ClosedInsert(t[2..], i - 2, w, q);
      } else if t[0] != q {
        ClosedInsert(t[1..], i - 1, w, q);
      }
    }
  }

  lemma InsertFirst(t: string, w: string)
    ensures Insert(t, 0, w) == w + t
  {
    assert t[..0] == "" && t[0..] == t;
  }

  lemma ClosedSome(t: string, q: char)
    ensures Closed(t, q) ==> Span(t, q) > 0
  {
  }

  lemma {:induction false} ClosedEnd(t: string, q: char)
    requires Closed(t, q)
    ensures Span(t, q) > 0 && t[Span(t, q) - 1] == q
  {
    if t[0] == '\\' {
      ClosedEnd(t[2..], q);
    } else if t[0] != q {
      ClosedEnd(t[1..], q);
    }
  }

  // An unclosed literal reaches to the end.
  lemma {:induction false} OpenSpan(t: string, q: char)
    requires !Closed(t, q)
    ensures Span(t, q) == |t|
    decreases |t|
  {
    if t != "" {
      if t[0] == '\\' {
        if |t| > 1 {
          OpenSpan(t[2..], q);
        }
      } else {
        OpenSpan(t[1..], q);
      }
    }
  }

  // How the first characters decide where a literal ends.
  lemma ClosedStep(t: string, q: char)
    requires t != "" && IsQuote(q)
    ensures t[0] == '\\' && |t| > 1 ==> Closed(t, q) == Closed(t[2..], q) && Span(t, q) == 2 + Span(t[2..], q)
    ensures t[0] != '\\' && t[0] != q ==> Closed(t, q) == Closed(t[1..], q) && Span(t, q) == 1 + Span(t[1..], q)
    ensures t[0] == q ==> Closed(t, q) && Span(t, q) == 1
  {
  }

  // What stands before the insertion is read first.
  lemma InsertLater(t: string, i: nat, w: string, k: nat)
    requires k <= i <= |t|
    ensures Insert(t, i, w)[..k] == t[..k] && Insert(t, i, w)[k..] == Insert(t[k..], i - k, w)
    ensures k > 0 ==> Insert(t, i, w)[0] == t[0]
  {
  }

  lemma InertSkip(t: string, w: string, q: char)
    requires Inert(w) && IsQuote(q)
    ensures Closed(w + t, q) == Closed(t, q) && Span(w + t, q) == |w| + Span(t, q)
  {
    SkipPlain(t, w, q);
  }

  lemma {:induction false} SkipPlain(t: string, w: string, q: char)
    requires IsQuote(q) && forall k :: 0 <= k < |w| ==> !IsQuote(w[k]) && w[k] != '\\'
    ensures Closed(w + t, q) == Closed(t, q) && Span(w + t, q) == |w| + Span(t, q)
    decreases |w|
  {
    if w == "" {
      assert w + t == t;
    } else {
      assert (w + t)[1..] == w[1..] + t;
      SkipPlain(t, w[1..], q);
    }
  }

  lemma LineEndInsert(s: string, i: nat, w: string)
    requires Inert(w) && i <= LineEnd(s)
    ensures LineEnd(Insert(s, i, w)) == LineEnd(s) + |w|
  {
    hide LineEnd;
    var t, k := Insert(s, i, w), LineEnd(s);
    assert forall j :: 0 <= j < k + |w| ==>
        t[j] == if j < i then s[j] else if j < i + |w| then w[j - i] else s[j - |w|];
    assert k < |s| ==> t[k + |w|] == s[k];
  }

  // ----- at a code point

  lemma NoToken(t: string)
    requires t != "" && !IsQuote(t[0]) && !Opens(t, '/', '/') && !Opens(t, '/', '*')
    ensures Token(t) == 0
    ensures forall b :: Mask(t, b) == [t[0]] + Mask(t[1..], b)
    ensures forall b :: Protected(t, b) == Protected(t[1..], b)
  {
    hide LineEnd, HasClose, CloseSpan, Closed, Span;
    assert Token(t) == 0;
  }

  lemma {:induction false} InsertAtCode(s: string, w: string, protectStrings: bool)
    requires FitsBefore(w, s)
    requires forall k :: 0 <= k < |w| ==> !IsQuote(w[k]) && w[k] != '*'
    requires forall k :: 0 <= k < |w| - 1 ==> w[k] != '/' || w[k + 1] != '/'
    ensures Mask(w + s, protectStrings) == w + Mask(s, protectStrings)
    ensures Protected(w + s, protectStrings) == Protected(s, protectStrings)
    decreases |w|
  {
    hide Mask, Protected;
    if w == "" {
      assert w + s == s && w + Mask(s, protectStrings) == Mask(s, protectStrings);
    } else {
      var t := w + s;
      assert t[0] == w[0] && t[1..] == w[1..] + s;
      assert |w| > 1 ==> t[1] == w[1];
      assert |w| == 1 && s != "" ==> t[1] == s[0];
      NoToken(t);
      InsertAtCode(s, w[1..], protectStrings);
      assert [w[0]] + (w[1..] + Mask(s, protectStrings)) == w + Mask(s, protectStrings);
    }
  }

  // ----- how the first token changes

  // The token at the head of `s` ends before the insertion, and is still the same.
  predicate Before(s: string, i: nat) {
    var n := Token(s);
    n > 0 && n <= i && !(n == i && Opens(s, '/', '/'))
  }

  lemma PlainHead(s: string, i: nat, w: string)
    requires Inert(w) && Allowed(s, i, w) && Token(s) == 0
    ensures Token(Insert(s, i, w)) == 0
  {
    var t := Insert(s, i, w);
    assert t[0] == s[0] && (i > 1 ==> t[1] == s[1]);
    if Opens(s, '/', '*') {
      assert i > 2;
      assert t[2..] == Insert(s[2..], i - 2, w);
      HasCloseInsert(s[2..], i - 2, w);
    }
    if IsQuote(s[0]) {
      assert t[1..] == Insert(s[1..], i - 1, w);
      QuoteHead(s, i, w);
    }
  }

  lemma QuoteHead(s: string, i: nat, w: string)
    requires Inert(w) && Allowed(s, i, w) && IsQuote(s[0])
    ensures Closed(Insert(s[1..], i - 1, w), s[0]) == Closed(s[1..], s[0])
    ensures Closed(s[1..], s[0]) ==>
              Span(Insert(s[1..], i - 1, w), s[0])
              == Span(s[1..], s[0]) + (if i - 1 < Span(s[1..], s[0]) then |w| else 0)
  {
    assert i > 1 ==> s[1..][i - 2] == s[i - 1];
    ClosedInsert(s[1..], i - 1, w, s[0]);
  }

  lemma TokenBefore(s: string, i: nat, w: string)
    requires Inert(w) && Allowed(s, i, w) && Before(s, i)
    ensures Token(Insert(s, i, w)) == Token(s)
  {
    var t, n := Insert(s, i, w), Token(s);
    assert forall j :: 0 <= j < i ==> t[j] == s[j];
    if Opens(s, '/', '/') {
      LineEndBefore(s, i, w);
    } else if Opens(s, '/', '*') {
      assert i > 2 && t[2..] == Insert(s[2..], i - 2, w);
      HasCloseInsert(s[2..], i - 2, w);
    } else {
      assert t[1..] == Insert(s[1..], i - 1, w);
      QuoteHead(s, i, w);
    }
  }

  lemma {:induction false} LineEndBefore(s: string, i: nat, w: string)
    requires LineEnd(s) < i <= |s|
    ensures LineEnd(Insert(s, i, w)) == LineEnd(s)
  {
    hide LineEnd;
    var t := Insert(s, i, w);
    assert forall j :: 0 <= j < i ==> t[j] == s[j];
  }

  lemma TokenAround(s: string, i: nat, w: string)
    requires Inert(w) && Allowed(s, i, w) && Token(s) > 0 && !Before(s, i)
    ensures Token(Insert(s, i, w)) == Token(s) + |w|
  {
    var t, n := Insert(s, i, w), Token(s);
    assert forall j :: 0 <= j < i ==> t[j] == s[j];
    if Opens(s, '/', '/') {
      assert i > 2;
      LineEndInsert(s, i, w);
    } else if Opens(s, '/', '*') {
      assert i > 2 && t[2..] == Insert(s[2..], i - 2, w);
      HasCloseInsert(s[2..], i - 2, w);
    } else {
      assert t[1..] == Insert(s[1..], i - 1, w);
      QuoteHead(s, i, w);
    }
  }

  // ----- the mask commutes with the insertion

  /** What the mask of the longer text must be. */
  ghost predicate Commutes(s: string, i: nat, w: string, protectStrings: bool) {
    && i <= |s|
    && Mask(Insert(s, i, w), protectStrings)
       == Mask(s, protectStrings)[..i] + Shown(s, i, w, protectStrings) + Mask(s, protectStrings)[i..]
    && (!Hidden(s, i, protectStrings) ==>
          Protected(Insert(s, i, w), protectStrings) == Protected(s, protectStrings))
  }

  lemma InertAtCode(s: string, w: string, protectStrings: bool)
    requires Inert(w) && FitsBefore(w, s)
    ensures Mask(w + s, protectStrings) == w + Mask(s, protectStrings)
    ensures Protected(w + s, protectStrings) == Protected(s, protectStrings)
  {
    hide Mask, Protected;
    InsertAtCode(s, w, protectStrings);
  }

  lemma CommutesAtStart(s: string, w: string, protectStrings: bool)
    requires Inert(w) && FitsBefore(w, s)
    ensures Commutes(s, 0, w, protectStrings)
  {
    hide Mask, Protected, Token, Inert, FitsBefore;
    InertAtCode(s, w, protectStrings);
    var m := Mask(s, protectStrings);
    assert Insert(s, 0, w) == w + s by { assert s[..0] == "" && s[0..] == s; }
    assert m[..0] + w + m[0..] == w + m;
  }

  // `a` is the front of `s` that both tokenisations read as they are, `code` its mask.
  lemma CommutesAfter(s: string, n: nat, i: nat, w: string, code: string, front: seq<string>, protectStrings: bool)
    requires n <= i <= |s| && |code| == n
    requires Commutes(s[n..], i - n, w, protectStrings)
    requires Mask(s, protectStrings) == code + Mask(s[n..], protectStrings)
    requires Mask(Insert(s, i, w), protectStrings) == code + Mask(Insert(s, i, w)[n..], protectStrings)
    requires Protected(s, protectStrings) == front + Protected(s[n..], protectStrings)
    requires Protected(Insert(s, i, w), protectStrings) == front + Protected(Insert(s, i, w)[n..], protectStrings)
    requires Hidden(s, i, protectStrings) == Hidden(s[n..], i - n, protectStrings)
    ensures Commutes(s, i, w, protectStrings)
  {
    hide Mask, Protected, Hidden;
    assert Insert(s, i, w)[n..] == Insert(s[n..], i - n, w);
    var m, rest := Mask(s, protectStrings), Mask(s[n..], protectStrings);
    assert m[..i] == code + rest[..i - n] && m[i..] == rest[i - n..];
  }

  lemma MaskHead(s: string, protectStrings: bool)
    requires s != "" && Token(s) == 0
    ensures Mask(s, protectStrings) == [s[0]] + Mask(s[1..], protectStrings)
    ensures Protected(s, protectStrings) == [] + Protected(s[1..], protectStrings)
  {
    hide Token;
  }

  function TokenCode(s: string, protectStrings: bool): (r: string)
    requires s != ""
    ensures |r| == Token(s)
  {
    if IsQuote(s[0]) && !protectStrings then s[..Token(s)] else Blank(s[..Token(s)])
  }

  function TokenKept(s: string, protectStrings: bool): seq<string>
    requires s != ""
  {
    if IsQuote(s[0]) && !protectStrings then [] else [s[..Token(s)]]
  }

  lemma MaskAfter(s: string, protectStrings: bool)
    requires s != "" && Token(s) > 0
    ensures Mask(s, protectStrings) == TokenCode(s, protectStrings) + Mask(s[Token(s)..], protectStrings)
    ensures Protected(s, protectStrings) == TokenKept(s, protectStrings) + Protected(s[Token(s)..], protectStrings)
  {
    hide Token;
  }

  lemma HiddenAfter(s: string, i: nat, protectStrings: bool)
    requires 0 < i <= |s| && (Token(s) == 0 || Before(s, i))
    ensures var n := if Token(s) == 0 then 1 else Token(s);
            n <= i && Hidden(s, i, protectStrings) == Hidden(s[n..], i - n, protectStrings)
  {
    hide Token;
  }

  lemma BlankInsert(s: string, i: nat, w: string)
    requires Inert(w) && i <= |s|
    ensures Blank(Insert(s, i, w)) == Blank(s)[..i] + Spaces(|w|) + Blank(s)[i..]
  {
  }

  lemma TokenCodeInsert(s: string, i: nat, w: string, protectStrings: bool)
    requires Inert(w) && Allowed(s, i, w) && Token(s) > 0 && i <= Token(s)
    requires Token(Insert(s, i, w)) == Token(s) + |w|
    ensures var code := TokenCode(s, protectStrings);
            TokenCode(Insert(s, i, w), protectStrings)
            == code[..i] + (if !IsQuote(s[0]) || protectStrings then Spaces(|w|) else w) + code[i..]
  {
    hide Token, Inert;
    var t, n := Insert(s, i, w), Token(s);
    assert t[0] == s[0];
    assert t[..n + |w|] == Insert(s[..n], i, w);
    BlankInsert(s[..n], i, w);
  }

  lemma CommutesAround(s: string, i: nat, w: string, protectStrings: bool)
    requires Inert(w) && Allowed(s, i, w) && Token(s) > 0 && !Before(s, i)
    ensures Commutes(s, i, w, protectStrings)
  {
    hide Token, Mask, Protected, Hidden, Inert, Before, TokenCode, Spaces;
    var t, n := Insert(s, i, w), Token(s);
    TokenAround(s, i, w);
    HiddenAround(s, i, protectStrings);
    MaskAfter(s, protectStrings);
    MaskAfter(t, protectStrings);
    TokenCodeInsert(s, i, w, protectStrings);
    assert t[0] == s[0] && t[n + |w|..] == s[n..];
    var m, rest, code := Mask(s, protectStrings), Mask(s[n..], protectStrings), TokenCode(s, protectStrings);
    assert m[..i] == code[..i] && m[i..] == code[i..] + rest;
  }

  lemma HiddenAround(s: string, i: nat, protectStrings: bool)
    requires 0 < i <= |s| && Token(s) > 0 && !Before(s, i)
    ensures i <= Token(s)
    ensures Hidden(s, i, protectStrings) == (!IsQuote(s[0]) || protectStrings)
  {
    hide Token;
  }

  /**
   The mask of the longer text is the mask of the text with the insertion, blanked or
   shown, put in the same place; and outside comments and protected strings every one
   of them is left exactly as it was.
   */
  lemma {:induction false} InsertCommutes(s: string, i: nat, w: string, protectStrings: bool)
    requires Inert(w) && Allowed(s, i, w)
    ensures Commutes(s, i, w, protectStrings)
    decreases |s|, 0
  {
    hide Token, Mask, Protected, Hidden, Commutes, Inert, Before;
    var t := Insert(s, i, w);
    if Token(s) == 0 {
      PlainHead(s, i, w);
      MaskHead(s, protectStrings);
      MaskHead(t, protectStrings);
      HiddenAfter(s, i, protectStrings);
      InsertFurther(s, 1, i, w, protectStrings);
      assert t[0] == s[0];
      CommutesAfter(s, 1, i, w, [s[0]], [], protectStrings);
    } else if Before(s, i) {
      var n := Token(s);
      TokenBefore(s, i, w);
      MaskAfter(s, protectStrings);
      MaskAfter(t, protectStrings);
      HiddenAfter(s, i, protectStrings);
      InsertFurther(s, n, i, w, protectStrings);
      assert t[..n] == s[..n] && t[0] == s[0];
      CommutesAfter(s, n, i, w, TokenCode(s, protectStrings), TokenKept(s, protectStrings), protectStrings);
    } else {
      CommutesAround(s, i, w, protectStrings);
    }
  }

  lemma {:induction false} InsertFurther(s: string, n: nat, i: nat, w: string, protectStrings: bool)
    requires Inert(w) && Allowed(s, i, w) && 0 < n <= i
    ensures Commutes(s[n..], i - n, w, protectStrings)
    decreases |s| - n, 1
  {
    hide Token, Mask, Protected, Hidden, Commutes, Inert;
    assert s[n..][i - n..] == s[i..];
    if i == n {
      CommutesAtStart(s[n..], w, protectStrings);
    } else {
      InsertCommutes(s[n..], i - n, w, protectStrings);
    }
  }

  // ----- what the mask shows

  predicate BlankChar(c: char) {
    c == ' ' || c == '\n'
  }

  /** A character of the mask is the source's own, or blank; protecting strings only blanks more. */
  lemma {:induction false} MaskShows(s: string, k: nat)
    requires k < |s|
    ensures forall b :: Mask(s, b)[k] == s[k] || BlankChar(Mask(s, b)[k])
    ensures !BlankChar(Mask(s, true)[k]) ==> Mask(s, false)[k] == s[k]
    decreases |s|
  {
    hide Token;
    var n := Token(s);
    if n == 0 {
      MaskHead(s, true);
      MaskHead(s, false);
      if k > 0 {
        hide Mask;
        MaskShows(s[1..], k - 1);
      }
    } else {
      MaskAfter(s, true);
      MaskAfter(s, false);
      hide Mask;
      if k >= n {
        MaskShows(s[n..], k - n);
      }
    }
  }

  /** A hidden point stands right after a blank of the mask. */
  lemma {:induction false} HiddenIsBlank(s: string, i: nat, protectStrings: bool)
    requires i <= |s| && Hidden(s, i, protectStrings)
    ensures i > 0 && BlankChar(Mask(s, protectStrings)[i - 1])
    decreases |s|
  {
    hide Token;
    var n := Token(s);
    if n == 0 {
      MaskHead(s, protectStrings);
      hide Mask;
      HiddenIsBlank(s[1..], i - 1, protectStrings);
    } else {
      MaskAfter(s, protectStrings);
      hide Mask;
      if Before(s, i) {
        HiddenAfter(s, i, protectStrings);
        HiddenIsBlank(s[n..], i - n, protectStrings);
      } else {
        HiddenAround(s, i, protectStrings);
      }
    }
  }

  /**
   Text put right after a visible character of the mask: it is visible there too, whether
   strings are protected or not, and every comment stays as it was.
   */
  lemma VisibleInsert(s: string, i: nat, w: string, protectStrings: bool)
    requires Inert(w) && Allowed(s, i, w) && !BlankChar(Mask(s, protectStrings)[i - 1])
    ensures Mask(Insert(s, i, w), protectStrings) == Insert(Mask(s, protectStrings), i, w)
    ensures Mask(Insert(s, i, w), false) == Insert(Mask(s, false), i, w)
    ensures Protected(Insert(s, i, w), protectStrings) == Protected(s, protectStrings)
    ensures Protected(Insert(s, i, w), false) == Protected(s, false)
  {
    hide Mask, Protected, Hidden, Inert, Token;
    MaskShows(s, i - 1);
    assert !Hidden(s, i, protectStrings) by {
      if Hidden(s, i, protectStrings) {
        HiddenIsBlank(s, i, protectStrings);
      }
    }
    ShownFalse(s, i, protectStrings);
    InsertCommutes(s, i, w, protectStrings);
    InsertCommutes(s, i, w, false);
  }

  // A point outside comments and protected strings is outside comments.
  lemma {:induction false} ShownFalse(s: string, i: nat, protectStrings: bool)
    requires i <= |s| && !Hidden(s, i, protectStrings)
    ensures !Hidden(s, i, false)
    decreases |s|
  {
    hide Token;
    if i > 0 {
      var n := Token(s);
      if n == 0 {
        ShownFalse(s[1..], i - 1, protectStrings);
      } else if Before(s, i) {
        ShownFalse(s[n..], i - n, protectStrings);
      }
    }
  }
}
