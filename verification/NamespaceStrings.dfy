/**
 What the rewriter does to string literals: when every literal ends on the line it
 starts, the only ones that change are the relocated paths of import statements, and
 those only by the text that is put in.
 */
module NamespaceStrings {
  import opened NamespaceIdempotence
  import opened NamespaceLiterals
  import opened NamespacePasses
  import opened NamespacePatterns
  import opened NamespaceRewrite
  import opened NamespaceShift
  import opened ProtoInsert
  import opened ProtoMask
  import opened Text

  // ----- what is known of one comment or literal

  lemma StringEnd(s: string)
    requires s != "" && IsQuote(s[0]) && Token(s) > 0
    ensures s[Token(s) - 1] == s[0]
  {
    ClosedEnd(s[1..], s[0]);
  }

  // The piece is in the text; a literal is shown as it is and ends in its quote, a comment is blank.
  ghost predicate InText(s: string, from: nat, c: Piece) {
    var o, n := c.at - from, |c.text|;
    && 0 <= o && 0 < n && o + n <= |s| && s[o..o + n] == c.text
    && (IsQuote(c.text[0]) ==> n > 1 && c.text[n - 1] == c.text[0] && ShownAt(s, o, o + n))
    && (!IsQuote(c.text[0]) ==> BlankAt(s, o, o + n))
  }

  ghost predicate ShownAt(s: string, lo: int, hi: int) {
    0 <= lo <= hi <= |s| && forall y :: lo <= y < hi ==> Mask(s, false)[y] == s[y]
  }

  ghost predicate BlankAt(s: string, lo: int, hi: int) {
    0 <= lo <= hi <= |s| && forall y :: lo <= y < hi ==> BlankChar(Mask(s, false)[y])
  }

  lemma {:induction false} PieceInText(s: string, from: nat, x: nat)
    requires x < |Pieces(s, from)|
    ensures InText(s, from, Pieces(s, from)[x])
    decreases |s|
  {
    hide Token, Pieces, InText, Mask, ShownAt, BlankAt, TokenCode, TokenKept;
    if s == "" {
      NoPieces(from);
    } else {
      var n := Token(s);
      PiecesHead(s, from);
      if n == 0 {
        MaskHead(s, false);
        PieceInText(s[1..], from + 1, x);
        var c := Pieces(s[1..], from + 1)[x];
        ShownLater(s, 1, [s[0]], c.at - from, c.at - from + |c.text|);
        BlankLater(s, 1, [s[0]], c.at - from, c.at - from + |c.text|);
        InTextMoves(s, from, 1, c);
      } else {
        MaskAfter(s, false);
        if x == 0 {
          FirstInText(s, from);
        } else {
          PieceInText(s[n..], from + n, x - 1);
          var c := Pieces(s[n..], from + n)[x - 1];
          ShownLater(s, n, TokenCode(s, false), c.at - from, c.at - from + |c.text|);
          BlankLater(s, n, TokenCode(s, false), c.at - from, c.at - from + |c.text|);
          InTextMoves(s, from, n, c);
        }
      }
    }
  }

  lemma NoPieces(from: nat)
    ensures Pieces("", from) == []
  {
  }

  lemma FirstInText(s: string, from: nat)
    requires s != "" && Token(s) > 0
    ensures InText(s, from, Piece(from, s[..Token(s)]))
  {
    hide Mask, Protected, Token, ShownAt, BlankAt;
    FirstShown(s);
    if IsQuote(s[0]) {
      StringEnd(s);
      StringLength(s);
    }
    assert s[0..Token(s)] == s[..Token(s)];
  }

  lemma FirstShown(s: string)
    requires s != "" && Token(s) > 0
    ensures if IsQuote(s[0]) then ShownAt(s, 0, Token(s)) else BlankAt(s, 0, Token(s))
  {
    hide Mask, Protected, Token;
    MaskAfter(s, false);
  }

  lemma StringLength(s: string)
    requires s != "" && IsQuote(s[0]) && Token(s) > 0
    ensures Token(s) > 1
  {
    ClosedEnd(s[1..], s[0]);
  }

  lemma InTextMoves(s: string, from: nat, k: nat, c: Piece)
    requires 0 < k <= |s| && InText(s[k..], from + k, c)
    requires var o, n := c.at - from, |c.text|;
             && (ShownAt(s[k..], o - k, o + n - k) ==> ShownAt(s, o, o + n))
             && (BlankAt(s[k..], o - k, o + n - k) ==> BlankAt(s, o, o + n))
    ensures InText(s, from, c)
  {
    hide Mask, ShownAt, BlankAt, IsQuote;
    SliceOfSlice(s, k, c.at - from - k, |c.text|);
  }

  lemma SliceOfSlice(s: string, k: nat, o: nat, n: nat)
    requires k + o + n <= |s|
    ensures s[k..][o..o + n] == s[k + o..k + o + n]
  {
  }

  lemma ShownLater(s: string, k: nat, code: string, lo: int, hi: int)
    requires k <= |s| && |code| == k && Mask(s, false) == code + Mask(s[k..], false)
    ensures ShownAt(s[k..], lo - k, hi - k) ==> ShownAt(s, lo, hi)
  {
    hide Mask;
    if ShownAt(s[k..], lo - k, hi - k) {
      forall y | lo <= y < hi ensures Mask(s, false)[y] == s[y] {
        assert Mask(s[k..], false)[y - k] == s[k..][y - k];
      }
    }
  }

  lemma BlankLater(s: string, k: nat, code: string, lo: int, hi: int)
    requires k <= |s| && |code| == k && Mask(s, false) == code + Mask(s[k..], false)
    ensures BlankAt(s[k..], lo - k, hi - k) ==> BlankAt(s, lo, hi)
  {
    hide Mask, BlankChar;
    if BlankAt(s[k..], lo - k, hi - k) {
      forall y | lo <= y < hi ensures BlankChar(Mask(s, false)[y]) {
        assert BlankChar(Mask(s[k..], false)[y - k]);
      }
    }
  }

  // ----- which literal a rewrite falls into

  // Nothing quoted between the start of the line and q.
  ghost predicate Led(m: string, q: int) {
    exists a | 0 <= a <= q <= |m| :: LineStart(m, a) && Unquoted(m, a, q)
  }

  predicate Unquoted(m: string, a: int, q: int) {
    0 <= a <= q <= |m| && forall y :: a <= y < q ==> !IsQuote(m[y])
  }

  /** What each statement pattern guarantees about the line before its target. */
  ghost predicate LedTo(k: Pattern, m: string, p: nat) {
    && p + Offset(k) <= |m|
    && match k
       case Package => Led(m, p + 10)
       case Import => p > 0 && IsQuote(m[p - 1]) && Led(m, p - 1)
       case Nanopb => p > 0 && IsQuote(m[p - 1]) && Led(m, p - 1)
       case Symbol => true
  }

  lemma UnquotedPackage(t: string, a: int, b: int, p: int, e: int)
    requires PackageMatch(t, a, b, p, e)
    ensures Unquoted(t, a, p + 10) && LineStart(t, a)
  {
    forall x | a <= x < p + 10 ensures !IsQuote(t[x]) {
      if b <= x < b + 7 {
        assert t[x] == "package"[x - b];
      } else if p <= x {
        assert t[x] == "meshtastic"[x - p];
      }
    }
  }

  lemma UnquotedLead(t: string, a: int, b: int, c: int, d: int, p: int)
    requires ImportLead(t, a, b, c, d, p)
    ensures Unquoted(t, a, p - 1) && LineStart(t, a) && IsQuote(t[p - 1]) && p <= |t|
  {
    forall x | a <= x < p - 1 ensures !IsQuote(t[x]) {
      if b <= x < b + 6 {
        assert t[x] == "import"[x - b];
      } else if d == c + 6 && c <= x < d && At(t, c, "public") {
        assert t[x] == "public"[x - c];
      } else if d == c + 4 && c <= x < d && At(t, c, "weak") {
        assert t[x] == "weak"[x - c];
      }
    }
  }

  lemma {:induction false} TargetLed(k: Pattern, m: string, p: nat)
    requires Target(k, m, p) && p + Offset(k) <= |m|
    ensures LedTo(k, m, p)
  {
    hide PackageMatch, ImportLead, NanopbTail, DotAt, At, IsRoot, LineStart, Unquoted;
    match k
    case Package =>
      var e, b, a :| 0 <= a <= b <= p <= e < |m| && PackageMatch(m, a, b, p, e);
      UnquotedPackage(m, a, b, p, e);
    case Import =>
      var d, c, b, a :| 0 <= a <= b <= c <= d < p && ImportLead(m, a, b, c, d, p);
      UnquotedLead(m, a, b, c, d, p);
    case Nanopb =>
      var d, c, b, a :| 0 <= a <= b <= c <= d < p && ImportLead(m, a, b, c, d, p);
      UnquotedLead(m, a, b, c, d, p);
    case Symbol =>
  }

  /** The literal an import statement opens in front of one of its targets. */
  predicate Opened(k: Pattern, c: Piece, ps: seq<nat>) {
    (k.Import? || k.Nanopb?) && c.at + 1 in ps
  }

  lemma TargetFacts(k: Pattern, s: string, p: nat)
    requires p in PassSites(k, s)
    ensures Shows(k, View(k, s), p) && LedTo(k, View(k, s), p) && p + Offset(k) <= |s|
        && !Hidden(s, p + Offset(k), false)
  {
    hide Shows, LedTo, View, Target, Hidden;
    SitesExact(k, View(k, s), 0);
    TargetShows(k, View(k, s), p);
    SitesReady(k, s);
    TargetLed(k, View(k, s), p);
    SiteOutsideComments(k, s, p);
  }

  // A literal on one line that holds the point of a rewrite is one an import statement opens.
  lemma LiteralIsPath(k: Pattern, s: string, p: nat, c: Piece)
    requires !k.Symbol? && p in PassSites(k, s) && InText(s, 0, c) && OneLine(c.text)
    requires Holds(c, p + Offset(k))
    ensures !k.Package? && c.at == p - 1
  {
    hide Shows, Mask, Hidden, PassSites;
    TargetFacts(k, s, p);
    var m := Mask(s, false);
    HeldIsLiteral(k, s, p, c);
    var q := if k.Package? then p + 10 else p - 1;
    assert Led(m, q);
    var l :| 0 <= l <= q <= |m| && LineStart(m, l) && Unquoted(m, l, q);
    OpensAfter(s, m, c.at, |c.text|, l);
    assert m[c.at] == s[c.at] == c.text[0];
    ShownTarget(k, m, p);
  }

  lemma OpensAfter(s: string, m: string, x: nat, n: nat, l: nat)
    requires |m| == |s| && x + n <= |s| && n > 0 && IsQuote(s[x]) && OneLine(s[x..x + n])
    requires forall y :: x <= y < x + n ==> m[y] == s[y]
    requires LineStart(m, l) && l < x + n
    ensures x >= l
  {
    var t := s[x..x + n];
    assert t[0] == s[x];
    forall y | x <= y < x + n ensures m[y] != '\n' {
      assert t[y - x] == s[y];
    }
  }

  // The character in front of a rewrite is visible, so what holds the point is no comment.
  lemma HeldIsLiteral(k: Pattern, s: string, p: nat, c: Piece)
    requires !k.Symbol? && Shows(k, View(k, s), p) && InText(s, 0, c) && Holds(c, p + Offset(k))
    ensures IsQuote(c.text[0])
  {
    hide Shows, Mask, Inert, Allowed;
    SiteBounds(k, View(k, s), p);
    SiteIsAllowed(k, s, p);
  }

  lemma ShownTarget(k: Pattern, m: string, p: nat)
    requires Shows(k, m, p)
    ensures p + |TargetText(k)| <= |m| && forall y :: p <= y < p + |TargetText(k)| ==> !IsQuote(m[y])
  {
    forall y | p <= y < p + |TargetText(k)| ensures !IsQuote(m[y]) {
      assert m[y] == TargetText(k)[y - p];
    }
  }

  // And every literal an import statement opens holds it.
  lemma PathIsHeld(k: Pattern, s: string, p: nat, c: Piece)
    requires (k.Import? || k.Nanopb?) && p in PassSites(k, s) && InText(s, 0, c) && c.at + 1 == p
    ensures Holds(c, p + Offset(k))
  {
    hide Shows, Mask, PassSites, Hidden, TargetText;
    TargetFacts(k, s, p);
    var m, n := Mask(s, false), |c.text|;
    ShownTarget(k, m, p);
    TargetLength(k);
    assert IsQuote(m[p - 1]);
    assert IsQuote(c.text[0]);
    assert s[c.at + n - 1] == c.text[n - 1] by { assert s[c.at..c.at + n][n - 1] == s[c.at + n - 1]; }
    LongTarget(k);
  }

  lemma LongTarget(k: Pattern)
    ensures |TargetText(k)| > Offset(k) || k.Package? || k.Symbol?
  {
  }

  // ----- a pass over one-line literals

  // The piece after a pass if only the replacement at `q` falls inside.
  lemma {:induction false} OneHeld(k: Pattern, c: Piece, ps: seq<nat>, q: nat)
    requires Ascending(ps) && q in ps && Holds(c, q + Offset(k))
    requires forall p :: p in ps && Holds(c, p + Offset(k)) ==> p == q
    requires forall p :: p in ps && p < q ==> p + Offset(k) <= c.at
    ensures AfterAll(k, c, ps).text == Insert(c.text, q + Offset(k) - c.at, Added(k))
    decreases |ps|
  {
    hide Added, Insert, Offset, AfterAll, Untouched;
    var last := |ps| - 1;
    var p, rest := ps[last], ps[..last];
    LastFirst(k, c, ps);
    ButLast(ps);
    forall x: nat | x in rest ensures x in ps && x < p {
    }
    if p == q {
      var d := After(c, q + Offset(k), Added(k));
      AllBehind(k, d, rest);
      TextKept(k, d, rest);
    } else {
      assert p in ps && q in rest;
      OneHeld(k, c, rest, q);
    }
  }

  lemma ButLast(ps: seq<nat>)
    requires ps != [] && Ascending(ps)
    ensures Ascending(ps[..|ps| - 1]) && ps[|ps| - 1] in ps
    ensures forall p :: p in ps[..|ps| - 1] <==> p in ps && p < ps[|ps| - 1]
  {
    var last := |ps| - 1;
    forall p | p in ps && p != ps[last] ensures p in ps[..last] && p < ps[last] {
      var x :| 0 <= x < |ps| && ps[x] == p;
      assert ps[..last][x] == p;
    }
    forall p | p in ps[..last] ensures p in ps && p < ps[last] {
      var x :| 0 <= x < last && ps[..last][x] == p;
      assert ps[x] == p;
    }
  }

  lemma AllBehind(k: Pattern, c: Piece, ps: seq<nat>)
    requires forall p :: p in ps ==> p + Offset(k) <= c.at
    ensures Untouched(k, c, ps)
  {
  }

  /** What a pass makes of a literal that ends on its own line. */
  function Relocated(k: Pattern, c: Piece, ps: seq<nat>): string {
    if Opened(k, c, ps) && 1 + Offset(k) <= |c.text| then Insert(c.text, 1 + Offset(k), Added(k)) else c.text
  }

  lemma PieceAfterPass(k: Pattern, s: string, c: Piece)
    requires !k.Symbol? && InText(s, 0, c) && OneLine(c.text)
    ensures AfterAll(k, c, PassSites(k, s)).text == Relocated(k, c, PassSites(k, s))
  {
    hide InText, OneLine, AfterAll, Holds, PassSites, Insert, Added, TargetText, Ready;
    var ps := PassSites(k, s);
    SitesReady(k, s);
    forall p | p in ps && Holds(c, p + Offset(k)) ensures !k.Package? && c.at == p - 1 {
      LiteralIsPath(k, s, p, c);
    }
    if Opened(k, c, ps) {
      var q := c.at + 1;
      PathIsHeld(k, s, q, c);
      PathFits(k, c);
      SitesApart(k, s, q);
      OneHeld(k, c, ps, q);
    } else {
      TextKept(k, c, ps);
    }
  }

  lemma PathFits(k: Pattern, c: Piece)
    requires Holds(c, c.at + 1 + Offset(k))
    ensures 1 + Offset(k) <= |c.text|
  {
  }

  // The targets before one end in front of the quote before it.
  lemma SitesApart(k: Pattern, s: string, q: nat)
    requires (k.Import? || k.Nanopb?) && q in PassSites(k, s)
    ensures forall p :: p in PassSites(k, s) && p < q ==> p + Offset(k) < q
  {
    hide Shows, View, TargetText;
    PassReady(k, s);
    LongTarget(k);
    hide PassSites;
    SitesReady(k, s);
    forall p | p in PassSites(k, s) && p < q ensures p + Offset(k) < q {
      var x :| 0 <= x < |PassSites(k, s)| && PassSites(k, s)[x] == p;
      var y :| 0 <= y < |PassSites(k, s)| && PassSites(k, s)[y] == q;
    }
  }

  lemma OneLineAfter(k: Pattern, t: string, i: nat)
    requires OneLine(t) && 0 < i <= |t|
    ensures OneLine(Insert(t, i, Added(k)))
  {
    var w := Added(k);
    InsertedChars(k, t, i);
    InsertCopies(t, i, w);
    hide Added, Insert;
    var r := Insert(t, i, w);
    LookUp(t, r, 0, i, 0, 0);
    if IsQuote(t[0]) {
      forall y | 0 <= y < |r| ensures r[y] != '\n' {
        if y < i {
          assert t[y] == r[y + 0];
        } else if y >= i + |w| {
          assert t[y - |w|] == r[y - |w| + |w|];
        }
      }
    }
  }


  lemma RelocatedOneLine(k: Pattern, c: Piece, ps: seq<nat>)
    requires OneLine(c.text)
    ensures OneLine(Relocated(k, c, ps))
  {
    hide OneLine, Added, Insert;
    if Opened(k, c, ps) && 1 + Offset(k) <= |c.text| {
      OneLineAfter(k, c.text, 1 + Offset(k));
    }
  }

  /**
   A pass over a source of one-line literals: every comment and literal is kept, but the
   literals opened by its import targets, and those get exactly the added text.
   */
  lemma PassLiterals(k: Pattern, s: string)
    requires SingleLine(Protected(s, true))
    ensures |Protected(PassOver(k, s), true)| == |Protected(s, true)| == |Pieces(s, 0)| == |Pieces(PassOver(k, s), 0)|
    ensures forall x :: 0 <= x < |Pieces(s, 0)| ==>
              Protected(PassOver(k, s), true)[x] == Relocated(k, Pieces(s, 0)[x], PassSites(k, s))
    ensures forall x :: 0 <= x < |Pieces(s, 0)| ==> Protected(s, true)[x] == Pieces(s, 0)[x].text
    ensures SingleLine(Protected(PassOver(k, s), true))
  {
    hide Protected, PassOver, PassSites, Pieces, Relocated, OneLine, Texts, InText, AfterAll;
    var r := PassOver(k, s);
    PassPieces(k, s);
    PiecesAreProtected(s, 0);
    PiecesAreProtected(r, 0);
    assert Protected(s, true) == Texts(Pieces(s, 0)) && Protected(r, true) == Texts(Pieces(r, 0));
    forall x | 0 <= x < |Pieces(s, 0)|
      ensures Protected(r, true)[x] == Relocated(k, Pieces(s, 0)[x], PassSites(k, s)) && OneLine(Protected(r, true)[x])
    {
      var c := Pieces(s, 0)[x];
      assert OneLine(Protected(s, true)[x]);
      RelocatedOneLine(k, c, PassSites(k, s));
      if k.Symbol? {
        SymbolsKeepStrings(s);
        NotOpened(c, PassSites(k, s));
      } else {
        PieceInText(s, 0, x);
        PieceAfterPass(k, s, c);
      }
    }
  }

  lemma NotOpened(c: Piece, ps: seq<nat>)
    ensures Relocated(Symbol, c, ps) == c.text && Relocated(Package, c, ps) == c.text
  {
  }

  // ----- all four passes

  lemma OpenedStart(k: Pattern, s: string, c: Piece)
    requires InText(s, 0, c) && Opened(k, c, PassSites(k, s)) && OneLine(c.text)
    ensures |c.text| > 1 + Offset(k) && c.text[1] == TargetText(k)[0]
  {
    hide Shows, Mask, PassSites, Hidden;
    var p := c.at + 1;
    TargetFacts(k, s, p);
    PathIsHeld(k, s, p, c);
    ShowsSource(k, s, p);
    assert s[p] == TargetText(k)[0];
    assert s[c.at..c.at + |c.text|][1] == s[p];
  }

  lemma ShowsSource(k: Pattern, s: string, p: nat)
    requires Shows(k, View(k, s), p)
    ensures At(s, p, TargetText(k))
  {
    hide At, View, TargetText, Tip, Next;
    ShownInSource(k, s, p);
  }

  /** What the four passes make of a literal: at most one of the two import passes adds its text to it. */
  ghost function Final(before: string, c: Piece, d: Piece, imports: seq<nat>, nanopbs: seq<nat>): string {
    if Opened(Import, c, imports) && |before| >= 11 then Insert(before, 11, "/protobuf")
    else if Opened(Nanopb, d, nanopbs) && |before| >= 1 then Insert(before, 1, "meshtastic/protobuf/")
    else before
  }

  /**
   If every literal ends on its own line, the rewritten source has the same comments and
   literals, one for one: each is unchanged byte for byte, unless it is the literal opened
   by a relocated import, and then the relocation text is put in and nothing else.
   */
  lemma StringsKept(s: string)
    requires SingleLine(Protected(s, true))
    ensures var a := PassOver(Package, s);
            var b := PassOver(Import, a);
            && |Protected(RewriteAll(s), true)| == |Protected(s, true)| == |Pieces(a, 0)| == |Pieces(b, 0)|
            && forall x :: 0 <= x < |Protected(s, true)| ==>
                 Protected(RewriteAll(s), true)[x]
                 == Final(Protected(s, true)[x], Pieces(a, 0)[x], Pieces(b, 0)[x], PassSites(Import, a),
                     PassSites(Nanopb, b))
  {
    hide PassOver, Protected, PassSites, Pieces, SingleLine, Relocated, Final;
    var a := PassOver(Package, s);
    var b := PassOver(Import, a);
    var c := PassOver(Nanopb, b);
    PassLiterals(Package, s);
    PassLiterals(Import, a);
    PassLiterals(Nanopb, b);
    PassLiterals(Symbol, c);
    forall x | 0 <= x < |Protected(s, true)|
      ensures Protected(RewriteAll(s), true)[x]
           == Final(Protected(s, true)[x], Pieces(a, 0)[x], Pieces(b, 0)[x], PassSites(Import, a), PassSites(Nanopb, b))
    {
      NotOpened(Pieces(s, 0)[x], PassSites(Package, s));
      NotOpened(Pieces(c, 0)[x], PassSites(Symbol, c));
      PieceInText(a, 0, x);
      PieceInText(b, 0, x);
      OneLineAt(Protected(a, true), x);
      OneLineAt(Protected(b, true), x);
      TwoRelocations(a, b, Pieces(a, 0)[x], Pieces(b, 0)[x]);
    }
  }

  lemma OneLineAt(ts: seq<string>, x: nat)
    requires SingleLine(ts) && x < |ts|
    ensures OneLine(ts[x])
  {
  }

  // The two import passes never touch the same literal.
  lemma TwoRelocations(a: string, b: string, c: Piece, d: Piece)
    requires InText(a, 0, c) && OneLine(c.text) && InText(b, 0, d) && OneLine(d.text)
    requires d.text == Relocated(Import, c, PassSites(Import, a))
    ensures Relocated(Nanopb, d, PassSites(Nanopb, b))
        == Final(c.text, c, d, PassSites(Import, a), PassSites(Nanopb, b))
  {
    hide InText, OneLine, PassSites;
    if Opened(Import, c, PassSites(Import, a)) {
      OpenedStart(Import, a, c);
      assert d.text[1] == 'm';
    }
    if Opened(Nanopb, d, PassSites(Nanopb, b)) {
      OpenedStart(Nanopb, b, d);
    }
  }
}
