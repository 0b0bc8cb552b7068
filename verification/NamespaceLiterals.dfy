/**
 What the rewriter does to comments and string literals, one by one and wherever they
 stand: a pass changes a literal exactly if one of its targets lies inside.
 */
module NamespaceLiterals {
  import opened NamespaceIdempotence
  import opened NamespacePasses
  import opened NamespacePatterns
  import opened NamespaceRewrite
  import opened NamespaceShift
  import opened ProtoInsert
  import opened ProtoMask

  // ----- comments and literals with their places

  datatype Piece = Piece(at: nat, text: string)

  /** Every comment and literal of `s`, in order; `from` is where `s` itself starts. */
  function Pieces(s: string, from: nat): seq<Piece>
    decreases |s|
  {
    if s == "" then []
    else
      var n := Token(s);
      if n == 0 then Pieces(s[1..], from + 1) else [Piece(from, s[..n])] + Pieces(s[n..], from + n)
  }

  function Texts(pieces: seq<Piece>): (r: seq<string>)
    ensures |r| == |pieces| && forall x :: 0 <= x < |r| ==> r[x] == pieces[x].text
  {
    seq(|pieces|, x requires 0 <= x < |pieces| => pieces[x].text)
  }

  lemma {:induction false} PiecesAreProtected(s: string, from: nat)
    ensures Texts(Pieces(s, from)) == Protected(s, true)
    decreases |s|
  {
    hide Token, Pieces, Protected, Texts;
    if s == "" {
      NothingHere(from);
    } else {
      var n := Token(s);
      PiecesHead(s, from);
      ProtectedHead(s);
      if n == 0 {
        PiecesAreProtected(s[1..], from + 1);
      } else {
        PiecesAreProtected(s[n..], from + n);
        TextsCons(Piece(from, s[..n]), Pieces(s[n..], from + n));
      }
    }
  }

  lemma NothingHere(from: nat)
    ensures Pieces("", from) == [] && Protected("", true) == [] && Texts([]) == []
  {
  }

  lemma ProtectedHead(s: string)
    requires s != ""
    ensures Token(s) == 0 ==> Protected(s, true) == Protected(s[1..], true)
    ensures Token(s) > 0 ==> Protected(s, true) == [s[..Token(s)]] + Protected(s[Token(s)..], true)
  {
    hide Token;
  }

  lemma TextsCons(c: Piece, rest: seq<Piece>)
    ensures Texts([c] + rest) == [c.text] + Texts(rest)
  {
  }

  lemma PiecesHead(s: string, from: nat)
    requires s != ""
    ensures Token(s) == 0 ==> Pieces(s, from) == Pieces(s[1..], from + 1)
    ensures Token(s) > 0 ==> Pieces(s, from) == [Piece(from, s[..Token(s)])] + Pieces(s[Token(s)..], from + Token(s))
  {
    hide Token;
  }

  // ----- one insertion

  /** Strictly inside: after the first character, before the last. */
  predicate Holds(c: Piece, i: nat) {
    c.at < i < c.at + |c.text|
  }

  function After(c: Piece, i: nat, w: string): Piece {
    if i <= c.at then Piece(c.at + |w|, c.text)
    else if i < c.at + |c.text| then Piece(c.at, Insert(c.text, i - c.at, w))
    else c
  }

  function AfterEach(pieces: seq<Piece>, i: nat, w: string): (r: seq<Piece>)
    ensures |r| == |pieces| && forall x :: 0 <= x < |r| ==> r[x] == After(pieces[x], i, w)
  {
    seq(|pieces|, x requires 0 <= x < |pieces| => After(pieces[x], i, w))
  }

  lemma {:induction false} PiecesFrom(s: string, from: nat)
    ensures forall x :: 0 <= x < |Pieces(s, from)| ==> from <= Pieces(s, from)[x].at
    decreases |s|
  {
    hide Token;
    if s != "" {
      PiecesHead(s, from);
      hide Pieces;
      if Token(s) == 0 {
        PiecesFrom(s[1..], from + 1);
      } else {
        PiecesFrom(s[Token(s)..], from + Token(s));
      }
    }
  }

  lemma AfterEachCons(c: Piece, rest: seq<Piece>, i: nat, w: string)
    ensures AfterEach([c] + rest, i, w) == [After(c, i, w)] + AfterEach(rest, i, w)
  {
    hide After;
  }

  lemma NothingMoves(i: nat, w: string)
    ensures AfterEach([], i, w) == []
  {
  }

  // Behind the insertion everything is moved by its length.
  lemma {:induction false} PiecesMoved(s: string, from: nat, i: nat, w: string)
    requires i <= from
    ensures Pieces(s, from + |w|) == AfterEach(Pieces(s, from), i, w)
    decreases |s|
  {
    hide Token, After, AfterEach, Pieces;
    if s == "" {
      NothingHere(from);
      NothingHere(from + |w|);
      NothingMoves(i, w);
    } else {
      var n := Token(s);
      PiecesHead(s, from);
      PiecesHead(s, from + |w|);
      if n == 0 {
        PiecesMoved(s[1..], from + 1, i, w);
      } else {
        PiecesMoved(s[n..], from + n, i, w);
        AfterEachCons(Piece(from, s[..n]), Pieces(s[n..], from + n), i, w);
        MovedPiece(from, s[..n], i, w);
      }
    }
  }

  lemma MovedPiece(at: nat, text: string, i: nat, w: string)
    requires i <= at
    ensures After(Piece(at, text), i, w) == Piece(at + |w|, text)
  {
  }

  // An insertion of harmless text in front of everything.
  lemma {:induction false} PiecesBehind(s: string, from: nat, w: string)
    requires FitsBefore(w, s)
    requires forall k :: 0 <= k < |w| ==> !IsQuote(w[k]) && w[k] != '*'
    requires forall k :: 0 <= k < |w| - 1 ==> w[k] != '/' || w[k + 1] != '/'
    ensures Pieces(w + s, from) == Pieces(s, from + |w|)
    decreases |w|
  {
    hide Pieces, Token, IsQuote;
    if w == "" {
      assert w + s == s;
    } else {
      var t := w + s;
      assert t[0] == w[0] && t[1..] == w[1..] + s;
      assert |w| > 1 ==> t[1] == w[1];
      assert |w| == 1 && s != "" ==> t[1] == s[0];
      NoToken(t);
      PlainFirst(t);
      PiecesHead(t, from);
      PiecesBehind(s, from + 1, w[1..]);
    }
  }

  lemma PlainFirst(t: string)
    requires t != "" && !IsQuote(t[0]) && !Opens(t, '/', '/') && !Opens(t, '/', '*')
    ensures Token(t) == 0
  {
    hide LineEnd, HasClose, CloseSpan, Closed, Span;
  }

  lemma InertBehind(s: string, from: nat, w: string)
    requires Inert(w) && FitsBefore(w, s)
    ensures Pieces(w + s, from) == AfterEach(Pieces(s, from), from, w)
  {
    hide Pieces;
    PiecesBehind(s, from, w);
    PiecesMoved(s, from, from, w);
  }

  /**
   Harmless text put outside comments: the piece it falls into grows, those behind it
   move, and nothing else changes.
   */
  lemma {:induction false} PiecesInsert(s: string, i: nat, w: string, from: nat)
    requires Inert(w) && Allowed(s, i, w) && !Hidden(s, i, false)
    ensures Pieces(Insert(s, i, w), from) == AfterEach(Pieces(s, from), from + i, w)
    decreases |s|, 0
  {
    hide Token, Pieces, Hidden, Inert, Before, Insert, FitsBefore;
    var t, n := Insert(s, i, w), Token(s);
    PiecesHead(s, from);
    PiecesHead(t, from);
    if n == 0 {
      PlainHead(s, i, w);
      HiddenAfter(s, i, false);
      InsertLater(s, i, w, 1);
      PiecesFurther(s, 1, i, w, from);
    } else if Before(s, i) {
      TokenBefore(s, i, w);
      BeforeBound(s, i);
      HiddenAfter(s, i, false);
      InsertLater(s, i, w, n);
      PiecesFurther(s, n, i, w, from);
    } else {
      TokenAround(s, i, w);
      AroundBound(s, i);
      AroundSplit(s, i, w, n);
      PiecesMoved(s[n..], from + n, from + i, w);
    }
  }

  lemma BeforeBound(s: string, i: nat)
    requires Before(s, i)
    ensures 0 < Token(s) <= i
  {
    hide Token;
  }

  // Outside comments, a point around the end of a token is inside a literal.
  lemma AroundBound(s: string, i: nat)
    requires 0 < i <= |s| && Token(s) > 0 && !Before(s, i) && !Hidden(s, i, false)
    ensures 0 < i < Token(s) && IsQuote(s[0])
  {
    HiddenAround(s, i, false);
    hide Token, Hidden;
  }

  lemma AroundSplit(s: string, i: nat, w: string, n: nat)
    requires 0 < i < n <= |s|
    ensures Insert(s, i, w)[..n + |w|] == Insert(s[..n], i, w) && Insert(s, i, w)[n + |w|..] == s[n..]
  {
  }

  lemma {:induction false} PiecesFurther(s: string, n: nat, i: nat, w: string, from: nat)
    requires Inert(w) && Allowed(s, i, w) && 0 < n <= i && !Hidden(s[n..], i - n, false)
    ensures Pieces(Insert(s[n..], i - n, w), from + n) == AfterEach(Pieces(s[n..], from + n), from + i, w)
    decreases |s| - n, 1
  {
    hide Token, Pieces, Hidden, Inert, FitsBefore;
    assert s[n..][i - n..] == s[i..];
    if i == n {
      InertBehind(s[n..], from + n, w);
      InsertFirst(s[n..], w);
    } else {
      PiecesInsert(s[n..], i - n, w, from + n);
    }
  }

  // ----- a whole pass

  /** A piece after all replacements of a pass, the last one first. */
  function AfterAll(k: Pattern, c: Piece, ps: seq<nat>): Piece
    decreases |ps|
  {
    if ps == [] then c
    else
      var last := |ps| - 1;
      AfterAll(k, After(c, ps[last] + Offset(k), Added(k)), ps[..last])
  }

  function Changed(k: Pattern, pieces: seq<Piece>, ps: seq<nat>): (r: seq<Piece>)
    ensures |r| == |pieces| && forall x :: 0 <= x < |r| ==> r[x] == AfterAll(k, pieces[x], ps)
  {
    seq(|pieces|, x requires 0 <= x < |pieces| => AfterAll(k, pieces[x], ps))
  }

  lemma SiteOutsideComments(k: Pattern, s: string, p: nat)
    requires Shows(k, View(k, s), p)
    ensures p + Offset(k) <= |s| && !Hidden(s, p + Offset(k), false)
  {
    hide Shows, Mask, Hidden, Inert, Allowed;
    SiteBounds(k, View(k, s), p);
    SiteIsAllowed(k, s, p);
    assert !Hidden(s, p + Offset(k), k.Symbol?) by {
      if Hidden(s, p + Offset(k), k.Symbol?) {
        HiddenIsBlank(s, p + Offset(k), k.Symbol?);
      }
    }
    ShownFalse(s, p + Offset(k), k.Symbol?);
  }

  lemma {:induction false} FromRightPieces(k: Pattern, s: string, ps: seq<nat>)
    requires Ready(k, View(k, s), ps)
    ensures Spaced(k, s, 0, ps) && Pieces(FromRight(k, s, ps), 0) == Changed(k, Pieces(s, 0), ps)
    decreases |ps|
  {
    hide Shows, Mask, Insert, Added, View, TargetText, Spaced, Pieces, Hidden, After, Inert, Allowed;
    ReadySpaced(k, s, ps);
    if ps != [] {
      var last := |ps| - 1;
      var i, w := ps[last] + Offset(k), Added(k);
      SiteOutsideComments(k, s, ps[last]);
      SiteIsAllowed(k, s, ps[last]);
      PiecesInsert(s, i, w, 0);
      ReadyLast(k, s, ps);
      FromRightPieces(k, Insert(s, i, w), ps[..last]);
    }
  }

  /** What a pass does to every comment and literal, on every source. */
  lemma PassPieces(k: Pattern, s: string)
    ensures Pieces(PassOver(k, s), 0) == Changed(k, Pieces(s, 0), PassSites(k, s))
  {
    hide Mask, Target, Sites, Ready, Spaced, FromRight, Replaced, Pieces;
    PassReady(k, s);
    FromRightPieces(k, s, PassSites(k, s));
    RightToLeft(k, s, PassSites(k, s));
  }

  ghost predicate Ascending(ps: seq<nat>) {
    forall x, y :: 0 <= x < y < |ps| ==> ps[x] < ps[y]
  }

  ghost predicate Untouched(k: Pattern, c: Piece, ps: seq<nat>) {
    forall p :: p in ps ==> !Holds(c, p + Offset(k))
  }

  /** The text of a piece stays exactly if no replacement falls inside, and never shrinks. */
  lemma {:induction false} TextKept(k: Pattern, c: Piece, ps: seq<nat>)
    requires Ascending(ps)
    ensures AfterAll(k, c, ps).text == c.text <==> Untouched(k, c, ps)
    ensures |AfterAll(k, c, ps).text| >= |c.text|
    ensures |AfterAll(k, c, ps).text| == |c.text| ==> AfterAll(k, c, ps).text == c.text
    decreases |ps|
  {
    if ps != [] {
      hide Added, Insert, Offset, AfterAll, After, Holds, Untouched;
      var last := |ps| - 1;
      var d := After(c, ps[last] + Offset(k), Added(k));
      TextKept(k, d, ps[..last]);
      LastFirst(k, c, ps);
      AddedLength(k);
      AfterGrows(c, ps[last] + Offset(k), Added(k));
      UntouchedLast(k, c, ps, d);
    }
  }

  // The last replacement on its own.
  lemma LastFirst(k: Pattern, c: Piece, ps: seq<nat>)
    requires ps != []
    ensures AfterAll(k, c, ps) == AfterAll(k, After(c, ps[|ps| - 1] + Offset(k), Added(k)), ps[..|ps| - 1])
  {
    hide Added, Offset, After;
  }

  lemma AfterGrows(c: Piece, i: nat, w: string)
    requires w != ""
    ensures if Holds(c, i) then |After(c, i, w).text| > |c.text| else After(c, i, w).text == c.text
  {
    hide Insert;
  }

  lemma UntouchedLast(k: Pattern, c: Piece, ps: seq<nat>, d: Piece)
    requires ps != [] && Ascending(ps) && d == After(c, ps[|ps| - 1] + Offset(k), Added(k))
    ensures Holds(c, ps[|ps| - 1] + Offset(k)) ==> !Untouched(k, c, ps)
    ensures !Holds(c, ps[|ps| - 1] + Offset(k)) ==> (Untouched(k, c, ps) <==> Untouched(k, d, ps[..|ps| - 1]))
  {
    hide Added, Insert, Offset;
    var last := |ps| - 1;
    assert ps[last] in ps;
    forall q: nat | q in ps && q != ps[last] ensures q in ps[..last] {
      var x :| 0 <= x < |ps| && ps[x] == q;
      assert ps[..last][x] == q;
    }
    forall q: nat | q in ps[..last] ensures q in ps && q < ps[last] {
      var x :| 0 <= x < last && ps[..last][x] == q;
      assert ps[x] == q;
    }
  }

  /** The point lies inside some comment or literal. */
  ghost predicate HeldBySome(pieces: seq<Piece>, i: nat) {
    exists x :: 0 <= x < |pieces| && Holds(pieces[x], i)
  }

  /** Outside comments, a hidden point is one inside a literal. */
  lemma {:induction false} HiddenInside(s: string, i: nat, from: nat)
    requires i <= |s| && !Hidden(s, i, false)
    ensures Hidden(s, i, true) <==> HeldBySome(Pieces(s, from), from + i)
    decreases |s|
  {
    hide Token, Hidden, Before, Pieces, HeldBySome;
    if i == 0 {
      NoneHoldsStart(s, from);
      HiddenNotAtStart(s);
    } else {
      var n := Token(s);
      PiecesHead(s, from);
      if n == 0 {
        HiddenAfter(s, i, false);
        HiddenAfter(s, i, true);
        HiddenInside(s[1..], i - 1, from + 1);
      } else if Before(s, i) {
        BeforeBound(s, i);
        HiddenAfter(s, i, false);
        HiddenAfter(s, i, true);
        HiddenInside(s[n..], i - n, from + n);
        PrependHolds(Piece(from, s[..n]), Pieces(s[n..], from + n), from + i);
      } else {
        AroundBound(s, i);
        HiddenAround(s, i, true);
        PrependHolds(Piece(from, s[..n]), Pieces(s[n..], from + n), from + i);
      }
    }
  }

  lemma NoneHoldsStart(s: string, from: nat)
    ensures !HeldBySome(Pieces(s, from), from)
  {
    hide Pieces;
    PiecesFrom(s, from);
  }

  lemma HiddenNotAtStart(s: string)
    ensures forall b :: !Hidden(s, 0, b)
  {
  }

  lemma PrependHolds(c: Piece, rest: seq<Piece>, i: nat)
    ensures HeldBySome([c] + rest, i) <==> Holds(c, i) || HeldBySome(rest, i)
  {
    hide Holds;
    var all := [c] + rest;
    assert all[0] == c;
    if x :| 0 <= x < |rest| && Holds(rest[x], i) {
      assert all[x + 1] == rest[x];
    }
    if x :| 0 < x < |all| && Holds(all[x], i) {
      assert all[x] == rest[x - 1];
    }
  }

  lemma SitesReady(k: Pattern, s: string)
    ensures Ascending(PassSites(k, s))
    ensures forall p :: p in PassSites(k, s) ==> Shows(k, View(k, s), p)
  {
    hide Shows, View, Target;
    PassReady(k, s);
    SitesExact(k, View(k, s), 0);
  }

  lemma SitesHeld(k: Pattern, s: string)
    ensures forall p :: p in PassSites(k, s) ==>
              && p + Offset(k) <= |s|
              && (Hidden(s, p + Offset(k), true) <==> HeldBySome(Pieces(s, 0), p + Offset(k)))
  {
    hide Shows, View, PassSites, Pieces, Hidden, HeldBySome, Offset, Ascending;
    SitesReady(k, s);
    forall p | p in PassSites(k, s)
      ensures p + Offset(k) <= |s|
      ensures Hidden(s, p + Offset(k), true) <==> HeldBySome(Pieces(s, 0), p + Offset(k))
    {
      SiteOutsideComments(k, s, p);
      HiddenInside(s, p + Offset(k), 0);
    }
  }

  lemma LiteralsKept(k: Pattern, s: string)
    ensures Protected(PassOver(k, s), true) == Protected(s, true)
       <==> forall p :: p in PassSites(k, s) ==> !HeldBySome(Pieces(s, 0), p + Offset(k))
  {
    hide Shows, View, PassSites, Pieces, Protected, PassOver, HeldBySome, Changed, Offset, Texts, TextsAlike, Ascending;
    var ps, pieces := PassSites(k, s), Pieces(s, 0);
    SitesReady(k, s);
    PassPieces(k, s);
    PiecesAreProtected(s, 0);
    PiecesAreProtected(PassOver(k, s), 0);
    SameTexts(pieces, Changed(k, pieces, ps));
    NoneHeld(k, pieces, ps);
  }

  /** A pass keeps all comments and literals exactly if none of its targets lies in a literal. */
  lemma LiteralsKeptExactly(k: Pattern, s: string)
    ensures forall p :: p in PassSites(k, s) ==> p + Offset(k) <= |s|
    ensures Protected(PassOver(k, s), true) == Protected(s, true)
       <==> forall p :: p in PassSites(k, s) ==> !Hidden(s, p + Offset(k), true)
  {
    hide PassSites, Pieces, Hidden, Protected, PassOver, HeldBySome, Offset;
    SitesHeld(k, s);
    LiteralsKept(k, s);
  }

  ghost predicate TextsAlike(a: seq<Piece>, b: seq<Piece>) {
    |a| == |b| && forall x :: 0 <= x < |a| ==> a[x].text == b[x].text
  }

  // All texts stay exactly if nothing falls into any of them.
  lemma NoneHeld(k: Pattern, pieces: seq<Piece>, ps: seq<nat>)
    requires Ascending(ps)
    ensures TextsAlike(pieces, Changed(k, pieces, ps)) <==> forall p :: p in ps ==> !HeldBySome(pieces, p + Offset(k))
  {
    hide Holds, AfterAll, Offset;
    forall x | 0 <= x < |pieces| ensures AfterAll(k, pieces[x], ps).text == pieces[x].text
        <==> Untouched(k, pieces[x], ps) {
      TextKept(k, pieces[x], ps);
    }
    if forall p :: p in ps ==> !HeldBySome(pieces, p + Offset(k)) {
      forall x, p | 0 <= x < |pieces| && p in ps ensures !Holds(pieces[x], p + Offset(k)) {
        assert !HeldBySome(pieces, p + Offset(k));
      }
    }
  }

  lemma SameTexts(a: seq<Piece>, b: seq<Piece>)
    ensures Texts(a) == Texts(b) <==> TextsAlike(a, b)
  {
    assert Texts(a) == Texts(b) ==> |a| == |b| && forall x :: 0 <= x < |a| ==> Texts(a)[x] == Texts(b)[x];
  }
}
