/**
 Literals that span lines: exactly when a pass leaves them alone, and one it does not.
 */
module NamespaceMultiLine {
  import opened NamespaceIdempotence
  import opened NamespaceLiterals
  import opened NamespacePasses
  import opened NamespacePatterns
  import opened NamespaceRewrite
  import opened NamespaceShift
  import opened NamespaceStrings
  import opened ProtoInsert
  import opened ProtoMask

  // ----- exactly when the literals other than import paths are kept

  lemma {:induction false} PiecesApart(s: string, from: nat, x: nat, y: nat)
    requires x < y < |Pieces(s, from)|
    ensures Pieces(s, from)[x].at + |Pieces(s, from)[x].text| <= Pieces(s, from)[y].at
    decreases |s|
  {
    hide Token, Pieces;
    if s == "" {
      NoPieces(from);
    } else {
      var n := Token(s);
      PiecesHead(s, from);
      if n == 0 {
        PiecesApart(s[1..], from + 1, x, y);
      } else if x == 0 {
        PiecesFrom(s[n..], from + n);
      } else {
        PiecesApart(s[n..], from + n, x - 1, y - 1);
      }
    }
  }

  lemma HeldByOne(s: string, x: nat, y: nat, i: nat)
    requires x < |Pieces(s, 0)| && y < |Pieces(s, 0)| && Holds(Pieces(s, 0)[x], i) && Holds(Pieces(s, 0)[y], i)
    ensures x == y
  {
    hide Pieces;
    if x < y {
      PiecesApart(s, 0, x, y);
    } else if y < x {
      PiecesApart(s, 0, y, x);
    }
  }

  /** The point lies in a literal that is opened by a target of the pass. */
  ghost predicate InOpened(k: Pattern, pieces: seq<Piece>, ps: seq<nat>, i: nat) {
    exists x :: 0 <= x < |pieces| && Holds(pieces[x], i) && Opened(k, pieces[x], ps)
  }

  ghost predicate OthersKept(k: Pattern, before: seq<Piece>, after: seq<Piece>, ps: seq<nat>) {
    && |after| == |before|
    && forall x :: 0 <= x < |before| && !Opened(k, before[x], ps) ==> after[x].text == before[x].text
  }

  /**
   A pass keeps all comments and literals but those its import targets open exactly if
   every target that lies in a literal lies in one of those.
   */
  lemma OthersKeptExactly(k: Pattern, s: string)
    ensures forall p :: p in PassSites(k, s) ==> p + Offset(k) <= |s|
    ensures OthersKept(k, Pieces(s, 0), Pieces(PassOver(k, s), 0), PassSites(k, s))
       <==> forall p :: p in PassSites(k, s) && Hidden(s, p + Offset(k), true)
              ==> InOpened(k, Pieces(s, 0), PassSites(k, s), p + Offset(k))
  {
    hide Shows, View, PassSites, Pieces, Hidden, PassOver, Holds, AfterAll, Offset, Opened;
    var ps, pieces := PassSites(k, s), Pieces(s, 0);
    SitesReady(k, s);
    PassPieces(k, s);
    forall p | p in ps
      ensures p + Offset(k) <= |s|
      ensures Hidden(s, p + Offset(k), true) <==> HeldBySome(pieces, p + Offset(k))
    {
      SiteOutsideComments(k, s, p);
      HiddenInside(s, p + Offset(k), 0);
    }
    forall x | 0 <= x < |pieces| ensures AfterAll(k, pieces[x], ps).text == pieces[x].text
        <==> Untouched(k, pieces[x], ps) {
      TextKept(k, pieces[x], ps);
    }
    KeptWhenOpened(k, s, pieces, ps);
  }

  lemma KeptWhenOpened(k: Pattern, s: string, pieces: seq<Piece>, ps: seq<nat>)
    requires pieces == Pieces(s, 0)
    requires forall x :: 0 <= x < |pieces| ==>
        (AfterAll(k, pieces[x], ps).text == pieces[x].text <==> Untouched(k, pieces[x], ps))
    ensures OthersKept(k, pieces, Changed(k, pieces, ps), ps)
       <==> forall p :: p in ps && HeldBySome(pieces, p + Offset(k)) ==> InOpened(k, pieces, ps, p + Offset(k))
  {
    hide Pieces, Holds, AfterAll, Offset, Opened;
    if OthersKept(k, pieces, Changed(k, pieces, ps), ps) {
      forall p | p in ps && HeldBySome(pieces, p + Offset(k)) ensures InOpened(k, pieces, ps, p + Offset(k)) {
        var x :| 0 <= x < |pieces| && Holds(pieces[x], p + Offset(k));
        assert !Untouched(k, pieces[x], ps);
      }
    }
    if forall p :: p in ps && HeldBySome(pieces, p + Offset(k)) ==> InOpened(k, pieces, ps, p + Offset(k)) {
      forall x | 0 <= x < |pieces| && !Opened(k, pieces[x], ps) ensures Untouched(k, pieces[x], ps) {
        forall p | p in ps ensures !Holds(pieces[x], p + Offset(k)) {
          if Holds(pieces[x], p + Offset(k)) {
            assert HeldBySome(pieces, p + Offset(k));
            var y :| 0 <= y < |pieces| && Holds(pieces[y], p + Offset(k)) && Opened(k, pieces[y], ps);
            HeldByOne(s, x, y, p + Offset(k));
          }
        }
      }
    }
  }

  // ----- a literal that is rewritten

  const MULTI_LINE := "\"\npackage meshtastic;\""
  const REWRITTEN := "\"\npackage meshtastic.protobuf;\""

  // The text between two quotes is one literal.
  lemma OneLiteral(s: string, body: string)
    requires s == "\"" + body + "\"" && forall k :: 0 <= k < |body| ==> !IsQuote(body[k]) && body[k] != '\\'
    ensures Token(s) == |s| > 0 && IsQuote(s[0])
  {
    hide LineEnd, HasClose, CloseSpan;
    var close := "\"";
    assert s[1..] == body + close;
    SkipPlain(close, body, '"');
    ClosedStep(close, '"');
    hide Closed, Span;
    assert s[0] == '"';
  }

  lemma WholeLiteral(s: string)
    requires s != "" && Token(s) == |s| && IsQuote(s[0])
    ensures Mask(s, false) == s && Mask(s, true) == Blank(s) && Protected(s, true) == [s]
  {
    hide Token;
    MaskAfter(s, false);
    MaskAfter(s, true);
    assert s[|s|..] == "" && s[..|s|] == s;
  }

  // Where the two texts have the letters a target needs.
  lemma MultiLineChars()
    ensures |MULTI_LINE| == 22 && |REWRITTEN| == 31 && MULTI_LINE[20] == ';' && REWRITTEN[20] == '.'
    ensures MULTI_LINE[1] == '\n' && MULTI_LINE[9] == ' '
    ensures At(MULTI_LINE, 2, "package") && At(MULTI_LINE, 10, "meshtastic")
    ensures forall x :: 0 <= x < 22 && MULTI_LINE[x] == 'm' ==> x == 10
    ensures forall x :: 0 <= x < 31 ==> REWRITTEN[x] != 'n' && (REWRITTEN[x] == 'm' ==> x == 10)
    ensures REWRITTEN == MULTI_LINE[0..10] + "meshtastic.protobuf" + MULTI_LINE[20..]
  {
    LettersBefore();
    LettersAfter();
    assert MULTI_LINE[0..10] == "\"\npackage " && MULTI_LINE[20..] == ";\"";
  }

  lemma LettersAfter()
    ensures |REWRITTEN| == 31 && REWRITTEN[20] == '.'
    ensures forall x :: 0 <= x < 31 ==> REWRITTEN[x] != 'n' && (REWRITTEN[x] == 'm' ==> x == 10)
  {
  }

  lemma LettersBefore()
    ensures |MULTI_LINE| == 22 && MULTI_LINE[20] == ';' && MULTI_LINE[1] == '\n' && MULTI_LINE[9] == ' '
    ensures At(MULTI_LINE, 2, "package") && At(MULTI_LINE, 10, "meshtastic")
    ensures forall x :: 0 <= x < 22 && MULTI_LINE[x] == 'm' ==> x == 10
  {
    var s := MULTI_LINE;
    assert s[2..9] == "package" && s[10..20] == "meshtastic";
    forall x | 2 <= x < 9 ensures s[x] == "package"[x - 2] {
      assert s[2..9][x - 2] == s[x];
    }
    forall x | 10 <= x < 20 ensures s[x] == "meshtastic"[x - 10] {
      assert s[10..20][x - 10] == s[x];
    }
  }

  lemma BothLiterals()
    ensures Mask(MULTI_LINE, false) == MULTI_LINE && Protected(MULTI_LINE, true) == [MULTI_LINE]
    ensures Mask(REWRITTEN, false) == REWRITTEN && Mask(REWRITTEN, true) == Blank(REWRITTEN)
    ensures Protected(REWRITTEN, true) == [REWRITTEN]
  {
    hide Mask, Protected, Token;
    FirstLiteral();
    SecondLiteral();
    WholeLiteral(MULTI_LINE);
    WholeLiteral(REWRITTEN);
  }

  lemma FirstLiteral()
    ensures Token(MULTI_LINE) == |MULTI_LINE| > 0 && IsQuote(MULTI_LINE[0])
  {
    hide Token;
    var body := "\npackage meshtastic;";
    assert MULTI_LINE == "\"" + body + "\"";
    OneLiteral(MULTI_LINE, body);
  }

  lemma SecondLiteral()
    ensures Token(REWRITTEN) == |REWRITTEN| > 0 && IsQuote(REWRITTEN[0])
  {
    hide Token;
    var body := "\npackage meshtastic.protobuf;";
    assert REWRITTEN == "\"" + body + "\"";
    OneLiteral(REWRITTEN, body);
  }

  lemma StartsWithTarget(k: Pattern, m: string, p: nat)
    requires Target(k, m, p)
    ensures p + |TargetText(k)| <= |m| && m[p] == TargetText(k)[0]
    ensures k.Import? ==> m[p + 10] == '/'
    ensures k.Package? ==> p + 10 < |m|
  {
    hide Target, Tip, Next;
    TargetShows(k, m, p);
    TargetLength(k);
    assert m[p] == TargetText(k)[0];
    assert k.Import? ==> m[p + 10] == TargetText(Import)[10];
    NextInside(k, m, p);
  }

  lemma NextInside(k: Pattern, m: string, p: nat)
    requires Next(k, m, p + Offset(k))
    ensures p + Offset(k) < |m|
  {
  }

  lemma {:induction false} AscendingSpan(ps: seq<nat>, x: nat)
    requires Ascending(ps) && x < |ps|
    ensures ps[x] >= ps[0] + x
  {
    if x > 0 {
      AscendingSpan(ps, x - 1);
    }
  }

  lemma OnlySite(ps: seq<nat>, p: nat)
    requires Ascending(ps) && forall q :: q in ps <==> q == p
    ensures ps == [p]
  {
    assert p in ps;
    assert ps[0] in ps && ps[|ps| - 1] in ps;
    AscendingSpan(ps, |ps| - 1);
  }

  lemma MultiLineSites()
    ensures PassSites(Package, MULTI_LINE) == [10]
  {
    hide Mask, At, Sites;
    var s := MULTI_LINE;
    BothLiterals();
    MultiLineChars();
    assert PackageMatch(s, 2, 2, 10, 20);
    assert Target(Package, View(Package, s), 10);
    hide Target;
    SitesExact(Package, View(Package, s), 0);
    forall p | p in PassSites(Package, s) ensures p == 10 {
      StartsWithTarget(Package, s, p);
    }
    OnlySite(PassSites(Package, s), 10);
  }

  lemma NothingLeft(k: Pattern)
    requires !k.Package?
    ensures PassOver(k, REWRITTEN) == REWRITTEN
  {
    hide Mask, Target, PassOver;
    BothLiterals();
    MultiLineChars();
    var m := View(k, REWRITTEN);
    forall p: nat ensures !Target(k, m, p) {
      if Target(k, m, p) {
        StartsWithTarget(k, m, p);
      }
    }
    SettledIsFixed(k, REWRITTEN);
  }

  /**
   The script's own promise fails here: this source is one string literal, and rewriting
   changes it, because a line of the literal reads like a package statement.
   */
  lemma MultiLineLiteralIsRewritten()
    ensures RewriteAll(MULTI_LINE) == REWRITTEN
    ensures Protected(MULTI_LINE, true) == [MULTI_LINE] && Protected(REWRITTEN, true) == [REWRITTEN]
    ensures MULTI_LINE != REWRITTEN && !SingleLine(Protected(MULTI_LINE, true))
  {
    hide Mask, Protected, PassSites, At, Target;
    var s := MULTI_LINE;
    BothLiterals();
    MultiLineChars();
    MultiLineSites();
    PassReady(Package, s);
    ReadySpaced(Package, s, [10]);
    assert Replaced(Package, s, 20, []) == s[20..];
    assert Replaced(Package, s, 0, [10]) == s[0..10] + Replacement(Package) + Replaced(Package, s, 20, []);
    assert PassOver(Package, s) == REWRITTEN;
    hide PassOver;
    NothingLeft(Import);
    NothingLeft(Nanopb);
    NothingLeft(Symbol);
    assert !OneLine([s][0]);
  }
}
