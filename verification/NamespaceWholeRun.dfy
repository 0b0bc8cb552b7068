/**
 What the whole script does to a comment or literal, on every source: it is unchanged
 exactly if none of the four passes has a target in it.  A later pass cannot undo what an
 earlier one did, because texts only grow.
 */
module NamespaceWholeRun {
  import opened NamespaceIdempotence
  import opened NamespaceLiterals
  import opened NamespacePasses
  import opened NamespacePatterns
  import opened NamespaceRewrite
  import opened NamespaceShift
  import opened ProtoInsert
  import opened ProtoMask

  /** Pass `k` over `s` has no target in the piece numbered `x`. */
  ghost predicate Spared(k: Pattern, s: string, x: nat)
    requires x < |Pieces(s, 0)|
  {
    Untouched(k, Pieces(s, 0)[x], PassSites(k, s))
  }

  // One pass: pieces correspond, grow, and keep their text exactly if spared.
  lemma PassTexts(k: Pattern, s: string)
    ensures |Pieces(PassOver(k, s), 0)| == |Pieces(s, 0)|
    ensures forall x :: 0 <= x < |Pieces(s, 0)| ==>
              var before, after := Pieces(s, 0)[x].text, Pieces(PassOver(k, s), 0)[x].text;
              && |after| >= |before| && (|after| == |before| ==> after == before)
              && (after == before <==> Spared(k, s, x))
  {
    hide PassOver, PassSites, Pieces, AfterAll, Untouched, Ascending;
    PassPieces(k, s);
    SitesReady(k, s);
    forall x | 0 <= x < |Pieces(s, 0)|
      ensures var before, after := Pieces(s, 0)[x].text, Pieces(PassOver(k, s), 0)[x].text;
              && |after| >= |before| && (|after| == |before| ==> after == before)
              && (after == before <==> Spared(k, s, x))
    {
      TextKept(k, Pieces(s, 0)[x], PassSites(k, s));
    }
  }

  lemma PieceTexts(s: string)
    ensures |Protected(s, true)| == |Pieces(s, 0)|
    ensures forall x :: 0 <= x < |Pieces(s, 0)| ==> Protected(s, true)[x] == Pieces(s, 0)[x].text
  {
    hide Pieces, Protected;
    PiecesAreProtected(s, 0);
  }

  /** None of the four passes has a target in the piece numbered `x`. */
  ghost predicate SparedByAll(s: string, x: nat)
    requires x < |Pieces(s, 0)|
  {
    var a := PassOver(Package, s);
    var b := PassOver(Import, a);
    var c := PassOver(Nanopb, b);
    && Spared(Package, s, x)
    && x < |Pieces(a, 0)| && Spared(Import, a, x)
    && x < |Pieces(b, 0)| && Spared(Nanopb, b, x)
    && x < |Pieces(c, 0)| && Spared(Symbol, c, x)
  }

  /**
   The script keeps the comments and literals one for one, never shortens one, and keeps
   one byte for byte exactly if none of its passes has a target in it.
   */
  lemma EachKeptExactly(s: string)
    ensures |Protected(RewriteAll(s), true)| == |Protected(s, true)| == |Pieces(s, 0)|
    ensures forall x :: 0 <= x < |Protected(s, true)| ==>
              && |Protected(RewriteAll(s), true)[x]| >= |Protected(s, true)[x]|
              && (Protected(RewriteAll(s), true)[x] == Protected(s, true)[x] <==> SparedByAll(s, x))
  {
    hide PassOver, Pieces, Protected, Spared;
    var a := PassOver(Package, s);
    var b := PassOver(Import, a);
    var c := PassOver(Nanopb, b);
    PassTexts(Package, s);
    PassTexts(Import, a);
    PassTexts(Nanopb, b);
    PassTexts(Symbol, c);
    PieceTexts(s);
    PieceTexts(RewriteAll(s));
  }

  /** No target of pass `k` over `s` lies in a literal. */
  ghost predicate SparesLiterals(k: Pattern, s: string) {
    forall p :: p in PassSites(k, s) ==> p + Offset(k) <= |s| && !Hidden(s, p + Offset(k), true)
  }

  lemma SparesExactly(k: Pattern, s: string)
    ensures SparesLiterals(k, s) <==> forall x :: 0 <= x < |Pieces(s, 0)| ==> Spared(k, s, x)
    ensures SparesLiterals(k, s) <==> Protected(PassOver(k, s), true) == Protected(s, true)
  {
    hide PassOver, PassSites, Pieces, Protected, Spared, Offset, Hidden;
    LiteralsKeptExactly(k, s);
    PassTexts(k, s);
    PieceTexts(s);
    PieceTexts(PassOver(k, s));
  }

  /** The script keeps all comments and literals exactly if none of its passes has a target in a literal. */
  lemma AllKeptExactly(s: string)
    ensures var a := PassOver(Package, s);
            var b := PassOver(Import, a);
            var c := PassOver(Nanopb, b);
            Protected(RewriteAll(s), true) == Protected(s, true) <==>
              && SparesLiterals(Package, s) && SparesLiterals(Import, a)
              && SparesLiterals(Nanopb, b) && SparesLiterals(Symbol, c)
  {
    hide PassOver, Pieces, Protected, Spared, SparesLiterals;
    var a := PassOver(Package, s);
    var b := PassOver(Import, a);
    var c := PassOver(Nanopb, b);
    SparesExactly(Package, s);
    SparesExactly(Import, a);
    SparesExactly(Nanopb, b);
    SparesExactly(Symbol, c);
    EachKeptExactly(s);
    PassTexts(Package, s);
    PassTexts(Import, a);
    PassTexts(Nanopb, b);
    if Protected(RewriteAll(s), true) == Protected(s, true) {
      forall x | 0 <= x < |Pieces(s, 0)|
        ensures Spared(Package, s, x) && Spared(Import, a, x) && Spared(Nanopb, b, x) && Spared(Symbol, c, x)
      {
        assert SparedByAll(s, x);
      }
    }
  }
}
