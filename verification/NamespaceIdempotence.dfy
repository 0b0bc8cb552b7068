/**
 The rewriter as a whole: run again it changes nothing, comments keep every byte, and the
 pass over symbols keeps every string too.
 */
module NamespaceIdempotence {
  import opened NamespacePasses
  import opened NamespacePatterns
  import opened NamespaceRewrite
  import opened NamespaceShift
  import opened ProtoInsert
  import opened ProtoMask
  import opened Text

  // ----- one rewrite at a site

  lemma SiteIsAllowed(k: Pattern, s: string, p: nat)
    requires Shows(k, View(k, s), p)
    ensures Inert(Added(k)) && Allowed(s, p + Offset(k), Added(k))
    ensures !BlankChar(View(k, s)[p + Offset(k) - 1])
  {
    var m, i := View(k, s), p + Offset(k);
    AddedIsInert(k);
    hide Inert, At;
    TipChar(k, m, i);
    MaskShows(s, i - 1);
    hide Mask, Tip;
    if k.Nanopb? {
      MaskShows(s, i);
      assert s[i..][0] == 'n';
    } else {
      AddedEnd(k);
      hide Added;
    }
  }

  lemma AddedEnd(k: Pattern)
    requires !k.Nanopb?
    ensures |Added(k)| == 9 && Added(k)[8] == 'f'
  {
  }

  /** Every view the rewrite can matter to is extended just as the source is; no comment changes. */
  lemma SiteInsert(k: Pattern, s: string, p: nat)
    requires Shows(k, View(k, s), p)
    ensures p + Offset(k) <= |s|
    ensures var t := Insert(s, p + Offset(k), Added(k));
            && View(k, t) == Insert(View(k, s), p + Offset(k), Added(k))
            && Mask(t, false) == Insert(Mask(s, false), p + Offset(k), Added(k))
            && Protected(t, false) == Protected(s, false)
            && Protected(t, k.Symbol?) == Protected(s, k.Symbol?)
  {
    hide Shows, Inert, Allowed, Mask, Protected, Insert, Added;
    SiteBounds(k, View(k, s), p);
    SiteIsAllowed(k, s, p);
    VisibleInsert(s, p + Offset(k), Added(k), k.Symbol?);
  }

  lemma SiteBounds(k: Pattern, m: string, p: nat)
    requires Shows(k, m, p)
    ensures 0 < p + Offset(k) <= |m|
  {
  }

  lemma ViewInsert(j: Pattern, k: Pattern, s: string, p: nat)
    requires Pass(j) <= Pass(k) && Shows(k, View(k, s), p)
    ensures p + Offset(k) <= |s|
    ensures View(j, Insert(s, p + Offset(k), Added(k))) == Insert(View(j, s), p + Offset(k), Added(k))
  {
    hide Shows, Mask, Protected, Insert, Added;
    SiteInsert(k, s, p);
  }

  // The tip shows whether or not strings are hidden.
  lemma TipInView(j: Pattern, k: Pattern, s: string, p: nat)
    requires Pass(j) <= Pass(k) && Shows(k, View(k, s), p)
    ensures p + Offset(k) <= |s| && Tip(k, View(j, s), p + Offset(k))
    ensures j == k || !k.Symbol? ==> Next(k, View(j, s), p + Offset(k))
  {
    hide Mask;
    if k.Symbol? && !j.Symbol? {
      var m := View(k, s);
      TargetSolid(k);
      forall x | p <= x < p + 10 ensures View(j, s)[x] == "meshtastic"[x - p] {
        MaskShows(s, x);
        assert m[x] == TargetText(k)[x - p];
      }
    }
  }

  // ----- passes leave no target of theirs, nor of an earlier pass

  ghost predicate Settled(j: Pattern, s: string) {
    forall p: nat :: !Target(j, View(j, s), p)
  }

  // The targets of pattern j are those in `ps` if the pass is j's own, and none if it is a later one.
  ghost predicate Remaining(j: Pattern, k: Pattern, s: string, ps: seq<nat>) {
    forall p: nat :: Target(j, View(j, s), p) ==> j == k && p in ps
  }

  lemma RewriteLast(j: Pattern, k: Pattern, s: string, ps: seq<nat>)
    requires Pass(j) <= Pass(k) && ps != []
    requires Ready(k, View(k, s), ps) && Remaining(j, k, s, ps)
    ensures var last := |ps| - 1;
            && ps[last] + Offset(k) <= |s|
            && Remaining(j, k, Insert(s, ps[last] + Offset(k), Added(k)), ps[..last])
  {
    hide Shows, Target, Mask, Insert, Added, View, Old, TargetText;
    var last := |ps| - 1;
    var i := ps[last] + Offset(k);
    assert Shows(k, View(k, s), ps[last]);
    ViewInsert(j, k, s, ps[last]);
    TipInView(j, k, s, ps[last]);
    hide Tip, Next;
    var t := Insert(s, i, Added(k));
    forall p: nat | Target(j, View(j, t), p) ensures j == k && p in ps[..last] {
      NoNewTarget(j, k, View(j, s), i, p);
      OldInList(j, k, s, ps, i, p);
    }
  }

  lemma OldInList(j: Pattern, k: Pattern, s: string, ps: seq<nat>, i: nat, p: nat)
    requires ps != [] && i == ps[|ps| - 1] + Offset(k)
    requires forall x, y :: 0 <= x < y < |ps| ==> ps[x] + |TargetText(k)| <= ps[y]
    requires Remaining(j, k, s, ps) && i <= |s| && Old(j, k, View(j, s), i, p)
    ensures j == k && p in ps[..|ps| - 1]
  {
    hide Target, Mask, View, TargetText, Offset, Added;
    var last := |ps| - 1;
    forall q | q in ps && q != ps[last] ensures q < ps[last] && q in ps[..last] {
      var x :| 0 <= x < |ps| && ps[x] == q;
      assert ps[..last][x] == q;
    }
  }

  lemma {:induction false} PassSettles(j: Pattern, k: Pattern, s: string, ps: seq<nat>)
    requires Pass(j) <= Pass(k)
    requires Ready(k, View(k, s), ps) && Remaining(j, k, s, ps)
    ensures Spaced(k, s, 0, ps) && Settled(j, FromRight(k, s, ps))
    decreases |ps|
  {
    hide Shows, Target, Mask, Insert, Added, View, TargetText, Spaced, Ready;
    ReadySpaced(k, s, ps);
    if ps != [] {
      var last := |ps| - 1;
      RewriteLast(j, k, s, ps);
      ReadyLast(k, s, ps);
      PassSettles(j, k, Insert(s, ps[last] + Offset(k), Added(k)), ps[..last]);
    }
  }

  lemma ReadyLast(k: Pattern, s: string, ps: seq<nat>)
    requires ps != [] && Ready(k, View(k, s), ps)
    ensures var last := |ps| - 1;
            && ps[last] + Offset(k) <= |s|
            && Ready(k, View(k, Insert(s, ps[last] + Offset(k), Added(k))), ps[..last])
  {
    hide Mask, Insert, Added, View, TargetText, Shows;
    var last := |ps| - 1;
    var i, w, m := ps[last] + Offset(k), Added(k), View(k, s);
    assert Shows(k, m, ps[last]);
    ViewInsert(k, k, s, ps[last]);
    TargetLength(k);
    forall x | 0 <= x < last ensures Shows(k, Insert(m, i, w), ps[..last][x]) {
      assert Shows(k, m, ps[x]);
      ShowsBefore(k, m, i, w, ps[x]);
    }
  }

  lemma TargetLength(k: Pattern)
    ensures |TargetText(k)| >= 10
  {
  }

  lemma ShowsBefore(k: Pattern, m: string, i: nat, w: string, p: nat)
    requires Shows(k, m, p) && p + |TargetText(k)| <= i <= |m| && p + Offset(k) < i
    ensures Shows(k, Insert(m, i, w), p)
  {
    InsertCopies(m, i, w);
    var t := Insert(m, i, w);
    AtCarry(m, t, 0, i, 0, p, TargetText(k));
    hide Insert, Copies;
    var o := p + Offset(k);
    LookUp(m, t, 0, i, 0, o);
    if k.Nanopb? {
      LookUp(m, t, 0, i, 0, o - 1);
    } else {
      AtCarry(m, t, 0, i, 0, p, "meshtastic");
    }
  }

  lemma PassSettlesAll(j: Pattern, k: Pattern, s: string)
    requires Pass(j) <= Pass(k) && (j == k || Settled(j, s))
    ensures Settled(j, PassOver(k, s))
  {
    hide Target, Mask, Sites, Ready, Spaced, FromRight, Replaced;
    var ps := PassSites(k, s);
    PassReady(k, s);
    ReadySpaced(k, s, ps);
    SitesExact(k, View(k, s), 0);
    forall p: nat | Target(j, View(j, s), p) ensures j == k && p in ps {
      TargetShows(j, View(j, s), p);
    }
    PassSettles(j, k, s, ps);
    RightToLeft(k, s, ps);
  }

  /** A pass with nothing to find returns its input. */
  lemma SettledIsFixed(k: Pattern, s: string)
    requires Settled(k, s)
    ensures PassOver(k, s) == s
  {
    hide Target, Mask;
    NoSites(k, View(k, s), 0);
    assert s[0..] == s;
  }

  lemma {:induction false} NoSites(k: Pattern, m: string, from: nat)
    requires forall p: nat :: !Target(k, m, p)
    ensures Sites(k, m, from) == []
    decreases |m| - from
  {
    hide Target;
    if from < |m| {
      NoSites(k, m, from + 1);
    }
  }

  /** After the four passes no pattern finds anything, in code or in import strings. */
  lemma AllSettled(s: string)
    ensures forall k :: Settled(k, RewriteAll(s))
  {
    hide PassOver, Settled;
    var a := PassOver(Package, s);
    var b := PassOver(Import, a);
    var c := PassOver(Nanopb, b);
    PassSettlesAll(Package, Package, s);
    PassSettlesAll(Package, Import, a);
    PassSettlesAll(Import, Import, a);
    PassSettlesAll(Package, Nanopb, b);
    PassSettlesAll(Import, Nanopb, b);
    PassSettlesAll(Nanopb, Nanopb, b);
    forall k ensures Settled(k, PassOver(Symbol, c)) {
      PassSettlesAll(k, Symbol, c);
    }
  }

  /** Rewriting a rewritten source changes nothing. */
  lemma RewriteIsIdempotent(s: string)
    ensures RewriteAll(RewriteAll(s)) == RewriteAll(s)
  {
    hide PassOver, Settled;
    var r := RewriteAll(s);
    AllSettled(s);
    SettledIsFixed(Package, r);
    SettledIsFixed(Import, r);
    SettledIsFixed(Nanopb, r);
    SettledIsFixed(Symbol, r);
  }

  // ----- what stays as it was

  lemma {:induction false} PassKeeps(k: Pattern, s: string, ps: seq<nat>)
    requires Ready(k, View(k, s), ps)
    ensures Spaced(k, s, 0, ps)
    ensures Protected(FromRight(k, s, ps), false) == Protected(s, false)
    ensures Protected(FromRight(k, s, ps), k.Symbol?) == Protected(s, k.Symbol?)
    decreases |ps|
  {
    hide Shows, Mask, Protected, Insert, Added, View, TargetText, Spaced;
    ReadySpaced(k, s, ps);
    if ps != [] {
      var last := |ps| - 1;
      SiteInsert(k, s, ps[last]);
      ReadyLast(k, s, ps);
      PassKeeps(k, Insert(s, ps[last] + Offset(k), Added(k)), ps[..last]);
    }
  }

  lemma PassOverKeeps(k: Pattern, s: string)
    ensures Protected(PassOver(k, s), false) == Protected(s, false)
    ensures Protected(PassOver(k, s), k.Symbol?) == Protected(s, k.Symbol?)
  {
    hide Protected, Mask, Target, Sites, Ready, Spaced, FromRight, Replaced;
    PassReady(k, s);
    PassKeeps(k, s, PassSites(k, s));
    RightToLeft(k, s, PassSites(k, s));
  }

  /** Every comment of the source is in the result, byte for byte and in order, and no other. */
  lemma CommentsKept(s: string)
    ensures Protected(RewriteAll(s), false) == Protected(s, false)
  {
    hide PassOver, Protected;
    var a := PassOver(Package, s);
    var b := PassOver(Import, a);
    PassOverKeeps(Package, s);
    PassOverKeeps(Import, a);
    PassOverKeeps(Nanopb, b);
    PassOverKeeps(Symbol, PassOver(Nanopb, b));
  }

  /** The pass over qualified symbols leaves every string, too. */
  lemma SymbolsKeepStrings(s: string)
    ensures Protected(PassOver(Symbol, s), true) == Protected(s, true)
  {
    PassOverKeeps(Symbol, s);
  }
}
