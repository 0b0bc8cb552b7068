/**
 The matches of a pass, and what one rewrite does to them: it leaves no new target of its
 own or an earlier pass, and the rewritten one is gone.
 */
module NamespacePasses {
  import opened NamespacePatterns
  import opened NamespaceRewrite
  import opened NamespaceShift
  import opened NamespaceSymbols
  import opened ProtoInsert
  import opened ProtoMask
  import opened Text

  // ----- one rewrite creates no target of its own pattern or an earlier one

  /** A target of the longer text is an old target, other than the one just rewritten. */
  ghost predicate Old(j: Pattern, k: Pattern, m: string, i: nat, p: int) {
    || (0 <= p < i - Offset(k) && Target(j, m, p))
    || (p - |Added(k)| > i - Offset(k) && p - |Added(k)| >= 0 && Target(j, m, p - |Added(k)|))
  }

  lemma OldPackage(k: Pattern, m: string, i: nat, p: nat)
    requires i <= |m| && Target(Package, Insert(m, i, Added(k)), p)
    ensures Old(Package, k, m, i, p)
  {
    hide Insert, PackageMatch;
    var t, n := Insert(m, i, Added(k)), |Added(k)|;
    AddedLength(k);
    var e, b, a :| 0 <= a <= b <= p <= e < |t| && PackageMatch(t, a, b, p, e);
    PackageBounds(t, a, b, p, e);
    PackageBack(k, m, i, a, b, p, e);
    hide Added;
    if e < i {
      assert PackageMatch(m, a, b, p, e);
    } else {
      PackageBounds(m, a - n, b - n, p - n, e - n);
      assert PackageMatch(m, a - n, b - n, p - n, e - n);
    }
  }

  lemma OldImport(k: Pattern, m: string, i: nat, p: nat)
    requires i <= |m| && !k.Package? && Tip(k, m, i) && (k.Symbol? || Next(k, m, i))
    requires Target(Import, Insert(m, i, Added(k)), p)
    ensures Old(Import, k, m, i, p)
  {
    hide Insert, ImportLead, At, Tip, Next;
    var t, n := Insert(m, i, Added(k)), |Added(k)|;
    AddedLength(k);
    var d, c, b, a :| 0 <= a <= b <= c <= d < p && ImportLead(t, a, b, c, d, p);
    ImportBack(k, m, i, a, b, c, d, p);
    hide Added;
    if i > p + 10 {
      if k.Nanopb? {
        TipBeyond(k, m, i, p);
      } else if i == p + 11 {
        TipBeyond(k, m, i, p);
      }
      assert ImportLead(m, a, b, c, d, p);
    } else {
      assert ImportLead(m, a - n, b - n, c - n, d - n, p - n);
    }
  }

  // The tip of a rewrite is not the slash that ends an import path.
  lemma TipBeyond(k: Pattern, m: string, i: nat, p: nat)
    requires i <= |m| && Tip(k, m, i) && i > p + 10 && At(m, p, "meshtastic/")
    ensures i > p + 11
  {
    TipChar(k, m, i);
    PathSpan(m, p);
  }

  lemma OldNanopb(k: Pattern, m: string, i: nat, p: nat)
    requires i <= |m| && (k.Nanopb? || k.Symbol?) && Tip(k, m, i)
    requires Target(Nanopb, Insert(m, i, Added(k)), p)
    ensures Old(Nanopb, k, m, i, p)
  {
    hide Insert, ImportLead, NanopbTail, Tip;
    var t, n := Insert(m, i, Added(k)), |Added(k)|;
    AddedLength(k);
    var e :| p <= e < |t| && NanopbTail(t, p, e);
    var d, c, b, a :| 0 <= a <= b <= c <= d < p && ImportLead(t, a, b, c, d, p);
    NanopbBack(k, m, i, a, b, c, d, p, e);
    LeadSpan(t, a, b, c, d, p);
    TailSpan(t, p, e);
    hide Added;
    if e < i {
      assert ImportLead(m, a, b, c, d, p) && NanopbTail(m, p, e);
    } else {
      assert ImportLead(m, a - n, b - n, c - n, d - n, p - n) && NanopbTail(m, p - n, e - n);
      LeadSpan(m, a - n, b - n, c - n, d - n, p - n);
      TailBounds(m, p - n, e - n);
    }
  }

  lemma TailBounds(t: string, p: int, e: int)
    requires NanopbTail(t, p, e)
    ensures 0 < p && p + 13 <= e < |t|
  {
  }

  lemma OldSymbol(m: string, i: nat, p: nat)
    requires i < |m| && Tip(Symbol, m, i) && Next(Symbol, m, i)
    requires Target(Symbol, Insert(m, i, Added(Symbol)), p)
    ensures Old(Symbol, Symbol, m, i, p)
  {
    hide Insert, DotAt, Tip, Next, IsRoot;
    LongerChars(m, i);
    hide Longer;
    var t := Longer(m, i);
    AddedLength(Symbol);
    var e :| p <= e < |t| && DotAt(t, p, e);
    SymbolBack(m, i, p, e);
    hide Added;
    if p + 10 < i {
      assert DotAt(m, p, e);
    } else {
      assert DotAt(m, p - 9, e - 9);
      DotBounds(m, p - 9, e - 9);
    }
  }

  lemma DotBounds(m: string, p: int, e: int)
    requires DotAt(m, p, e)
    ensures 0 <= p && p + 10 <= e < |m|
  {
  }

  lemma NoNewTarget(j: Pattern, k: Pattern, m: string, i: nat, p: nat)
    requires Pass(j) <= Pass(k) && i <= |m| && Tip(k, m, i) && (j == k || !k.Symbol? ==> Next(k, m, i))
    requires Target(j, Insert(m, i, Added(k)), p)
    ensures Old(j, k, m, i, p)
  {
    hide Insert, Added, Tip, Next, Target, Old;
    match j
    case Package => OldPackage(k, m, i, p);
    case Import => OldImport(k, m, i, p);
    case Nanopb => OldNanopb(k, m, i, p);
    case Symbol => NextBounds(k, m, i); OldSymbol(m, i, p);
  }

  lemma NextBounds(k: Pattern, m: string, i: int)
    requires Next(k, m, i)
    ensures 0 <= i < |m|
  {
  }

  // ----- the sites of a pass

  lemma {:induction false} SitesExact(k: Pattern, m: string, from: nat)
    ensures forall p :: p in Sites(k, m, from) <==> from <= p < |m| && Target(k, m, p)
    ensures forall x, y :: 0 <= x < y < |Sites(k, m, from)| ==> Sites(k, m, from)[x] < Sites(k, m, from)[y]
    decreases |m| - from
  {
    hide Target;
    if from < |m| {
      SitesExact(k, m, from + 1);
      var rest := Sites(k, m, from + 1);
      forall y | 0 <= y < |rest| ensures rest[y] > from {
        assert rest[y] in rest;
      }
    }
  }

  // What a target guarantees about the text around the point of the rewrite.
  lemma TargetShows(k: Pattern, m: string, p: nat)
    requires Target(k, m, p)
    ensures At(m, p, TargetText(k)) && p < |m|
    ensures p + Offset(k) <= |m| && Tip(k, m, p + Offset(k)) && Next(k, m, p + Offset(k))
  {
    hide ImportLead, PackageMatch, NanopbTail, DotAt, At, Blanks;
    match k
    case Package =>
      var e, b, a :| 0 <= a <= b <= p <= e < |m| && PackageMatch(m, a, b, p, e);
      PackageShows(m, a, b, p, e);
    case Import =>
      ImportShows(m, p);
    case Nanopb =>
      var e :| p <= e < |m| && NanopbTail(m, p, e);
      var d, c, b, a :| 0 <= a <= b <= c <= d < p && ImportLead(m, a, b, c, d, p);
      LeadSpan(m, a, b, c, d, p);
      NanopbShows(m, p, e);
    case Symbol =>
      var e :| p <= e < |m| && DotAt(m, p, e);
      DotShows(m, p, e);
  }

  lemma PackageShows(m: string, a: int, b: int, p: int, e: int)
    requires PackageMatch(m, a, b, p, e)
    ensures At(m, p, "meshtastic") && 0 <= p && p + 10 < |m|
  {
    hide At;
  }

  lemma ImportShows(m: string, p: nat)
    requires At(m, p, "meshtastic/")
    ensures At(m, p, "meshtastic") && p + 10 < |m| && m[p + 10] == '/'
  {
    forall x | p <= x < p + 10 ensures m[x] == "meshtastic"[x - p] {
      assert m[x] == "meshtastic/"[x - p];
    }
    assert m[p + 10] == "meshtastic/"[10];
  }

  lemma NanopbShows(m: string, p: int, e: int)
    requires NanopbTail(m, p, e)
    ensures 0 < p < |m| && At(m, p, "nanopb.proto") && m[p] == 'n'
  {
    assert m[p] == "nanopb.proto"[0];
  }

  lemma DotShows(m: string, p: int, e: int)
    requires DotAt(m, p, e)
    ensures At(m, p, "meshtastic") && 0 <= p && p + 10 < |m| && (m[p + 10] == '.' || IsSpace(m[p + 10]))
  {
    hide IsSpace, ProtobufFollows;
  }

  // A target text does not overlap itself.
  lemma Apart(k: Pattern, m: string, p: nat, q: nat)
    requires At(m, p, TargetText(k)) && At(m, q, TargetText(k)) && p < q
    ensures p + |TargetText(k)| <= q
  {
    var w := TargetText(k);
    forall x | p < x < p + |w| ensures !At(m, x, w) {
      assert m[x] == w[x - p];
      if k.Nanopb? && x == p + 2 {
        assert m[x + 1] == w[x + 1 - p];
      } else {
        assert w[x - p] != w[0];
      }
    }
  }

  // ----- a whole pass

  function PassSites(k: Pattern, s: string): seq<nat> {
    Sites(k, View(k, s), 0)
  }

  // Points of rewrites still to come, in order; the text shown around each is a target's.
  ghost predicate Ready(k: Pattern, m: string, ps: seq<nat>) {
    && (forall x, y :: 0 <= x < y < |ps| ==> ps[x] + |TargetText(k)| <= ps[y])
    && (forall x :: 0 <= x < |ps| ==> Shows(k, m, ps[x]))
  }

  ghost predicate Shows(k: Pattern, m: string, p: nat) {
    At(m, p, TargetText(k)) && Tip(k, m, p + Offset(k)) && Next(k, m, p + Offset(k))
  }

  lemma PassReady(k: Pattern, s: string)
    ensures Ready(k, View(k, s), PassSites(k, s))
  {
    hide View, Target, Tip, Next, At, TargetText, Offset, Sites;
    var m, ps := View(k, s), PassSites(k, s);
    SitesExact(k, m, 0);
    forall x | 0 <= x < |ps| ensures Shows(k, m, ps[x]) {
      assert ps[x] in ps;
      TargetShows(k, m, ps[x]);
    }
    forall x, y | 0 <= x < y < |ps| ensures ps[x] + |TargetText(k)| <= ps[y] {
      Apart(k, m, ps[x], ps[y]);
    }
  }

  // What is shown is in the source.
  lemma ShownInSource(k: Pattern, s: string, p: nat)
    requires At(View(k, s), p, TargetText(k))
    ensures At(s, p, TargetText(k))
  {
    var m, w := View(k, s), TargetText(k);
    TargetSolid(k);
    hide TargetText, Mask;
    forall x | p <= x < p + |w| ensures s[x] == w[x - p] {
      MaskShows(s, x);
      assert m[x] == w[x - p];
    }
  }

  lemma TargetSolid(k: Pattern)
    ensures forall x :: 0 <= x < |TargetText(k)| ==> !BlankChar(TargetText(k)[x])
  {
  }

  lemma ReadySpaced(k: Pattern, s: string, ps: seq<nat>)
    requires Ready(k, View(k, s), ps)
    ensures Spaced(k, s, 0, ps)
  {
    hide View, Tip, Next, At, TargetText, Offset;
    forall x | 0 <= x < |ps| ensures At(s, ps[x], TargetText(k)) {
      assert Shows(k, View(k, s), ps[x]);
      ShownInSource(k, s, ps[x]);
    }
  }

  /** One pass, as the source writes it: all targets of the masked text replaced. */
  function PassOver(k: Pattern, s: string): string {
    PassReady(k, s);
    ReadySpaced(k, s, PassSites(k, s));
    Replaced(k, s, 0, PassSites(k, s))
  }

  /** The four passes. */
  function RewriteAll(s: string): string {
    PassOver(Symbol, PassOver(Nanopb, PassOver(Import, PassOver(Package, s))))
  }
}
