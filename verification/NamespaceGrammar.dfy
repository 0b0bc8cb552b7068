/**
 The statements and names the rewriter relocates, spelled out over the masked text, and
 what one relocation makes of them.
 */
module NamespaceGrammar {
  import opened NamespacePasses
  import opened NamespacePatterns
  import opened NamespaceRewrite
  import opened NamespaceRewriter
  import opened NamespaceShift
  import opened ProtoInsert
  import opened ProtoMask
  import opened Text

  // ----- pieces of text

  /** `w` stands at `p`. */
  predicate Word(m: string, p: nat, w: string) {
    p + |w| <= |m| && m[p..p + |w|] == w
  }

  /** White space from `a` to `b`. */
  predicate Gap(m: string, a: nat, b: nat) {
    a <= b <= |m| && AllSpace(m[a..b])
  }

  /** Only white space between `b` and the start of its line, or of a line before. */
  ghost predicate Begins(m: string, b: nat) {
    exists a: nat :: (a == 0 || (a <= |m| && m[a - 1] == '\n')) && Gap(m, a, b)
  }

  lemma AtIsWord(m: string, p: nat, w: string)
    ensures At(m, p, w) <==> Word(m, p, w)
  {
    if Word(m, p, w) {
      assert forall x :: p <= x < p + |w| ==> m[x] == m[p..p + |w|][x - p];
    }
  }

  lemma BlanksIsGap(m: string, a: nat, b: nat)
    ensures Blanks(m, a, b) <==> Gap(m, a, b)
  {
    if Gap(m, a, b) {
      assert forall x :: a <= x < b ==> m[x] == m[a..b][x - a];
    }
  }

  // ----- the four grammars

  /** `package meshtastic ;`, with `package` at `b`, the name at `p` and the `;` at `e`. */
  ghost predicate PackageAt(m: string, b: nat, p: nat, e: nat) {
    && Begins(m, b) && Word(m, b, "package") && b + 7 < p && Gap(m, b + 7, p)
    && Word(m, p, "meshtastic") && Gap(m, p + 10, e) && Word(m, e, ";")
  }

  ghost predicate PackageStatement(m: string, p: nat) {
    exists b: nat, e: nat :: PackageAt(m, b, p, e)
  }

  predicate ModifierAt(m: string, b: nat, c: nat, d: nat) {
    b < c && Gap(m, b, c) && ((Word(m, c, "public") && d == c + 6) || (Word(m, c, "weak") && d == c + 4))
  }

  ghost predicate Modifier(m: string, b: nat, d: nat) {
    d == b || exists c: nat :: ModifierAt(m, b, c, d)
  }

  /** `import` at `b`, perhaps `public` or `weak` up to `d`, and a quote right before `p`. */
  ghost predicate ImportAt(m: string, b: nat, d: nat, p: nat) {
    && Begins(m, b) && Word(m, b, "import") && Modifier(m, b + 6, d)
    && d + 1 < p <= |m| && Gap(m, d, p - 1) && (m[p - 1] == '"' || m[p - 1] == '\'')
  }

  ghost predicate ImportOpens(m: string, p: nat) {
    exists b: nat, d: nat :: ImportAt(m, b, d, p)
  }

  /** An imported path under `meshtastic/`, but not one under `meshtastic/protobuf/`. */
  ghost predicate OldPath(m: string, p: nat) {
    ImportOpens(m, p) && Word(m, p, "meshtastic/") && !Word(m, p + 11, "protobuf/")
  }

  // The `;` of the nanopb import at `p`.
  predicate Ends(m: string, p: nat, e: nat) {
    Gap(m, p + 13, e) && Word(m, e, ";")
  }

  /** The imported path `nanopb.proto`, closed by the quote that opened it, and a `;`. */
  ghost predicate NanopbPath(m: string, p: nat) {
    && ImportOpens(m, p) && Word(m, p, "nanopb.proto")
    && p + 12 < |m| && 0 < p && m[p + 12] == m[p - 1]
    && exists e: nat :: Ends(m, p, e)
  }

  /** `protobuf` as a whole word at `f`, with white space between the dot at `e` and it. */
  predicate ProtobufWord(m: string, e: nat, f: nat) {
    Gap(m, e + 1, f) && Word(m, f, "protobuf") && (f + 8 < |m| ==> !WordChar(m[f + 8]))
  }

  /** A dot at `e`, with white space between the name at `p` and it, and no `protobuf` behind it. */
  ghost predicate DotBehind(m: string, p: nat, e: nat) {
    Gap(m, p + 10, e) && Word(m, e, ".") && forall f: nat :: !ProtobufWord(m, e, f)
  }

  /** `meshtastic .`, not followed by the word `protobuf`, and not itself behind a word or a word and a dot. */
  ghost predicate OldSymbol(m: string, p: nat) {
    && p <= |m| && !Qualified(m, p) && Word(m, p, "meshtastic")
    && exists e: nat :: DotBehind(m, p, e)
  }

  // ----- they are the patterns

  lemma PackageExactly(m: string, p: nat)
    ensures Target(Package, m, p) <==> PackageStatement(m, p)
  {
    hide At, Blanks, Word, Gap;
    if e, b, a :| 0 <= a <= b <= p <= e < |m| && PackageMatch(m, a, b, p, e) {
      PackageParts(m, a, b, p, e);
      assert PackageAt(m, b, p, e);
    }
    if b: nat, e: nat :| PackageAt(m, b, p, e) {
      var a: nat :| (a == 0 || (a <= |m| && m[a - 1] == '\n')) && Gap(m, a, b);
      PackageParts(m, a, b, p, e);
      GapBounds(m, a, b);
      GapBounds(m, p + 10, e);
      assert PackageMatch(m, a, b, p, e);
    }
  }

  lemma GapBounds(m: string, a: nat, b: nat)
    requires Gap(m, a, b)
    ensures a <= b <= |m|
  {
  }

  lemma PackageParts(m: string, a: nat, b: nat, p: nat, e: nat)
    ensures PackageMatch(m, a, b, p, e) <==>
            && LineStart(m, a) && Gap(m, a, b) && Word(m, b, "package") && b + 7 < p && Gap(m, b + 7, p)
            && Word(m, p, "meshtastic") && Gap(m, p + 10, e) && Word(m, e, ";")
  {
    hide At, Blanks, Gap;
    BlanksIsGap(m, a, b);
    AtIsWord(m, b, "package");
    BlanksIsGap(m, b + 7, p);
    AtIsWord(m, p, "meshtastic");
    BlanksIsGap(m, p + 10, e);
  }

  lemma LeadParts(m: string, a: nat, b: nat, c: nat, d: nat, p: nat)
    ensures ImportLead(m, a, b, c, d, p) <==>
            && LineStart(m, a) && Gap(m, a, b) && Word(m, b, "import")
            && (d == b + 6 || (ModifierAt(m, b + 6, c, d)))
            && d + 1 < p <= |m| && Gap(m, d, p - 1) && (m[p - 1] == '"' || m[p - 1] == '\'')
  {
    hide At, Blanks, Word, Gap;
    BlanksIsGap(m, a, b);
    AtIsWord(m, b, "import");
    BlanksIsGap(m, b + 6, c);
    AtIsWord(m, c, "public");
    AtIsWord(m, c, "weak");
    if d + 1 < p {
      BlanksIsGap(m, d, p - 1);
    }
  }

  lemma LeadExactly(m: string, p: nat)
    ensures (exists d, c, b, a | 0 <= a <= b <= c <= d < p :: ImportLead(m, a, b, c, d, p)) <==> ImportOpens(m, p)
  {
    hide ImportLead, Word, Gap;
    if d, c, b, a :| 0 <= a <= b <= c <= d < p && ImportLead(m, a, b, c, d, p) {
      LeadParts(m, a, b, c, d, p);
      assert ImportAt(m, b, d, p);
    }
    if b: nat, d: nat :| ImportAt(m, b, d, p) {
      var a: nat :| (a == 0 || (a <= |m| && m[a - 1] == '\n')) && Gap(m, a, b);
      GapBounds(m, a, b);
      if d == b + 6 {
        LeadParts(m, a, b, b, d, p);
        assert ImportLead(m, a, b, b, d, p);
      } else {
        var c: nat :| ModifierAt(m, b + 6, c, d);
        LeadParts(m, a, b, c, d, p);
        assert ImportLead(m, a, b, c, d, p);
      }
    }
  }

  lemma ImportExactly(m: string, p: nat)
    ensures Target(Import, m, p) <==> OldPath(m, p)
  {
    hide At, ImportLead, ImportOpens, Word;
    LeadExactly(m, p);
    AtIsWord(m, p, "meshtastic/");
    AtIsWord(m, p + 11, "protobuf/");
  }

  lemma TailParts(m: string, p: nat, e: nat)
    ensures NanopbTail(m, p, e) <==>
            0 < p && Word(m, p, "nanopb.proto") && p + 12 < |m| && m[p + 12] == m[p - 1] && Ends(m, p, e)
  {
    hide At, Blanks, Gap;
    AtIsWord(m, p, "nanopb.proto");
    BlanksIsGap(m, p + 13, e);
  }

  lemma NanopbExactly(m: string, p: nat)
    ensures Target(Nanopb, m, p) <==> NanopbPath(m, p)
  {
    hide ImportLead, ImportOpens, Word, NanopbTail, Ends;
    LeadExactly(m, p);
    if e :| p <= e < |m| && NanopbTail(m, p, e) {
      TailParts(m, p, e);
    }
    if 0 < p && Word(m, p, "nanopb.proto") && p + 12 < |m| && m[p + 12] == m[p - 1] {
      if e: nat :| Ends(m, p, e) {
        TailParts(m, p, e);
        EndsBounds(m, p, e);
      }
    }
  }

  lemma EndsBounds(m: string, p: nat, e: nat)
    requires Ends(m, p, e)
    ensures p <= e < |m|
  {
  }

  lemma ProtobufParts(m: string, e: nat, f: nat)
    ensures Blanks(m, e + 1, f) && ProtobufAt(m, f) <==> ProtobufWord(m, e, f)
    ensures ProtobufWord(m, e, f) ==> e < f < |m|
  {
    hide At, Blanks;
    BlanksIsGap(m, e + 1, f);
    AtIsWord(m, f, "protobuf");
  }

  lemma DotParts(m: string, p: nat, e: nat)
    ensures DotAt(m, p, e) <==> Word(m, p, "meshtastic") && DotBehind(m, p, e)
  {
    hide At, Blanks, Gap, ProtobufAt, ProtobufWord;
    AtIsWord(m, p, "meshtastic");
    BlanksIsGap(m, p + 10, e);
    forall f: nat
      ensures Blanks(m, e + 1, f) && ProtobufAt(m, f) <==> ProtobufWord(m, e, f)
      ensures ProtobufWord(m, e, f) ==> e < f < |m|
    {
      ProtobufParts(m, e, f);
    }
    if f :| e < f < |m| && Blanks(m, e + 1, f) && ProtobufAt(m, f) {
      assert ProtobufWord(m, e, f);
    }
  }

  lemma DotBounds(m: string, p: nat, e: nat)
    requires DotBehind(m, p, e)
    ensures p <= e < |m|
  {
    hide ProtobufWord;
  }

  lemma SymbolExactly(m: string, p: nat)
    ensures Target(Symbol, m, p) <==> OldSymbol(m, p)
  {
    hide IsRoot, Qualified, DotAt, DotBehind, Word;
    if p <= |m| {
      RootUnlessQualified(m, p);
    }
    if e :| p <= e < |m| && DotAt(m, p, e) {
      DotParts(m, p, e);
    }
    if Word(m, p, "meshtastic") {
      if e: nat :| DotBehind(m, p, e) {
        DotParts(m, p, e);
        DotBounds(m, p, e);
      }
    }
  }

  /** What each pass looks for, and what it puts there. */
  lemma TargetExactly(k: Pattern, m: string, p: nat)
    ensures Target(k, m, p) <==>
            match k
            case Package => PackageStatement(m, p)
            case Import => OldPath(m, p)
            case Nanopb => NanopbPath(m, p)
            case Symbol => OldSymbol(m, p)
  {
    hide Target, PackageStatement, OldPath, NanopbPath, OldSymbol;
    match k
    case Package => PackageExactly(m, p);
    case Import => ImportExactly(m, p);
    case Nanopb => NanopbExactly(m, p);
    case Symbol => SymbolExactly(m, p);
  }

  lemma SiteReplaced(k: Pattern, s: string, p: nat)
    requires PassSites(k, s) == [p]
    ensures p + |TargetText(k)| <= |s|
    ensures PassOver(k, s) == s[..p] + Replacement(k) + s[p + |TargetText(k)|..]
  {
    hide PassSites, View, TargetText, Replacement, At;
    PassReady(k, s);
    ReadySpaced(k, s, [p]);
    assert Spaced(k, s, 0, [p]) && At(s, [p][0], TargetText(k));
    AtIsWord(s, p, TargetText(k));
    assert [p][1..] == [] && s[0..p] == s[..p];
    assert Replaced(k, s, p + |TargetText(k)|, []) == s[p + |TargetText(k)|..];
  }

  /** The words of the script. */
  lemma Words(k: Pattern)
    ensures k == Package ==> TargetText(k) == "meshtastic" && Replacement(k) == "meshtastic.protobuf"
    ensures k == Import ==> TargetText(k) == "meshtastic/" && Replacement(k) == "meshtastic/protobuf/"
    ensures k == Nanopb ==> TargetText(k) == "nanopb.proto" && Replacement(k) == "meshtastic/protobuf/nanopb.proto"
    ensures k == Symbol ==> TargetText(k) == "meshtastic" && Replacement(k) == "meshtastic.protobuf"
  {
  }

  /** A pass that finds one place rewrites it: the words of the script, nothing else changed. */
  lemma OneSite(k: Pattern, s: string, p: nat)
    requires PassSites(k, s) == [p]
    ensures p <= |s|
    ensures match k
            case Package => p + 10 <= |s| && PassOver(k, s) == s[..p] + "meshtastic.protobuf" + s[p + 10..]
            case Import => p + 11 <= |s| && PassOver(k, s) == s[..p] + "meshtastic/protobuf/" + s[p + 11..]
            case Nanopb =>
              p + 12 <= |s| && PassOver(k, s) == s[..p] + "meshtastic/protobuf/nanopb.proto" + s[p + 12..]
            case Symbol => p + 10 <= |s| && PassOver(k, s) == s[..p] + "meshtastic.protobuf" + s[p + 10..]
  {
    hide PassSites, PassOver, TargetText, Replacement;
    SiteReplaced(k, s, p);
    Words(k);
  }
}
