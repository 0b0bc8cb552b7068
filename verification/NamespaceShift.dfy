/**
 What one rewrite does to the places the rewriter looks for: nothing new appears, the
 rewritten place is gone, and every other place can be found again in the old text.
 */
module NamespaceShift {
  import opened NamespacePatterns
  import opened ProtoInsert
  import opened ProtoMask
  import opened Text

  // ----- copying matches between texts

  // Characters lo to hi of `m` stand in `t` too, `d` further on.
  ghost predicate Copies(m: string, t: string, lo: int, hi: int, d: int) {
    && 0 <= lo <= hi <= |m| && 0 <= lo + d && hi + d <= |t|
    && forall y :: lo <= y < hi ==> m[y] == t[y + d]
  }

  lemma InsertCopies(m: string, i: nat, w: string)
    requires i <= |m|
    ensures Copies(m, Insert(m, i, w), 0, i, 0) && Copies(m, Insert(m, i, w), i, |m|, |w|)
    ensures Copies(Insert(m, i, w), m, 0, i, 0) && Copies(Insert(m, i, w), m, i + |w|, |m| + |w|, -|w|)
    ensures forall y :: 0 <= y < |w| ==> Insert(m, i, w)[i + y] == w[y]
  {
  }

  lemma LookUp(m: string, t: string, lo: int, hi: int, d: int, x: int)
    requires Copies(m, t, lo, hi, d) && lo <= x
    ensures x < hi ==> m[x] == t[x + d]
  {
  }

  lemma AtCarry(m: string, t: string, lo: int, hi: int, d: int, p: int, w: string)
    requires Copies(m, t, lo, hi, d) && lo <= p && p + |w| <= hi
    ensures At(m, p, w) == At(t, p + d, w)
  {
    if At(t, p + d, w) {
      forall x | p <= x < p + |w| ensures m[x] == w[x - p] {
        assert m[x] == t[x + d];
      }
    }
    if At(m, p, w) {
      forall x | p + d <= x < p + d + |w| ensures t[x] == w[x - (p + d)] {
        assert m[x - d] == t[x - d + d];
      }
    }
  }

  lemma BlanksCarry(m: string, t: string, lo: int, hi: int, d: int, a: int, b: int)
    requires Copies(m, t, lo, hi, d) && lo <= a && b <= hi && Blanks(m, a, b)
    ensures Blanks(t, a + d, b + d)
  {
    forall x | a + d <= x < b + d ensures IsSpace(t[x]) {
      assert m[x - d] == t[x - d + d];
    }
  }

  // The line start at `a` is seen from inside the copied stretch.
  predicate Anchored(lo: int, a: int, d: int) {
    lo < a || (a == 0 && d == 0)
  }

  lemma PackageCarry(m: string, t: string, lo: int, hi: int, d: int, a: int, b: int, p: int, e: int)
    requires Copies(m, t, lo, hi, d) && Anchored(lo, a, d) && e < hi && lo <= a
    requires PackageMatch(m, a, b, p, e)
    ensures PackageMatch(t, a + d, b + d, p + d, e + d)
  {
    hide At, Blanks;
    BlanksBounds(m, a, b);
    BlanksBounds(m, p + 10, e);
    BlanksCarry(m, t, lo, hi, d, a, b);
    AtCarry(m, t, lo, hi, d, b, "package");
    BlanksCarry(m, t, lo, hi, d, b + 7, p);
    AtCarry(m, t, lo, hi, d, p, "meshtastic");
    BlanksCarry(m, t, lo, hi, d, p + 10, e);
    assert m[e] == t[e + d];
  }

  lemma BlanksBounds(m: string, a: int, b: int)
    requires Blanks(m, a, b)
    ensures 0 <= a <= b <= |m|
  {
  }

  lemma LeadCarry(m: string, t: string, lo: int, hi: int, d: int, a: int, b: int, c: int, e: int, p: int)
    requires Copies(m, t, lo, hi, d) && Anchored(lo, a, d) && p <= hi && lo <= a
    requires ImportLead(m, a, b, c, e, p)
    ensures ImportLead(t, a + d, b + d, c + d, e + d, p + d)
  {
    hide At, Blanks;
    BlanksBounds(m, a, b);
    BlanksCarry(m, t, lo, hi, d, a, b);
    AtCarry(m, t, lo, hi, d, b, "import");
    if e != b + 6 {
      BlanksCarry(m, t, lo, hi, d, b + 6, c);
      if At(m, c, "public") && e == c + 6 {
        AtCarry(m, t, lo, hi, d, c, "public");
      } else {
        AtCarry(m, t, lo, hi, d, c, "weak");
      }
    }
    BlanksCarry(m, t, lo, hi, d, e, p - 1);
    assert m[p - 1] == t[p - 1 + d];
  }

  lemma TailCarry(m: string, t: string, lo: int, hi: int, d: int, p: int, e: int)
    requires Copies(m, t, lo, hi, d) && lo < p && e < hi
    requires NanopbTail(m, p, e)
    ensures NanopbTail(t, p + d, e + d)
  {
    hide At, Blanks;
    BlanksBounds(m, p + 13, e);
    AtCarry(m, t, lo, hi, d, p, "nanopb.proto");
    BlanksCarry(m, t, lo, hi, d, p + 13, e);
    assert m[p - 1] == t[p - 1 + d] && m[p + 12] == t[p + 12 + d] && m[e] == t[e + d];
  }

  // ----- the point of a rewrite

  /** What stands right before the insertion. */
  predicate Tip(k: Pattern, m: string, i: int) {
    && 0 < i <= |m|
    && if k.Nanopb? then IsQuote(m[i - 1]) else At(m, i - 10, "meshtastic")
  }

  /** What stands right after it. */
  predicate Next(k: Pattern, m: string, i: int) {
    && 0 <= i < |m|
    && match k
       case Package => true
       case Import => m[i] == '/'
       case Nanopb => m[i] == 'n'
       case Symbol => m[i] == '.' || IsSpace(m[i])
  }

  lemma TipChar(k: Pattern, m: string, i: int)
    requires Tip(k, m, i)
    ensures if k.Nanopb? then IsQuote(m[i - 1]) else m[i - 1] == 'c'
  {
    if !k.Nanopb? {
      assert m[i - 1] == "meshtastic"[9];
    }
  }

  predicate Mark(c: char) {
    c == '.' || c == '/'
  }

  /** The first `.` or `/` of the added text. */
  function MarkOffset(k: Pattern): nat {
    if k.Nanopb? then 10 else 0
  }

  lemma AddedChars(k: Pattern)
    ensures MarkOffset(k) < |Added(k)| && Mark(Added(k)[MarkOffset(k)])
    ensures forall x :: 0 <= x < |Added(k)| ==> Added(k)[x] != '\n' && Added(k)[x] != ';'
  {
  }

  lemma InsertedChars(k: Pattern, m: string, i: nat)
    requires i <= |m|
    ensures var t := Insert(m, i, Added(k));
            && MarkOffset(k) < |Added(k)| && Mark(t[i + MarkOffset(k)])
            && forall x :: i <= x < i + |Added(k)| ==> t[x] != '\n' && t[x] != ';'
  {
    var w := Added(k);
    var t := Insert(m, i, w);
    InsertCopies(m, i, w);
    AddedChars(k);
    hide Added, Insert, Copies;
    forall x | i <= x < i + |w| ensures t[x] != '\n' && t[x] != ';' {
      assert t[i + (x - i)] == w[x - i];
    }
  }

  // A stretch that starts a line and holds no mark before `e` lies on one side of the insertion.
  lemma OneSide(k: Pattern, m: string, i: nat, a: int, e: int)
    requires i <= |m|
    requires var t := Insert(m, i, Added(k));
             LineStart(t, a) && a <= e <= |t| && forall x :: a <= x < e ==> !Mark(t[x])
    ensures a > i + |Added(k)| || e <= i + MarkOffset(k)
  {
    hide Added, Insert;
    InsertedChars(k, m, i);
  }

  // ----- package statements

  lemma PackageSpan(t: string, a: int, b: int, p: int, e: int)
    requires PackageMatch(t, a, b, p, e)
    ensures a <= e && forall x :: a <= x <= e ==> !Mark(t[x])
  {
    forall x | a <= x <= e ensures !Mark(t[x]) {
      if b <= x < b + 7 {
        assert t[x] == "package"[x - b];
      } else if p <= x < p + 10 {
        assert t[x] == "meshtastic"[x - p];
      }
    }
  }

  lemma PackageBack(k: Pattern, m: string, i: nat, a: int, b: int, p: int, e: int)
    requires i <= |m| && PackageMatch(Insert(m, i, Added(k)), a, b, p, e)
    ensures var n := |Added(k)|;
            || (e < i && PackageMatch(m, a, b, p, e))
            || (a > i + n && PackageMatch(m, a - n, b - n, p - n, e - n))
  {
    hide Added, Insert, Copies, PackageMatch, LineStart, MarkOffset;
    var w := Added(k);
    var t, n := Insert(m, i, w), |w|;
    PackageSpan(t, a, b, p, e);
    PackageBounds(t, a, b, p, e);
    OneSide(k, m, i, a, e + 1);
    InsertCopies(m, i, w);
    InsertedChars(k, m, i);
    if a > i + n {
      PackageCarry(t, m, i + n, |t|, -n, a, b, p, e);
    } else {
      PackageCarry(t, m, 0, i, 0, a, b, p, e);
    }
  }

  lemma PackageBounds(t: string, a: int, b: int, p: int, e: int)
    requires PackageMatch(t, a, b, p, e)
    ensures 0 <= a <= b && b + 7 < p && p + 10 <= e < |t| && t[e] == ';' && LineStart(t, a)
  {
  }

  // ----- import statements

  lemma LeadSpan(t: string, a: int, b: int, c: int, d: int, p: int)
    requires ImportLead(t, a, b, c, d, p)
    ensures 0 <= a <= b <= d <= p - 2 && p <= |t| && LineStart(t, a) && IsQuote(t[p - 1])
    ensures forall x :: a <= x < p ==> !Mark(t[x])
  {
    forall x | a <= x < p ensures !Mark(t[x]) {
      if b <= x < b + 6 {
        assert t[x] == "import"[x - b];
      } else if d == c + 6 && c <= x < d && At(t, c, "public") {
        assert t[x] == "public"[x - c];
      } else if d == c + 4 && c <= x < d && At(t, c, "weak") {
        assert t[x] == "weak"[x - c];
      }
    }
  }

  lemma PathSpan(t: string, p: int)
    requires At(t, p, "meshtastic/")
    ensures forall x :: p <= x < p + 10 ==> !Mark(t[x])
    ensures t[p + 10] == '/' && forall x :: p <= x <= p + 10 ==> !IsQuote(t[x])
  {
    forall x | p <= x <= p + 10 ensures !IsQuote(t[x]) && (Mark(t[x]) ==> x == p + 10) {
      assert t[x] == "meshtastic/"[x - p];
    }
    assert t[p + 10] == "meshtastic/"[10];
  }

  lemma LookaheadChars(m: string, f: int)
    requires At(m, f, "protobuf/")
    ensures forall x :: f <= x < f + 9 ==> m[x] != 'c' && !IsQuote(m[x])
  {
    forall x | f <= x < f + 9 ensures m[x] != 'c' && !IsQuote(m[x]) {
      assert m[x] == "protobuf/"[x - f];
    }
  }

  // Text that ends in a word, in front of more text.
  lemma AtEnd(m: string, i: nat, w: string, word: string)
    requires i <= |m| && |word| <= |w| && w[|w| - |word|..] == word
    ensures At(Insert(m, i, w), i + |w| - |word|, word)
  {
    var t, f := Insert(m, i, w), i + |w| - |word|;
    InsertCopies(m, i, w);
    hide Insert, Copies;
    forall x | f <= x < f + |word| ensures t[x] == word[x - f] {
      assert t[i + (x - i)] == w[x - i] == w[|w| - |word|..][x - f];
    }
  }

  lemma AtSnoc(t: string, f: int, word: string, c: char)
    requires At(t, f, word) && f + |word| < |t| && t[f + |word|] == c
    ensures At(t, f, word + [c])
  {
  }

  // The text right after a rewritten import path, or before a rewritten nanopb path, is what the lookahead refuses.
  lemma ImportDone(k: Pattern, m: string, i: nat)
    requires k.Import? || k.Nanopb?
    requires i <= |m| && Next(k, m, i)
    ensures var t := Insert(m, i, Added(k));
            At(t, i + |Added(k)| - (if k.Import? then 8 else 9), "protobuf/")
  {
    hide At, Insert;
    var w := Added(k);
    if k.Import? {
      assert w[|w| - 8..] == "protobuf";
      AtEnd(m, i, w, "protobuf");
      InsertNext(m, i, w);
      assert "protobuf" + ['/'] == "protobuf/";
      AtSnoc(Insert(m, i, w), i + 1, "protobuf", '/');
    } else {
      assert w[|w| - 9..] == "protobuf/";
      AtEnd(m, i, w, "protobuf/");
    }
  }

  lemma InsertNext(m: string, i: nat, w: string)
    requires i < |m|
    ensures Insert(m, i, w)[i + |w|] == m[i]
  {
  }

  predicate ImportSite(m: string, a: int, b: int, c: int, d: int, p: int) {
    ImportLead(m, a, b, c, d, p) && At(m, p, "meshtastic/") && !At(m, p + 11, "protobuf/")
  }

  // Where an import path that is still to be rewritten can lie.
  lemma ImportSide(k: Pattern, m: string, i: nat, a: int, b: int, c: int, d: int, p: int)
    requires i <= |m| && !k.Package? && Tip(k, m, i) && (k.Symbol? || Next(k, m, i))
    requires ImportSite(Insert(m, i, Added(k)), a, b, c, d, p)
    ensures a > i + |Added(k)| || i > p + 10
  {
    hide Added, Insert, ImportLead, At, LineStart, Next;
    var t := Insert(m, i, Added(k));
    LeadSpan(t, a, b, c, d, p);
    PathSpan(t, p);
    PathEnd(t, p);
    OneSide(k, m, i, a, p + 10);
    InsertedChars(k, m, i);
    InsertCopies(m, i, Added(k));
    TipChar(k, m, i);
    if p <= i <= p + 10 && a <= i {
      ImportNotHere(k, m, i, p);
    }
  }

  lemma ImportNotHere(k: Pattern, m: string, i: nat, p: int)
    requires i <= |m| && !k.Package? && Tip(k, m, i) && (k.Symbol? || Next(k, m, i))
    requires p <= i <= p + 10 <= i + MarkOffset(k)
    ensures var t := Insert(m, i, Added(k)); !At(t, p, "meshtastic/") || At(t, p + 11, "protobuf/")
  {
    hide Added, Insert, Next, Tip;
    var t := Insert(m, i, Added(k));
    InsertCopies(m, i, Added(k));
    TipChar(k, m, i);
    if At(t, p, "meshtastic/") {
      PathSpan(t, p);
      AddedLength(k);
      if k.Symbol? {
        SymbolMark(m, i);
      } else {
        ImportDone(k, m, i);
      }
    }
  }

  lemma AddedLength(k: Pattern)
    ensures |Added(k)| == if k.Nanopb? then 20 else 9
  {
  }

  lemma SymbolMark(m: string, i: nat)
    requires i <= |m|
    ensures Insert(m, i, Added(Symbol))[i] == '.'
  {
    assert Insert(m, i, ".protobuf")[i] == ".protobuf"[0];
  }

  lemma ImportBack(k: Pattern, m: string, i: nat, a: int, b: int, c: int, d: int, p: int)
    requires i <= |m| && !k.Package? && Tip(k, m, i) && (k.Symbol? || Next(k, m, i))
    requires ImportSite(Insert(m, i, Added(k)), a, b, c, d, p)
    ensures var n := |Added(k)|;
            || (i > p + 10 && ImportSite(m, a, b, c, d, p))
            || (a > i + n && ImportSite(m, a - n, b - n, c - n, d - n, p - n))
  {
    hide Added, Insert, ImportLead, At, LineStart, Next, Copies;
    var t, n := Insert(m, i, Added(k)), |Added(k)|;
    LeadSpan(t, a, b, c, d, p);
    ImportSide(k, m, i, a, b, c, d, p);
    InsertCopies(m, i, Added(k));
    PathEnd(t, p);
    if a > i + n {
      LeadCarry(t, m, i + n, |t|, -n, a, b, c, d, p);
      AtCarry(t, m, i + n, |t|, -n, p, "meshtastic/");
      LookaheadHigh(m, t, i, n, p);
    } else {
      LeadCarry(t, m, 0, i, 0, a, b, c, d, p);
      AtCarry(t, m, 0, i, 0, p, "meshtastic/");
      LookaheadLow(k, m, i, p);
    }
  }

  lemma PathEnd(t: string, p: int)
    requires At(t, p, "meshtastic/")
    ensures 0 <= p && p + 11 <= |t|
  {
  }

  lemma LookaheadHigh(m: string, t: string, i: nat, n: nat, p: int)
    requires Copies(m, t, i, |m|, n) && |t| == |m| + n && p - n >= i
    requires !At(t, p + 11, "protobuf/")
    ensures !At(m, p - n + 11, "protobuf/")
  {
    if At(m, p - n + 11, "protobuf/") {
      AtCarry(m, t, i, |m|, n, p - n + 11, "protobuf/");
    }
  }

  lemma TipOutside(k: Pattern, m: string, i: nat, p: int)
    requires i <= |m| && Tip(k, m, i) && i > p + 10
    requires At(m, p, "meshtastic/") && At(m, p + 11, "protobuf/")
    ensures i >= p + 20
  {
    hide At, Tip;
    LookaheadChars(m, p + 11);
    PathSpan(m, p);
    TipChar(k, m, i);
  }

  lemma LookaheadLow(k: Pattern, m: string, i: nat, p: int)
    requires i <= |m| && Tip(k, m, i) && i > p + 10 && p >= 0
    requires At(m, p, "meshtastic/") && !At(Insert(m, i, Added(k)), p + 11, "protobuf/")
    ensures !At(m, p + 11, "protobuf/")
  {
    hide Added, Insert, Tip, At, Copies;
    var t := Insert(m, i, Added(k));
    InsertCopies(m, i, Added(k));
    if At(m, p + 11, "protobuf/") {
      TipOutside(k, m, i, p);
      AtCarry(m, t, 0, i, 0, p + 11, "protobuf/");
    }
  }

  // ----- nanopb imports

  predicate NanopbSite(m: string, a: int, b: int, c: int, d: int, p: int, e: int) {
    ImportLead(m, a, b, c, d, p) && NanopbTail(m, p, e)
  }

  lemma TailSpan(t: string, p: int, e: int)
    requires NanopbTail(t, p, e) && IsQuote(t[p - 1])
    ensures 0 < p && p + 13 <= e < |t| && t[e] == ';' && t[p + 5] == 'b'
    ensures forall x :: p <= x <= e ==> (Mark(t[x]) ==> t[x] == '.' && x == p + 6)
  {
    forall x | p <= x <= e ensures Mark(t[x]) ==> t[x] == '.' && x == p + 6 {
      if x < p + 12 {
        assert t[x] == "nanopb.proto"[x - p];
      }
    }
    assert t[p + 5] == "nanopb.proto"[5];
  }

  lemma NanopbSide(k: Pattern, m: string, i: nat, a: int, b: int, c: int, d: int, p: int, e: int)
    requires i <= |m| && (k.Nanopb? || k.Symbol?) && Tip(k, m, i)
    requires NanopbSite(Insert(m, i, Added(k)), a, b, c, d, p, e)
    ensures a > i + |Added(k)| || e < i
  {
    hide Added, Insert, ImportLead, NanopbTail, LineStart, Tip;
    var t := Insert(m, i, Added(k));
    LeadSpan(t, a, b, c, d, p);
    TailSpan(t, p, e);
    InsertedChars(k, m, i);
    InsertCopies(m, i, Added(k));
    TipChar(k, m, i);
    OneSide(k, m, i, a, p);
    AddedLength(k);
    if a <= i + |Added(k)| {
      if k.Symbol? {
        SymbolMark(m, i);
        assert i > 0 ==> t[i - 1] == m[i - 1];
      } else {
        assert Mark(t[i + 10]);
        NanopbSlash(m, i);
      }
    }
  }

  lemma NanopbSlash(m: string, i: nat)
    requires i <= |m|
    ensures Insert(m, i, Added(Nanopb))[i + 10] == '/'
  {
    assert Insert(m, i, "meshtastic/protobuf/")[i + 10] == "meshtastic/protobuf/"[10];
  }

  lemma NanopbBack(k: Pattern, m: string, i: nat, a: int, b: int, c: int, d: int, p: int, e: int)
    requires i <= |m| && (k.Nanopb? || k.Symbol?) && Tip(k, m, i)
    requires NanopbSite(Insert(m, i, Added(k)), a, b, c, d, p, e)
    ensures var n := |Added(k)|;
            || (e < i && NanopbSite(m, a, b, c, d, p, e))
            || (a > i + n && NanopbSite(m, a - n, b - n, c - n, d - n, p - n, e - n))
  {
    hide Added, Insert, ImportLead, NanopbTail, LineStart, Tip, Copies;
    var t, n := Insert(m, i, Added(k)), |Added(k)|;
    LeadSpan(t, a, b, c, d, p);
    TailSpan(t, p, e);
    NanopbSide(k, m, i, a, b, c, d, p, e);
    InsertCopies(m, i, Added(k));
    if a > i + n {
      LeadCarry(t, m, i + n, |t|, -n, a, b, c, d, p);
      TailCarry(t, m, i + n, |t|, -n, p, e);
    } else {
      LeadCarry(t, m, 0, i, 0, a, b, c, d, p);
      TailCarry(t, m, 0, i, 0, p, e);
    }
  }
}
