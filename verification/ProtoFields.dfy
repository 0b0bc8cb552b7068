/**
 The lines the injection pass looks for, spelled out: field declarations, the headers of
 messages, oneofs and enums, and closing braces.
 */
module ProtoFields {
  import opened Text
  import opened ProtoMask
  import opened ProtoScan
  import opened ProtoInject
  import opened ProtoPass

  // ----- what the two scanners stop at

  predicate TypeChar(c: char) {
    WordChar(c) || c == '.'
  }

  predicate AllWord(s: string) {
    forall i :: 0 <= i < |s| ==> WordChar(s[i])
  }

  predicate AllType(s: string) {
    forall i :: 0 <= i < |s| ==> TypeChar(s[i])
  }

  lemma Apart()
    ensures forall c :: IsSpace(c) ==> !TypeChar(c) && !WordChar(c) && c != '=' && c != '{' && c != '}' && !Digit(c)
    ensures !TypeChar('=') && !TypeChar('{') && !TypeChar('}') && !IsSpace('=') && !IsSpace('{')
    ensures forall c :: WordChar(c) ==> TypeChar(c)
    ensures forall c :: Digit(c) ==> WordChar(c)
  {
  }

  lemma {:induction false} SkipSpaceMeans(s: string, i: nat)
    requires i <= |s|
    ensures var k := SkipSpace(s, i); AllSpace(s[i..k]) && (k < |s| ==> !IsSpace(s[k]))
    decreases |s| - i
  {
    hide IsSpace;
    if i < |s| && IsSpace(s[i]) {
      SkipSpaceMeans(s, i + 1);
      var k := SkipSpace(s, i);
      assert s[i..k] == [s[i]] + s[i + 1..k];
    }
  }

  lemma {:induction false} SkipSpaceIs(s: string, i: nat, k: nat)
    requires i <= k <= |s| && AllSpace(s[i..k]) && (k < |s| ==> !IsSpace(s[k]))
    ensures SkipSpace(s, i) == k
    decreases k - i
  {
    hide IsSpace;
    if i < k {
      assert s[i] == s[i..k][0] && s[i + 1..k] == s[i..k][1..];
      SkipSpaceIs(s, i + 1, k);
    }
  }

  predicate Allowed(c: char, dots: bool) {
    WordChar(c) || (dots && c == '.')
  }

  predicate AllAllowed(s: string, dots: bool) {
    forall i :: 0 <= i < |s| ==> Allowed(s[i], dots)
  }

  lemma {:induction false} SkipWordMeans(s: string, i: nat, dots: bool)
    requires i <= |s|
    ensures var k := SkipWord(s, i, dots); AllAllowed(s[i..k], dots) && (k < |s| ==> !Allowed(s[k], dots))
    decreases |s| - i
  {
    hide WordChar;
    if i < |s| && Allowed(s[i], dots) {
      SkipWordMeans(s, i + 1, dots);
      var k := SkipWord(s, i, dots);
      assert s[i..k] == [s[i]] + s[i + 1..k];
    }
  }

  lemma {:induction false} SkipWordIs(s: string, i: nat, k: nat, dots: bool)
    requires i <= k <= |s| && AllAllowed(s[i..k], dots) && (k < |s| ==> !Allowed(s[k], dots))
    ensures SkipWord(s, i, dots) == k
    decreases k - i
  {
    hide WordChar;
    if i < k {
      assert s[i] == s[i..k][0] && s[i + 1..k] == s[i..k][1..];
      SkipWordIs(s, i + 1, k, dots);
    }
  }

  // ----- field declarations

  /** A type at `i`, a name from `k` to `w`, an `=` at `e` and a digit at `d`, with white space as it must or may be. */
  predicate TailAt(s: string, i: nat, t: nat, k: nat, w: nat, e: nat, d: nat) {
    && i < t < k < w <= e < d < |s|
    && AllType(s[i..t]) && AllSpace(s[t..k]) && AllWord(s[k..w]) && AllSpace(s[w..e])
    && s[e] == '=' && AllSpace(s[e + 1..d]) && '0' <= s[d] <= '9'
  }

  /** `optional` or `repeated`, and white space. */
  predicate Qualifier(q: string) {
    |q| > 8 && (q[..8] == "optional" || q[..8] == "repeated") && AllSpace(q[8..])
  }

  /** The whole line, up to the digit: white space, perhaps a qualifier, and the rest. */
  ghost predicate FieldLine(s: string, name: string) {
    exists p: nat, i: nat, t: nat, k: nat, w: nat, e: nat, d: nat :: FieldLineAt(s, name, p, i, t, k, w, e, d)
  }

  predicate FieldLineAt(s: string, name: string, p: nat, i: nat, t: nat, k: nat, w: nat, e: nat, d: nat) {
    && p <= i && TailAt(s, i, t, k, w, e, d)
    && AllSpace(s[..p]) && (i == p || Qualifier(s[p..i]))
    && name == s[k..w]
  }

  // The characters at the joints of a declaration.
  lemma Joints(s: string, i: nat, t: nat, k: nat, w: nat, e: nat, d: nat)
    requires TailAt(s, i, t, k, w, e, d)
    ensures TypeChar(s[i]) && IsSpace(s[t]) && WordChar(s[k]) && (w < e ==> IsSpace(s[w])) && Digit(s[d])
    ensures AllAllowed(s[i..t], true) && AllAllowed(s[k..w], false) && AllAllowed(s[k..w], true)
  {
    hide IsSpace, WordChar;
    assert s[i] == s[i..t][0] && s[t] == s[t..k][0] && s[k] == s[k..w][0];
    assert w < e ==> s[w] == s[w..e][0];
  }

  lemma TailFound(s: string, i: nat, t: nat, k: nat, w: nat, e: nat, d: nat)
    requires TailAt(s, i, t, k, w, e, d)
    ensures FieldTail(s, i) == Some(s[k..w])
  {
    hide IsSpace, WordChar, SkipSpace, SkipWord;
    Joints(s, i, t, k, w, e, d);
    Apart();
    SkipWordIs(s, i, t, true);
    SkipSpaceIs(s, t, k);
    SkipWordIs(s, k, w, false);
    SkipSpaceIs(s, w, e);
    SkipSpaceIs(s, e + 1, d);
  }

  lemma TailMeans(s: string, i: nat) returns (t: nat, k: nat, w: nat, e: nat, d: nat)
    requires i <= |s| && FieldTail(s, i).Some?
    ensures TailAt(s, i, t, k, w, e, d) && FieldTail(s, i) == Some(s[k..w])
  {
    hide IsSpace, WordChar, SkipSpace, SkipWord;
    t := SkipWord(s, i, true);
    SkipWordMeans(s, i, true);
    k := SkipSpace(s, t);
    SkipSpaceMeans(s, t);
    w := SkipWord(s, k, false);
    SkipWordMeans(s, k, false);
    e := SkipSpace(s, w);
    SkipSpaceMeans(s, w);
    d := SkipSpace(s, e + 1);
    SkipSpaceMeans(s, e + 1);
    assert forall x :: 0 <= x < |s[i..t]| ==> Allowed(s[i..t][x], true);
    assert forall x :: 0 <= x < |s[k..w]| ==> Allowed(s[k..w][x], false);
  }

  lemma QualifierMeans(s: string, p: nat, word: string)
    requires p <= |s| && AfterQualifier(s, p, word).Some? && (word == "optional" || word == "repeated")
    ensures p < AfterQualifier(s, p, word).value <= |s| && Qualifier(s[p..AfterQualifier(s, p, word).value])
  {
    hide IsSpace, SkipSpace;
    SkipSpaceMeans(s, p + 8);
    var q := SkipSpace(s, p + 8);
    assert s[p..q][..8] == s[p..p + 8] && s[p..q][8..] == s[p + 8..q];
  }

  lemma QualifierFound(s: string, p: nat, i: nat)
    requires p < i < |s| && Qualifier(s[p..i]) && !IsSpace(s[i])
    ensures s[p..i][..8] == "optional" ==> AfterQualifier(s, p, "optional") == Some(i)
    ensures s[p..i][..8] == "repeated" ==>
              AfterQualifier(s, p, "repeated") == Some(i) && AfterQualifier(s, p, "optional").None?
  {
    hide IsSpace, SkipSpace;
    assert s[p..i][..8] == s[p..p + 8] && s[p..i][8..] == s[p + 8..i];
    assert "repeated"[0] == 'r' && "optional"[0] == 'o';
    SkipSpaceIs(s, p + 8, i);
  }

  /** A field found is a declaration of that shape. */
  lemma FieldMeans(s: string, name: string)
    requires FieldName(s) == Some(name)
    ensures FieldLine(s, name)
  {
    hide IsSpace, WordChar, SkipSpace, FieldTail, AfterQualifier, TailAt, Qualifier;
    var p := SkipSpace(s, 0);
    SkipSpaceMeans(s, 0);
    assert s[..p] == s[0..p];
    var optional, repeated := AfterQualifier(s, p, "optional"), AfterQualifier(s, p, "repeated");
    var q := if optional.Some? then optional else repeated;
    if q.Some? && q.value <= |s| && FieldTail(s, q.value).Some? {
      QualifierMeans(s, p, if optional.Some? then "optional" else "repeated");
      var t, k, w, e, d := TailMeans(s, q.value);
      assert FieldLineAt(s, name, p, q.value, t, k, w, e, d);
    } else {
      var t, k, w, e, d := TailMeans(s, p);
      assert FieldLineAt(s, name, p, p, t, k, w, e, d);
    }
  }

  // A declaration whose type reads like a qualifier is not one with a qualifier.
  lemma NoSecondName(s: string, i: nat, t: nat, k: nat, w: nat, e: nat, d: nat)
    requires TailAt(s, i, t, k, w, e, d)
    ensures FieldTail(s, k).None?
  {
    hide IsSpace, WordChar, SkipSpace, SkipWord;
    Joints(s, i, t, k, w, e, d);
    Apart();
    SkipWordIs(s, k, w, true);
    SkipSpaceIs(s, w, e);
    SkipWordIs(s, e, e, false);
  }

  lemma TypeIsQualifier(s: string, i: nat, t: nat, k: nat, w: nat, e: nat, d: nat, word: string)
    requires TailAt(s, i, t, k, w, e, d) && (word == "optional" || word == "repeated")
    ensures AfterQualifier(s, i, word).Some? ==> AfterQualifier(s, i, word) == Some(k)
  {
    hide IsSpace, WordChar, SkipSpace;
    Joints(s, i, t, k, w, e, d);
    Apart();
    if AfterQualifier(s, i, word).Some? {
      SkipSpaceMeans(s, i + 8);
      var x := SkipSpace(s, i + 8);
      assert s[i + 8] == s[i + 8..x][0];
      LettersOnly(word);
      assert forall y :: i <= y < i + 8 ==> s[y] == s[i..i + 8][y - i];
      assert forall y :: i <= y < t ==> s[y] == s[i..t][y - i];
      assert t == i + 8;
      SkipSpaceIs(s, t, k);
    }
  }

  lemma LettersOnly(word: string)
    requires word == "optional" || word == "repeated"
    ensures forall y :: 0 <= y < |word| ==> WordChar(word[y])
  {
  }

  lemma QualifierStart(q: string)
    requires Qualifier(q)
    ensures !IsSpace(q[0])
  {
    assert q[0] == q[..8][0];
  }

  /** A declaration of that shape is found. */
  lemma FieldFound(s: string, name: string, p: nat, i: nat, t: nat, k: nat, w: nat, e: nat, d: nat)
    requires FieldLineAt(s, name, p, i, t, k, w, e, d)
    ensures FieldName(s) == Some(name)
  {
    hide IsSpace, WordChar, SkipSpace, FieldTail, AfterQualifier, Qualifier;
    Joints(s, i, t, k, w, e, d);
    Apart();
    TailFound(s, i, t, k, w, e, d);
    assert s[0..p] == s[..p];
    if i == p {
      SkipSpaceIs(s, 0, p);
      NoSecondName(s, i, t, k, w, e, d);
      TypeIsQualifier(s, i, t, k, w, e, d, "optional");
      TypeIsQualifier(s, i, t, k, w, e, d, "repeated");
    } else {
      QualifierStart(s[p..i]);
      assert s[p] == s[p..i][0];
      SkipSpaceIs(s, 0, p);
      QualifierFound(s, p, i);
      assert s[p..i][..8] == "optional" || s[p..i][..8] == "repeated" by { QualifierWord(s[p..i]); }
    }
  }

  lemma QualifierWord(q: string)
    requires Qualifier(q)
    ensures |q| > 8 && (q[..8] == "optional" || q[..8] == "repeated")
  {
  }

  /** Exactly the declarations of that shape are found, with their names. */
  lemma FieldNameExactly(s: string, name: string)
    ensures FieldName(s) == Some(name) <==> FieldLine(s, name)
  {
    hide FieldName, FieldLineAt;
    if FieldName(s) == Some(name) {
      FieldMeans(s, name);
    }
    if p: nat, i: nat, t: nat, k: nat, w: nat, e: nat, d: nat :| FieldLineAt(s, name, p, i, t, k, w, e, d) {
      FieldFound(s, name, p, i, t, k, w, e, d);
    }
  }

  // ----- headers and closing braces

  function Keyword(kind: ScopeKind): string {
    match kind
    case MessageScope => "message"
    case OneofScope => "oneof"
    case EnumScope => "enum"
  }

  /** White space, the keyword, white space, a name, perhaps white space, and an open brace. */
  predicate HeaderAt(s: string, keyword: string, name: string, p: nat, k: nat, w: nat, b: nat) {
    && p + |keyword| < k < w <= b < |s|
    && AllSpace(s[..p]) && s[p..p + |keyword|] == keyword && AllSpace(s[p + |keyword|..k])
    && AllWord(s[k..w]) && AllSpace(s[w..b]) && s[b] == '{' && name == s[k..w]
  }

  ghost predicate Header(s: string, keyword: string, name: string) {
    exists p: nat, k: nat, w: nat, b: nat :: HeaderAt(s, keyword, name, p, k, w, b)
  }

  lemma HeaderMeans(s: string, keyword: string, name: string)
    requires ScopeName(s, keyword) == Some(name)
    ensures Header(s, keyword, name)
  {
    hide IsSpace, WordChar, SkipSpace, SkipWord;
    var p := SkipSpace(s, 0);
    SkipSpaceMeans(s, 0);
    var j := p + |keyword|;
    var k := SkipSpace(s, j);
    SkipSpaceMeans(s, j);
    var w := SkipWord(s, k, false);
    SkipWordMeans(s, k, false);
    var b := SkipSpace(s, w);
    SkipSpaceMeans(s, w);
    assert s[0..p] == s[..p];
    assert forall x :: 0 <= x < |s[k..w]| ==> Allowed(s[k..w][x], false);
    assert HeaderAt(s, keyword, name, p, k, w, b);
  }

  lemma HeaderFound(s: string, keyword: string, name: string, p: nat, k: nat, w: nat, b: nat)
    requires HeaderAt(s, keyword, name, p, k, w, b) && keyword != "" && !IsSpace(keyword[0])
    ensures ScopeName(s, keyword) == Some(name)
  {
    hide IsSpace, WordChar, SkipSpace, SkipWord;
    Apart();
    assert s[p] == s[p..p + |keyword|][0] && s[k] == s[k..w][0] && s[0..p] == s[..p];
    assert w < b ==> s[w] == s[w..b][0];
    assert forall x :: 0 <= x < |s[k..w]| ==> Allowed(s[k..w][x], false);
    SkipSpaceIs(s, 0, p);
    SkipSpaceIs(s, p + |keyword|, k);
    SkipWordIs(s, k, w, false);
    SkipSpaceIs(s, w, b);
  }

  lemma KeywordStarts()
    ensures forall kind :: Keyword(kind) != "" && !IsSpace(Keyword(kind)[0])
  {
  }

  lemma ScopeNameExactly(s: string, kind: ScopeKind, name: string)
    ensures ScopeName(s, Keyword(kind)) == Some(name) <==> Header(s, Keyword(kind), name)
  {
    hide ScopeName, HeaderAt, Keyword;
    KeywordStarts();
    if ScopeName(s, Keyword(kind)) == Some(name) {
      HeaderMeans(s, Keyword(kind), name);
    }
    if p: nat, k: nat, w: nat, b: nat :| HeaderAt(s, Keyword(kind), name, p, k, w, b) {
      HeaderFound(s, Keyword(kind), name, p, k, w, b);
    }
  }

  // A line is the header of one kind at most.
  lemma OneKeyword(s: string, kind: ScopeKind, other: ScopeKind)
    requires ScopeName(s, Keyword(kind)).Some? && ScopeName(s, Keyword(other)).Some?
    ensures kind == other
  {
    hide SkipSpace, SkipWord;
    var p := SkipSpace(s, 0);
    assert "message"[0] == 'm' && "oneof"[0] == 'o' && "enum"[0] == 'e';
    assert s[p] == s[p..p + |Keyword(kind)|][0] == s[p..p + |Keyword(other)|][0];
  }

  /** Exactly the headers of messages, oneofs and enums open a scope, of their kind and with their name. */
  lemma OpenedScopeExactly(s: string, kind: ScopeKind, name: string)
    ensures OpenedScope(s) == Some(Scope(kind, name)) <==> Header(s, Keyword(kind), name)
  {
    hide ScopeName, Header;
    ScopeNameExactly(s, kind, name);
    if ScopeName(s, "message").Some? && ScopeName(s, Keyword(kind)).Some? {
      OneKeyword(s, MessageScope, kind);
    }
    if ScopeName(s, "oneof").Some? && ScopeName(s, Keyword(kind)).Some? {
      OneKeyword(s, OneofScope, kind);
    }
    if ScopeName(s, "enum").Some? && ScopeName(s, Keyword(kind)).Some? {
      OneKeyword(s, EnumScope, kind);
    }
  }

  /** A closing brace at `p`, and nothing but white space around it. */
  predicate LoneBrace(s: string, p: nat) {
    p < |s| && s[p] == '}' && AllSpace(s[..p]) && AllSpace(s[p + 1..])
  }

  /** Exactly the lines of one closing brace and white space close a scope. */
  lemma ClosesScopeExactly(s: string)
    ensures ClosesScope(s) <==> exists p: nat :: LoneBrace(s, p)
  {
    hide IsSpace, LeadingSpace, SolidLength;
    var l := LeadingSpace(s);
    var t := LStrip(s);
    if ClosesScope(s) {
      assert SolidLength(t) == 1 && t[0] == '}' && s[l] == '}';
      assert s[l + 1..] == t[1..] && AllSpace(t[1..]);
      assert LoneBrace(s, l);
    }
    if p: nat :| LoneBrace(s, p) {
      BraceIsSolid();
      assert s == s[..p] + s[p..];
      StripLeading(s[..p], s[p..]);
      assert s[p..][1..] == s[p + 1..] && s[p..][..1] == "}";
      RStripIsLongest(s[p..], 1);
    }
  }

  lemma BraceIsSolid()
    ensures !IsSpace('}') && !WordChar('}')
  {
  }

  // ----- a field declaration is neither

  lemma KeywordLetters(kind: ScopeKind)
    ensures Keyword(kind) != "" && forall y :: 0 <= y < |Keyword(kind)| ==> WordChar(Keyword(kind)[y])
  {
  }

  // Behind the first two words of a line, and the white space there.
  function BehindWords(s: string): (i: nat)
    ensures i <= |s|
  {
    var t := SkipWord(s, SkipSpace(s, 0), true);
    SkipSpace(s, SkipWord(s, SkipSpace(s, t), false))
  }

  lemma FieldHasEquals(s: string, p: nat, t: nat, k: nat, w: nat, e: nat, d: nat)
    requires TailAt(s, p, t, k, w, e, d) && AllSpace(s[..p])
    ensures BehindWords(s) < |s| && s[BehindWords(s)] == '='
  {
    hide IsSpace, WordChar, SkipSpace, SkipWord;
    Joints(s, p, t, k, w, e, d);
    Apart();
    assert s[0..p] == s[..p];
    SkipSpaceIs(s, 0, p);
    SkipWordIs(s, p, t, true);
    SkipSpaceIs(s, t, k);
    SkipWordIs(s, k, w, false);
    SkipSpaceIs(s, w, e);
  }

  lemma HeaderHasBrace(s: string, kind: ScopeKind, name: string, q: nat, l: nat, v: nat, b: nat)
    requires HeaderAt(s, Keyword(kind), name, q, l, v, b)
    ensures BehindWords(s) < |s| && s[BehindWords(s)] == '{'
  {
    hide IsSpace, WordChar, SkipSpace, SkipWord, Keyword;
    Apart();
    KeywordLetters(kind);
    var word := Keyword(kind);
    assert s[q..q + |word|][0] == s[q] && s[0..q] == s[..q];
    assert s[q + |word|] == s[q + |word|..l][0] && s[l] == s[l..v][0] && (v < b ==> s[v] == s[v..b][0]);
    assert forall x :: 0 <= x < |s[l..v]| ==> Allowed(s[l..v][x], false);
    SkipSpaceIs(s, 0, q);
    SkipWordIs(s, q, q + |word|, true);
    SkipSpaceIs(s, q + |word|, l);
    SkipWordIs(s, l, v, false);
    SkipSpaceIs(s, v, b);
  }

  lemma QualifierIsNoKeyword(s: string, p: nat, i: nat, kind: ScopeKind)
    requires p < i <= |s| && Qualifier(s[p..i])
    ensures !StartsAt(s, p, Keyword(kind))
  {
    var q := s[p..i];
    assert q[..8][0] == s[p] && q[..8][1] == s[p + 1];
    StartShows(s, p, Keyword(kind));
  }

  lemma StartShows(s: string, p: nat, word: string)
    requires p + 1 < |s| && |word| > 1
    ensures StartsAt(s, p, word) ==> word[0] == s[p] && word[1] == s[p + 1]
  {
    if StartsAt(s, p, word) {
      assert s[p..p + |word|][0] == s[p] && s[p..p + |word|][1] == s[p + 1];
    }
  }

  lemma FieldOpensNothing(s: string, name: string)
    requires FieldLine(s, name)
    ensures OpenedScope(s).None? && !ClosesScope(s)
  {
    hide FieldLineAt, OpenedScope, ClosesScope;
    if p: nat, i: nat, t: nat, k: nat, w: nat, e: nat, d: nat :| FieldLineAt(s, name, p, i, t, k, w, e, d) {
      OpensNothingAt(s, name, p, i, t, k, w, e, d);
    }
  }

  lemma OpensNothingAt(s: string, name: string, p: nat, i: nat, t: nat, k: nat, w: nat, e: nat, d: nat)
    requires FieldLineAt(s, name, p, i, t, k, w, e, d)
    ensures OpenedScope(s).None? && !ClosesScope(s)
  {
    hide FieldLineAt, OpenedScope, ClosesScope, ScopeName, Keyword;
    forall kind ensures ScopeName(s, Keyword(kind)).None? {
      NoneOpens(s, name, kind, p, i, t, k, w, e, d);
    }
    NoKeywordNoScope(s);
    FieldIsNoBrace(s, name, p, i, t, k, w, e, d);
  }

  lemma NoKeywordNoScope(s: string)
    ensures OpenedScope(s).Some? ==> exists kind :: ScopeName(s, Keyword(kind)).Some?
  {
    hide ScopeName;
    assert Keyword(MessageScope) == "message" && Keyword(OneofScope) == "oneof" && Keyword(EnumScope) == "enum";
  }

  lemma FieldIsNoBrace(s: string, name: string, p: nat, i: nat, t: nat, k: nat, w: nat, e: nat, d: nat)
    requires FieldLineAt(s, name, p, i, t, k, w, e, d)
    ensures !ClosesScope(s)
  {
    hide IsSpace, WordChar, Qualifier, ClosesScope, LoneBrace;
    ClosesScopeExactly(s);
    Joints(s, i, t, k, w, e, d);
    NotLone(s, k);
  }

  lemma NotLone(s: string, k: nat)
    requires k < |s| && WordChar(s[k])
    ensures forall p: nat :: !LoneBrace(s, p)
  {
    Apart();
    BraceIsSolid();
    hide IsSpace, WordChar;
    forall p: nat ensures !LoneBrace(s, p) {
      assert k < p <= |s| ==> s[..p][k] == s[k];
      assert p < k ==> s[p + 1..][k - p - 1] == s[k];
    }
  }

  lemma NoneOpens(s: string, name: string, kind: ScopeKind,
                  p: nat, i: nat, t: nat, k: nat, w: nat, e: nat, d: nat)
    requires FieldLineAt(s, name, p, i, t, k, w, e, d)
    ensures ScopeName(s, Keyword(kind)).None?
  {
    hide IsSpace, WordChar, SkipSpace, SkipWord, Qualifier, ScopeName, Keyword;
    if ScopeName(s, Keyword(kind)).Some? {
      var scope := ScopeName(s, Keyword(kind)).value;
      HeaderMeans(s, Keyword(kind), scope);
      var q: nat, l: nat, v: nat, b: nat :| HeaderAt(s, Keyword(kind), scope, q, l, v, b);
      if i == p {
        FieldHasEquals(s, p, t, k, w, e, d);
        HeaderHasBrace(s, kind, scope, q, l, v, b);
      } else {
        QualifierIsNoKeyword(s, p, i, kind);
        KeywordLetters(kind);
        SameStart(s, p, i, Keyword(kind), scope, q, l, v, b);
      }
    }
  }

  lemma SameStart(s: string, p: nat, i: nat, word: string, name: string, q: nat, l: nat, v: nat, b: nat)
    requires p < i <= |s| && Qualifier(s[p..i]) && AllSpace(s[..p])
    requires HeaderAt(s, word, name, q, l, v, b) && word != "" && WordChar(word[0])
    ensures StartsAt(s, p, word)
  {
    Apart();
    hide IsSpace, WordChar, SkipSpace;
    QualifierStart(s[p..i]);
    assert s[p] == s[p..i][0] && s[q] == s[q..q + |word|][0] && s[0..p] == s[..p] && s[0..q] == s[..q];
    SkipSpaceIs(s, 0, p);
    SkipSpaceIs(s, 0, q);
  }

  // ----- what a line asks for

  /** Whether fields may be declared here: not directly inside an enum. */
  predicate InFields(context: seq<Scope>) {
    context == [] || context[|context| - 1].kind != EnumScope
  }

  /** A field for which options are collected asks for just them. */
  lemma FieldAsks(s: string, name: string, context: seq<Scope>, c: Constraints)
    requires FieldLine(s, name) && InFields(context) && Collected(name, MessageNames(context), c) != map[]
    ensures var names := MessageNames(context);
            FieldDemand(s, context, c) == Some(Demand(FormatOptions(Collected(name, names, c)),
                                                      MatchedKeys(name, names, c), MatchedWildcard(name, c)))
  {
    hide FieldLine, FieldName, OpenedScope, ClosesScope, Collected, FormatOptions, MatchedKeys;
    FieldNameExactly(s, name);
    FieldOpensNothing(s, name);
  }

  /** Nothing else asks for anything. */
  lemma OnlyFieldsAsk(s: string, context: seq<Scope>, c: Constraints) returns (name: string)
    requires FieldDemand(s, context, c).Some?
    ensures FieldLine(s, name) && InFields(context) && Collected(name, MessageNames(context), c) != map[]
  {
    hide FieldLine, FieldName, OpenedScope, ClosesScope, Collected, FormatOptions, MatchedKeys;
    name := FieldName(s).value;
    FieldNameExactly(s, name);
  }
}
