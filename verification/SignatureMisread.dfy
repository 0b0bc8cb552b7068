/**
 Exactly which printed signatures are read back: those whose parameters print no
 comma outside brackets, and an `=` outside brackets just where a default stands.
 Every further comma adds a parameter to what is read, so the misread signature
 is told by its length.
 */
module SignatureMisread {
  import opened Text
  import opened SignatureShape
  import opened SignatureText
  import opened SignaturePrinter
  import opened SignatureRoundTrip

  // ----- counting what is read

  /** The tokens that are read as a parameter. */
  function Solid(tokens: seq<string>): nat {
    if tokens == [] then 0 else (if Separator(tokens[0]) then 0 else 1) + Solid(tokens[1..])
  }

  lemma {:induction false} SolidConcat(a: seq<string>, b: seq<string>)
    ensures Solid(a + b) == Solid(a) + Solid(b)
  {
    hide Separator;
    if a == [] {
      assert a + b == b;
    } else {
      assert (a + b)[1..] == a[1..] + b;
      SolidConcat(a[1..], b);
    }
  }

  lemma {:induction false} AllSolid(tokens: seq<string>)
    requires forall i :: 0 <= i < |tokens| ==> !Separator(tokens[i])
    ensures Solid(tokens) == |tokens|
  {
    hide Separator;
    if tokens != [] {
      AllSolid(tokens[1..]);
    }
  }

  lemma {:induction false} ShapeLength(tokens: seq<string>, positionalOnly: nat, kwOnlyMode: bool)
    ensures |TokensShape(tokens, positionalOnly, kwOnlyMode)| == Solid(tokens)
  {
    hide Separator, TokenShape, StartsKeywordOnly;
    if tokens != [] {
      var left := if positionalOnly > 0 then positionalOnly - 1 else 0;
      ShapeLength(tokens[1..], left, kwOnlyMode || StartsKeywordOnly(tokens[0]));
    }
  }

  // ----- the pieces of one token

  // Every piece behind a top-level comma is read as a parameter.
  ghost predicate SolidPieces(text: string) {
    forall i :: 1 <= i < |Segments(text, TOP)| ==> !Separator(Strip(Segments(text, TOP)[i]))
  }

  lemma {:induction false} CommaMakesPieces(s: string, d: Depth)
    requires FindTop(s, ',', d) != -1
    ensures |Segments(s, d)| > 1
  {
    hide Hit;
    if !Hit(s[0], ',', d) {
      CommaMakesPieces(s[1..], d.After(s[0]));
    }
  }

  // Stripping keeps every solid character.
  lemma StripKeeps(s: string, k: nat)
    requires k < |s| && !IsSpace(s[k])
    ensures s[k] in Strip(s)
  {
    hide IsSpace;
    var t, j := LStrip(s), LeadingSpace(s);
    assert j <= k && t[k - j] == s[k];
    assert SolidLength(t) > k - j;
    assert Strip(s)[k - j] == s[k];
  }

  lemma SolidByMark(s: string, k: nat)
    requires k < |s| && !IsSpace(s[k]) && s[k] != '*' && s[k] != '/'
    ensures !Separator(Strip(s))
  {
    StripKeeps(s, k);
  }

  // A text that starts with a name is read as one parameter, and as more with a comma.
  lemma NamedPieces(name: string, suffix: string)
    requires Identifier(name) && SolidPieces(name + suffix)
    ensures var n := Solid(StripAll(Segments(name + suffix, TOP)));
            n >= 1 && (n == 1 <==> FindTop(name + suffix, ',', TOP) == -1)
  {
    hide Separator, Strip, FindTop, Segments, IsSpace;
    var text := name + suffix;
    var pieces := Segments(text, TOP);
    NameIsPlain(name, ',', TOP);
    SegmentsConcat(name, suffix, TOP);
    assert pieces[0][0] == name[0] && NameChar(name[0]);
    SolidByMark(pieces[0], 0);
    AllSolid(StripAll(pieces));
    if FindTop(text, ',', TOP) == -1 {
      SegmentsOne(text);
    } else {
      CommaMakesPieces(text, TOP);
    }
  }

  // ----- the whole list

  // What a token adds to the parameters that are read: one for a parameter, more
  // exactly if it prints a top-level comma; nothing for a marker.
  ghost predicate Counted(t: string) {
    var n, own := Solid(StripAll(Segments(t, TOP))), Solid([t]);
    n >= own && (n == own <==> FindTop(t, ',', TOP) == -1)
  }

  ghost predicate AllCounted(tokens: seq<string>) {
    forall i :: 0 <= i < |tokens| ==> Counted(tokens[i])
  }

  lemma {:induction false} CutCount(tokens: seq<string>)
    requires AllCounted(tokens)
    ensures Solid(CutAll(tokens)) >= Solid(tokens)
    ensures Solid(CutAll(tokens)) == Solid(tokens) <==> CommaFree(tokens)
  {
    hide Separator, Segments, StripAll, FindTop;
    if tokens != [] {
      var rest := tokens[1..];
      CutCount(rest);
      SolidConcat(StripAll(Segments(tokens[0], TOP)), CutAll(rest));
      SolidConcat([tokens[0]], rest);
      assert [tokens[0]] + rest == tokens;
      assert Counted(tokens[0]);
      assert CommaFree(tokens) <==> FindTop(tokens[0], ',', TOP) == -1 && CommaFree(rest) by {
        assert forall i :: 1 <= i < |tokens| ==> tokens[i] == rest[i - 1];
        assert forall i :: 0 <= i < |rest| ==> rest[i] == tokens[i + 1];
      }
    }
  }

  lemma ParamCounted(a: Arg, default: Option<string>)
    requires Identifier(a.name) && SolidPieces(WithDefault(ArgText(a), default))
    ensures Counted(WithDefault(ArgText(a), default)) && !Separator(WithDefault(ArgText(a), default))
  {
    hide Segments, FindTop, StripAll, Strip, RStrip, Suffix;
    var t := WithDefault(ArgText(a), default);
    SuffixPrinted(a, default);
    NamedPieces(a.name, Suffix(a, default));
    SolidStart(a, default);
    assert Solid([t]) == 1;
  }

  lemma StarCounted(stars: string, name: string)
    requires Identifier(name) && (stars == "*" || stars == "**")
    ensures Counted(stars + name) && !Separator(stars + name)
  {
    hide Segments, FindTop, Strip;
    var t := stars + name;
    StarredToken(stars, name);
    SegmentsOne(t);
    assert StripAll([t]) == [t];
  }

  lemma MarkerCounted(t: string)
    requires t == "/" || t == "*"
    ensures Counted(t)
  {
    hide Segments, Strip;
    assert FindTop(t, ',', TOP) == -1;
    SegmentsOne(t);
    StripSolid(t);
    assert StripAll([t]) == [t];
  }

  ghost predicate PiecesSolid(f: FunctionArgs)
    requires f.WellFormed()
  {
    && (forall i :: 0 <= i < |f.Positional()| ==> SolidPieces(PositionalText(f, i)))
    && (forall i :: 0 <= i < |f.kwonly| ==> SolidPieces(KeywordTexts(f)[i]))
  }

  lemma PositionalCounted(f: FunctionArgs, from: nat, to: nat)
    requires Named(f) && PiecesSolid(f) && from <= to <= |f.posonly| + |f.args|
    ensures AllCounted(PositionalTexts(f, from, to)) && Solid(PositionalTexts(f, from, to)) == to - from
  {
    hide Counted, Separator, SolidPieces, ArgText, WithDefault;
    var texts := PositionalTexts(f, from, to);
    forall i | 0 <= i < |texts| ensures Counted(texts[i]) && !Separator(texts[i]) {
      assert SolidPieces(PositionalText(f, from + i));
      ParamCounted(f.Positional()[from + i], f.DefaultOf(from + i));
    }
    AllSolid(texts);
  }

  lemma KeywordsCounted(f: FunctionArgs)
    requires Named(f) && PiecesSolid(f)
    ensures AllCounted(KeywordTexts(f)) && Solid(KeywordTexts(f)) == |f.kwonly|
  {
    hide Counted, Separator, SolidPieces, ArgText, WithDefault;
    var texts := KeywordTexts(f);
    forall i | 0 <= i < |texts| ensures Counted(texts[i]) && !Separator(texts[i]) {
      assert SolidPieces(KeywordTexts(f)[i]);
      ParamCounted(f.kwonly[i], f.kwDefaults[i]);
    }
    AllSolid(texts);
  }

  lemma MarkersCounted(f: FunctionArgs)
    requires Named(f)
    ensures AllCounted(SlashToken(f)) && AllCounted(StarToken(f)) && AllCounted(KwargToken(f))
    ensures Solid(SlashToken(f)) == 0
    ensures Solid(StarToken(f)) == |VariadicParam(f.vararg, VarPositional)|
    ensures Solid(KwargToken(f)) == |VariadicParam(f.kwarg, VarKeyword)|
  {
    hide Counted, Identifier;
    MarkerCounted("/");
    MarkerCounted("*");
    if f.vararg.Some? {
      StarCounted("*", f.vararg.value.name);
      AllSolid(StarToken(f));
    }
    if f.kwarg.Some? {
      StarCounted("**", f.kwarg.value.name);
      AllSolid(KwargToken(f));
    }
  }

  lemma TokensCounted(f: FunctionArgs)
    requires Named(f) && PiecesSolid(f)
    ensures AllCounted(Tokens(f)) && Solid(Tokens(f)) == |ParamsOf(f)|
  {
    hide Counted, Separator, SolidPieces, SlashToken, StarToken, KwargToken, PositionalText, Solid, VariadicParam;
    var n := |f.posonly|;
    var first, second := PositionalTexts(f, 0, n), PositionalTexts(f, n, n + |f.args|);
    PositionalCounted(f, 0, n);
    PositionalCounted(f, n, n + |f.args|);
    KeywordsCounted(f);
    MarkersCounted(f);
    SolidConcat(first, SlashToken(f));
    SolidConcat(first + SlashToken(f), second);
    SolidConcat(PositionalTokens(f), StarToken(f));
    SolidConcat(PositionalTokens(f) + StarToken(f), KeywordTexts(f));
    SolidConcat(PositionalTokens(f) + StarToken(f) + KeywordTexts(f), KwargToken(f));
  }

  /**
   Reading back what is printed recovers the declared parameters exactly if no printed
   parameter holds a top-level comma, and a top-level `=` exactly if it has a default.
   */
  lemma RoundTripExactly(f: FunctionArgs)
    requires Named(f) && Closing(Tokens(f)) && PiecesSolid(f)
    ensures ShapeOf(Printed(f)) == ParamsOf(f) <==> CommaFree(Tokens(f)) && DefaultsShow(f)
  {
    hide CommaFree, Closing, PiecesSolid, DefaultsShow, Tokens, ParamsOf, SplitTop, CutAll;
    if CommaFree(Tokens(f)) {
      ReadBack(f);
      ShownAsDeclared(f);
    } else {
      if Tokens(f) != [] {
        FirstToken(f);
      }
      SplitPrinted(Tokens(f));
      TokensCounted(f);
      CutCount(Tokens(f));
      var tokens := SplitTop(Printed(f));
      ShapeLength(tokens, BeforeSlash(tokens), false);
    }
  }

  // ----- the same in terms of the annotation and default texts

  ghost predicate Balanced(text: string) {
    Walk(TOP, text) == TOP && SolidPieces(text)
  }

  ghost predicate BalancedParam(a: Arg, default: Option<string>) {
    Identifier(a.name) && Balanced(a.annotation) && (default.Some? ==> Balanced(default.value))
  }

  ghost predicate BalancedTexts(f: FunctionArgs) {
    && f.WellFormed()
    && (forall i :: 0 <= i < |f.Positional()| ==> BalancedParam(f.Positional()[i], f.DefaultOf(i)))
    && (forall i :: 0 <= i < |f.kwonly| ==> BalancedParam(f.kwonly[i], f.kwDefaults[i]))
    && (f.vararg.Some? ==> Identifier(f.vararg.value.name))
    && (f.kwarg.Some? ==> Identifier(f.kwarg.value.name))
  }

  predicate HasComma(text: string) {
    FindTop(text, ',', TOP) != -1
  }

  // Neither text has a top-level comma, and an annotation without a default no `=`.
  predicate Clear(a: Arg, default: Option<string>) {
    && !HasComma(a.annotation) && (default.Some? ==> !HasComma(default.value))
    && (default.None? ==> !HasEquals(a.annotation))
  }

  ghost predicate ClearTexts(f: FunctionArgs)
    requires f.WellFormed()
  {
    && (forall i :: 0 <= i < |f.Positional()| ==> Clear(f.Positional()[i], f.DefaultOf(i)))
    && (forall i :: 0 <= i < |f.kwonly| ==> Clear(f.kwonly[i], f.kwDefaults[i]))
  }

  // The last piece of one text and the first piece of the next are one.
  function Glue(p: seq<string>, q: seq<string>): seq<string>
    requires p != [] && q != []
  {
    p[..|p| - 1] + [p[|p| - 1] + q[0]] + q[1..]
  }

  lemma GlueStep(c: char, rest: seq<string>, q: seq<string>)
    requires rest != [] && q != []
    ensures Glue([""] + rest, q) == [""] + Glue(rest, q)
    ensures Glue([[c] + rest[0]] + rest[1..], q) == [[c] + Glue(rest, q)[0]] + Glue(rest, q)[1..]
  {
    assert ([""] + rest)[..|rest|] == [""] + rest[..|rest| - 1];
    if |rest| == 1 {
      assert [c] + (rest[0] + q[0]) == [c] + rest[0] + q[0];
    } else {
      assert ([[c] + rest[0]] + rest[1..])[..|rest| - 1] == [[c] + rest[0]] + rest[1..|rest| - 1];
    }
  }

  lemma {:induction false} SegmentsGlued(a: string, b: string, d: Depth)
    ensures Segments(a + b, d) == Glue(Segments(a, d), Segments(b, Walk(d, a)))
    decreases a
  {
    hide Hit, Glue;
    var q := Segments(b, Walk(d, a));
    if a == "" {
      assert a + b == b;
      GlueNothing(q);
    } else {
      assert (a + b)[1..] == a[1..] + b;
      SegmentsGlued(a[1..], b, d.After(a[0]));
      GlueStep(a[0], Segments(a[1..], d.After(a[0])), q);
    }
  }

  lemma GlueNothing(q: seq<string>)
    requires q != []
    ensures Glue([""], q) == q
  {
    assert "" + q[0] == q[0];
  }

  // A mark between two texts keeps their later pieces solid.
  lemma GluedPieces(a: string, mark: string, b: string)
    requires mark == "=" || mark == ":"
    requires Walk(TOP, a) == TOP && SolidPieces(a) && SolidPieces(b)
    ensures SolidPieces(a + (mark + b))
  {
    hide Separator, Strip, FindTop, Walk, IsSpace;
    var p, q := Segments(a, TOP), Segments(b, TOP);
    MarkIsPlain(mark);
    SegmentsConcat(mark, b, TOP);
    SegmentsGlued(a, mark + b, TOP);
    var middle := p[|p| - 1] + (mark + q[0]);
    assert middle[|p[|p| - 1]|] == mark[0];
    SolidByMark(middle, |p[|p| - 1]|);
    var all := p[..|p| - 1] + [middle] + q[1..];
    assert Segments(a + (mark + b), TOP) == all;
    forall i | 1 <= i < |all| ensures !Separator(Strip(all[i])) {
      if i >= |p| {
        assert all[i] == q[i - |p| + 1];
      }
    }
  }

  lemma MarkIsPlain(mark: string)
    requires mark == "=" || mark == ":"
    ensures FindTop(mark, ',', TOP) == -1 && Walk(TOP, mark) == TOP
    ensures !IsSpace(mark[0]) && mark[0] != '*' && mark[0] != '/'
  {
  }

  lemma MarkTops(s: string)
    ensures Walk(TOP, "=" + s) == Walk(TOP, s) && Walk(TOP, ":" + s) == Walk(TOP, s)
    ensures HasComma("=" + s) == HasComma(s) == HasComma(":" + s)
    ensures HasEquals("=" + s) && HasEquals(":" + s) == HasEquals(s)
  {
    assert ("=" + s)[1..] == s && (":" + s)[1..] == s;
  }

  // Behind a balanced text the marks of the next one are found, and the brackets too.
  lemma Behind(a: string, b: string)
    requires Walk(TOP, a) == TOP
    ensures Walk(TOP, a + b) == Walk(TOP, b)
    ensures HasComma(a + b) <==> HasComma(a) || HasComma(b)
    ensures HasEquals(a + b) <==> HasEquals(a) || HasEquals(b)
  {
    hide FindTop, Walk;
    WalkConcat(TOP, a, b);
    FindTopConcat(a, b, ',', TOP);
    FindTopConcat(a, b, '=', TOP);
  }

  lemma NameQuiet(name: string)
    requires Identifier(name)
    ensures Walk(TOP, name) == TOP && !HasComma(name) && !HasEquals(name) && SolidPieces(name)
  {
    hide FindTop, Walk;
    NameIsPlain(name, ',', TOP);
    NameIsPlain(name, '=', TOP);
    SegmentsOne(name);
  }

  lemma ArgTextBalanced(a: Arg)
    requires Identifier(a.name) && Balanced(a.annotation)
    ensures Walk(TOP, ArgText(a)) == TOP && SolidPieces(ArgText(a))
    ensures HasComma(ArgText(a)) == HasComma(a.annotation) && HasEquals(ArgText(a)) == HasEquals(a.annotation)
  {
    hide Walk, Identifier, SolidPieces, HasComma, HasEquals;
    NameQuiet(a.name);
    if a.annotation == "" {
      EmptyQuiet();
    } else {
      MarkTops(a.annotation);
      Behind(a.name, ":" + a.annotation);
      GluedPieces(a.name, ":", a.annotation);
      assert ArgText(a) == a.name + (":" + a.annotation);
    }
  }

  lemma EmptyQuiet()
    ensures !HasComma("") && !HasEquals("")
  {
  }

  lemma ParamBalanced(a: Arg, default: Option<string>)
    requires BalancedParam(a, default)
    ensures var t := WithDefault(ArgText(a), default);
            && Walk(TOP, t) == TOP && SolidPieces(t)
            && (!HasComma(t) && (HasEquals(t) <==> default.Some?) <==> Clear(a, default))
  {
    hide Walk, Identifier, SolidPieces, HasComma, HasEquals, ArgText;
    ArgTextBalanced(a);
    if default.Some? {
      MarkTops(default.value);
      Behind(ArgText(a), "=" + default.value);
      GluedPieces(ArgText(a), "=", default.value);
      assert WithDefault(ArgText(a), default) == ArgText(a) + ("=" + default.value);
    }
  }

  ghost predicate NoCommas(tokens: seq<string>) {
    forall i :: 0 <= i < |tokens| ==> !HasComma(tokens[i])
  }

  ghost predicate AllBalanced(tokens: seq<string>) {
    forall i :: 0 <= i < |tokens| ==> Walk(TOP, tokens[i]) == TOP
  }

  lemma MarkersBalanced(f: FunctionArgs)
    requires BalancedTexts(f)
    ensures AllBalanced(SlashToken(f)) && AllBalanced(StarToken(f)) && AllBalanced(KwargToken(f))
    ensures NoCommas(SlashToken(f)) && NoCommas(StarToken(f)) && NoCommas(KwargToken(f))
  {
    StarsQuiet();
    if f.vararg.Some? {
      NameQuiet(f.vararg.value.name);
      Behind("*", f.vararg.value.name);
    }
    if f.kwarg.Some? {
      NameQuiet(f.kwarg.value.name);
      Behind("**", f.kwarg.value.name);
    }
  }

  lemma StarsQuiet()
    ensures Walk(TOP, "*") == Walk(TOP, "**") == Walk(TOP, "/") == TOP
    ensures !HasComma("*") && !HasComma("**") && !HasComma("/")
  {
    assert "**"[1..] == "*";
  }

  lemma PositionalBalanced(f: FunctionArgs, i: nat)
    requires BalancedTexts(f) && i < |f.posonly| + |f.args|
    ensures Walk(TOP, PositionalText(f, i)) == TOP && SolidPieces(PositionalText(f, i))
    ensures !HasComma(PositionalText(f, i)) && (HasEquals(PositionalText(f, i)) <==> f.DefaultOf(i).Some?)
       <==> Clear(f.Positional()[i], f.DefaultOf(i))
  {
    hide BalancedParam, Walk, SolidPieces, HasComma, HasEquals, Clear, ArgText, WithDefault;
    ParamBalanced(f.Positional()[i], f.DefaultOf(i));
  }

  lemma KeywordBalanced(f: FunctionArgs, i: nat)
    requires BalancedTexts(f) && i < |f.kwonly|
    ensures Walk(TOP, KeywordTexts(f)[i]) == TOP && SolidPieces(KeywordTexts(f)[i])
    ensures !HasComma(KeywordTexts(f)[i]) && (HasEquals(KeywordTexts(f)[i]) <==> f.kwDefaults[i].Some?)
       <==> Clear(f.kwonly[i], f.kwDefaults[i])
  {
    hide BalancedParam, Walk, SolidPieces, HasComma, HasEquals, Clear, ArgText, WithDefault;
    ParamBalanced(f.kwonly[i], f.kwDefaults[i]);
  }

  lemma TokensBalanced(f: FunctionArgs)
    requires BalancedTexts(f)
    ensures Named(f) && PiecesSolid(f) && Closing(Tokens(f))
  {
    hide Identifier, Walk, SolidPieces, HasComma, HasEquals, PositionalText, SlashToken, StarToken, KwargToken;
    forall i | 0 <= i < |f.Positional()|
      ensures Identifier(f.Positional()[i].name) && SolidPieces(PositionalText(f, i))
          && Walk(TOP, PositionalText(f, i)) == TOP
    {
      PositionalBalanced(f, i);
    }
    forall i | 0 <= i < |f.kwonly|
      ensures Identifier(f.kwonly[i].name) && SolidPieces(KeywordTexts(f)[i]) && Walk(TOP, KeywordTexts(f)[i]) == TOP
    {
      KeywordBalanced(f, i);
    }
    MarkersBalanced(f);
    assert AllBalanced(PositionalTokens(f));
    assert AllBalanced(KeywordTexts(f));
    assert AllBalanced(Tokens(f));
  }

  lemma CommasInTexts(f: FunctionArgs)
    requires BalancedTexts(f)
    ensures CommaFree(Tokens(f)) <==>
            && (forall i :: 0 <= i < |f.Positional()| ==> !HasComma(PositionalText(f, i)))
            && NoCommas(KeywordTexts(f))
  {
    hide Walk, FindTop, PositionalText, SlashToken, StarToken, KwargToken, BalancedParam;
    MarkersBalanced(f);
    var n, m := |f.posonly|, |f.posonly| + |f.args|;
    var first, second := PositionalTexts(f, 0, n), PositionalTexts(f, n, m);
    NoCommasConcat(first, SlashToken(f));
    NoCommasConcat(first + SlashToken(f), second);
    NoCommasConcat(PositionalTokens(f), StarToken(f));
    NoCommasConcat(PositionalTokens(f) + StarToken(f), KeywordTexts(f));
    NoCommasConcat(PositionalTokens(f) + StarToken(f) + KeywordTexts(f), KwargToken(f));
    assert CommaFree(Tokens(f)) <==> NoCommas(Tokens(f));
    PositionalCommas(f, 0, n);
    PositionalCommas(f, n, m);
  }

  lemma PositionalCommas(f: FunctionArgs, from: nat, to: nat)
    requires from <= to <= |f.posonly| + |f.args|
    ensures NoCommas(PositionalTexts(f, from, to)) <==> forall i :: from <= i < to ==> !HasComma(PositionalText(f, i))
  {
    hide HasComma, PositionalText;
    var texts := PositionalTexts(f, from, to);
    forall i | from <= i < to ensures texts[i - from] == PositionalText(f, i) {
    }
  }

  lemma NoCommasConcat(a: seq<string>, b: seq<string>)
    ensures NoCommas(a + b) <==> NoCommas(a) && NoCommas(b)
  {
    hide HasComma;
    assert forall i :: 0 <= i < |a| ==> (a + b)[i] == a[i];
    assert forall i :: 0 <= i < |b| ==> (a + b)[|a| + i] == b[i];
  }

  /**
   For texts with balanced brackets: what is printed is read back exactly if no
   annotation or default has a comma outside brackets, and no annotation without a
   default an `=` outside brackets.
   */
  lemma RoundTripOfTexts(f: FunctionArgs)
    requires BalancedTexts(f)
    ensures ShapeOf(Printed(f)) == ParamsOf(f) <==> ClearTexts(f)
  {
    hide Walk, FindTop, PositionalText, Clear, HasEquals, HasComma, ParamsOf, ShapeOf, Printed, Named, Closing,
        PiecesSolid;
    TokensBalanced(f);
    RoundTripExactly(f);
    CommasInTexts(f);
    forall i | 0 <= i < |f.Positional()|
      ensures !HasComma(PositionalText(f, i)) && (HasEquals(PositionalText(f, i)) <==> f.DefaultOf(i).Some?)
         <==> Clear(f.Positional()[i], f.DefaultOf(i))
    {
      PositionalBalanced(f, i);
    }
    forall i | 0 <= i < |f.kwonly|
      ensures !HasComma(KeywordTexts(f)[i]) && (HasEquals(KeywordTexts(f)[i]) <==> f.kwDefaults[i].Some?)
         <==> Clear(f.kwonly[i], f.kwDefaults[i])
    {
      KeywordBalanced(f, i);
    }
  }
}
