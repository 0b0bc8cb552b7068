/**
 Print, then parse: the comparison reads back from an extracted signature exactly
 the parameters of the function it was extracted from.  Together with the
 soundness of the comparison this makes the gate's verdict on two texts a
 statement about calls of the two functions.
 */
module SignatureRoundTrip {
  import opened Text
  import opened SignatureCalls
  import opened SignatureShape
  import opened SignatureText
  import opened SignaturePrinter

  // ----- which functions print without ambiguity

  predicate NameChar(c: char) {
    !IsSpace(c) && !IsBracket(c) && !Mark(c) && c != '*' && c != '/'
  }

  // The characters the parser looks for at top level.
  predicate Mark(c: char) {
    c == ',' || c == ':' || c == '='
  }

  predicate Identifier(s: string) {
    s != "" && forall i :: 0 <= i < |s| ==> NameChar(s[i])
  }

  // Every printed parameter but the last one closes the brackets it opens.
  ghost predicate Closing(tokens: seq<string>) {
    forall i :: 0 <= i < |tokens| - 1 ==> Walk(TOP, tokens[i]) == TOP
  }

  ghost predicate CommaFree(tokens: seq<string>) {
    forall i :: 0 <= i < |tokens| ==> FindTop(tokens[i], ',', TOP) == -1
  }

  ghost predicate Named(f: FunctionArgs) {
    && f.WellFormed()
    && (forall i :: 0 <= i < |f.Positional()| ==> Identifier(f.Positional()[i].name))
    && (forall i :: 0 <= i < |f.kwonly| ==> Identifier(f.kwonly[i].name))
    && (f.vararg.Some? ==> Identifier(f.vararg.value.name))
    && (f.kwarg.Some? ==> Identifier(f.kwarg.value.name))
  }

  ghost predicate Splittable(f: FunctionArgs) {
    Named(f) && Closing(Tokens(f)) && CommaFree(Tokens(f))
  }

  // A top-level `=` is printed exactly for the parameters with a default.
  ghost predicate DefaultsShow(f: FunctionArgs)
    requires f.WellFormed()
  {
    PositionalShow(f, 0, |f.Positional()|) && KeywordsShow(f)
  }

  ghost predicate PositionalShow(f: FunctionArgs, from: nat, to: nat)
    requires from <= to <= |f.posonly| + |f.args|
  {
    forall i :: from <= i < to ==> (HasEquals(PositionalText(f, i)) <==> f.DefaultOf(i).Some?)
  }

  ghost predicate KeywordsShow(f: FunctionArgs)
    requires f.WellFormed()
  {
    forall i :: 0 <= i < |f.kwonly| ==> (HasEquals(KeywordTexts(f)[i]) <==> f.kwDefaults[i].Some?)
  }

  predicate HasEquals(text: string) {
    FindTop(text, '=', TOP) != -1
  }

  ghost predicate Printable(f: FunctionArgs) {
    Splittable(f) && DefaultsShow(f)
  }

  // ----- the parameters a function definition declares

  // Whether an argument must be passed: as declared, or as its printed text shows it.
  datatype View = Declared | Shown

  predicate Required(a: Arg, default: Option<string>, view: View) {
    match view
    case Declared => default.None?
    case Shown => !HasEquals(WithDefault(ArgText(a), default))
  }

  function PositionalParams(f: FunctionArgs, from: nat, to: nat, kind: Kind, view: View): (r: Shape)
    requires from <= to <= |f.posonly| + |f.args|
    ensures |r| == to - from
    ensures forall i :: 0 <= i < |r| ==>
              r[i] == Param(f.Positional()[from + i].name, kind,
                  Required(f.Positional()[from + i], f.DefaultOf(from + i), view))
  {
    seq(to - from, i requires 0 <= i < to - from =>
      Param(f.Positional()[from + i].name, kind, Required(f.Positional()[from + i], f.DefaultOf(from + i), view)))
  }

  function KeywordParams(f: FunctionArgs, view: View): (r: Shape)
    requires f.WellFormed()
    ensures |r| == |f.kwonly|
    ensures forall i :: 0 <= i < |r| ==>
              r[i] == Param(f.kwonly[i].name, KeywordOnly, Required(f.kwonly[i], f.kwDefaults[i], view))
  {
    seq(|f.kwonly|, i requires 0 <= i < |f.kwonly| =>
      Param(f.kwonly[i].name, KeywordOnly, Required(f.kwonly[i], f.kwDefaults[i], view)))
  }

  function VariadicParam(a: Option<Arg>, kind: Kind): Shape {
    match a
    case None => []
    case Some(x) => [Param(x.name, kind, false)]
  }

  function ParamsAs(f: FunctionArgs, view: View): Shape
    requires f.WellFormed()
  {
    var n := |f.posonly|;
    PositionalParams(f, 0, n, PositionalOnly, view)
    + PositionalParams(f, n, n + |f.args|, PositionalOrKeyword, view)
    + VariadicParam(f.vararg, VarPositional)
    + KeywordParams(f, view)
    + VariadicParam(f.kwarg, VarKeyword)
  }

  function ParamsOf(f: FunctionArgs): Shape
    requires f.WellFormed()
  {
    ParamsAs(f, Declared)
  }

  // ----- scanning a concatenation

  lemma {:induction false} WalkConcat(d: Depth, a: string, b: string)
    ensures Walk(d, a + b) == Walk(Walk(d, a), b)
    decreases a
  {
    if a == "" {
      assert a + b == b;
    } else {
      assert (a + b)[1..] == a[1..] + b;
      WalkConcat(d.After(a[0]), a[1..], b);
    }
  }

  lemma {:induction false} FindTopConcat(a: string, b: string, target: char, d: Depth)
    ensures FindTop(a, target, d) != -1 ==> FindTop(a + b, target, d) == FindTop(a, target, d)
    ensures FindTop(a, target, d) == -1 ==>
              var r := FindTop(b, target, Walk(d, a));
              FindTop(a + b, target, d) == if r == -1 then -1 else |a| + r
    decreases a
  {
    if a == "" {
      assert a + b == b;
    } else {
      assert (a + b)[1..] == a[1..] + b;
      FindTopConcat(a[1..], b, target, d.After(a[0]));
    }
  }

  lemma {:induction false} NameIsPlain(s: string, target: char, d: Depth)
    requires forall i :: 0 <= i < |s| ==> NameChar(s[i]) || s[i] == '*'
    requires Mark(target)
    ensures Walk(d, s) == d && FindTop(s, target, d) == -1
    decreases s
  {
    if s != "" {
      NameIsPlain(s[1..], target, d.After(s[0]));
    }
  }

  lemma {:induction false} SpaceIsPlain(s: string, target: char, d: Depth)
    requires forall i :: 0 <= i < |s| ==> IsSpace(s[i])
    requires Mark(target)
    ensures Walk(d, s) == d && FindTop(s, target, d) == -1
    decreases s
  {
    if s != "" {
      SpaceIsPlain(s[1..], target, d.After(s[0]));
    }
  }

  lemma {:induction false} SegmentsConcat(t: string, rest: string, d: Depth)
    requires FindTop(t, ',', d) == -1
    ensures var r := Segments(rest, Walk(d, t));
            Segments(t + rest, d) == [t + r[0]] + r[1..]
    decreases t
  {
    var r := Segments(rest, Walk(d, t));
    if t == "" {
      assert t + rest == rest && t + r[0] == r[0] && [r[0]] + r[1..] == r;
    } else {
      assert (t + rest)[1..] == t[1..] + rest;
      SegmentsConcat(t[1..], rest, d.After(t[0]));
      assert [t[0]] + (t[1..] + r[0]) == t + r[0];
    }
  }

  // The pieces the parser cuts a list of tokens into.
  function CutAll(tokens: seq<string>): seq<string> {
    if tokens == [] then [] else StripAll(Segments(tokens[0], TOP)) + CutAll(tokens[1..])
  }

  lemma StripPadded(pad: string, s: string)
    requires AllSpace(pad)
    ensures Strip(pad + s) == Strip(s)
  {
    var k := LeadingSpace(pad + s);
    LeadingSpaceIs(pad + s, |pad| + LeadingSpace(s));
    assert (pad + s)[k..] == s[LeadingSpace(s)..];
  }

  lemma LeadingSpaceIs(s: string, k: nat)
    requires k <= |s| && AllSpace(s[..k]) && (k < |s| ==> !IsSpace(s[k]))
    ensures LeadingSpace(s) == k
  {
    assert forall i :: 0 <= i < k ==> s[i] == s[..k][i];
  }

  lemma SegmentsOne(head: string)
    requires FindTop(head, ',', TOP) == -1
    ensures Segments(head, TOP) == [head]
  {
    SegmentsConcat(head, "", TOP);
    assert head + "" == head;
  }

  lemma CommaCuts()
    ensures Hit(',', ',', TOP) && TOP.After(',') == TOP
  {
  }

  // A comma behind a text that closes its brackets is a cut.
  lemma {:induction false} SegmentsCut(head: string, rest: string, d: Depth)
    requires Walk(d, head) == TOP
    ensures Segments(head + "," + rest, d) == Segments(head, d) + Segments(rest, TOP)
    decreases head
  {
    hide Hit, IsBracket;
    CommaCuts();
    var full := head + "," + rest;
    if head == "" {
      assert full[1..] == rest;
    } else {
      var tail := head[1..] + "," + rest;
      assert full[1..] == tail;
      SegmentsCut(head[1..], rest, d.After(head[0]));
      assert Segments(tail, d.After(head[0])) == Segments(head[1..], d.After(head[0])) + Segments(rest, TOP);
    }
  }

  lemma PaddedSegments(pad: string, t: string)
    requires pad == "" || pad == " "
    ensures StripAll(Segments(pad + t, TOP)) == StripAll(Segments(t, TOP)) && Walk(TOP, pad + t) == Walk(TOP, t)
  {
    hide Strip, Segments, Walk, FindTop, LeadingSpace;
    SpaceIsPlain(pad, ',', TOP);
    WalkConcat(TOP, pad, t);
    SegmentsConcat(pad, t, TOP);
    var r := Segments(t, TOP);
    StripPadded(pad, r[0]);
    assert StripAll([pad + r[0]] + r[1..]) == StripAll(r);
  }

  lemma StripAllConcat(a: seq<string>, b: seq<string>)
    ensures StripAll(a + b) == StripAll(a) + StripAll(b)
  {
    hide Strip;
  }

  lemma {:induction false} SplitJoined(tokens: seq<string>, pad: string)
    requires tokens != [] && Closing(tokens)
    requires pad == "" || pad == " "
    ensures StripAll(Segments(pad + Join(tokens, ", "), TOP)) == CutAll(tokens)
  {
    hide Strip, Segments, Walk;
    var head := pad + tokens[0];
    PaddedSegments(pad, tokens[0]);
    if |tokens| == 1 {
      assert CutAll(tokens[1..]) == [];
    } else {
      var rest := " " + Join(tokens[1..], ", ");
      assert pad + Join(tokens, ", ") == head + "," + rest;
      SegmentsCut(head, rest, TOP);
      SplitJoined(tokens[1..], " ");
      StripAllConcat(Segments(head, TOP), Segments(rest, TOP));
    }
  }

  lemma {:induction false} CutQuiet(tokens: seq<string>)
    requires CommaFree(tokens)
    ensures CutAll(tokens) == StripAll(tokens)
  {
    hide Strip, Segments, FindTop;
    if tokens != [] {
      SegmentsOne(tokens[0]);
      CutQuiet(tokens[1..]);
      assert StripAll(tokens) == [Strip(tokens[0])] + StripAll(tokens[1..]);
    }
  }

  lemma UnwrapPrinted(body: string)
    ensures Unwrap("(" + body + ")") == body
  {
    hide LeadingSpace, SolidLength, LStrip, RStrip;
    var sig := "(" + body + ")";
    assert sig[0] == '(' && sig[|sig| - 1] == ')' && sig[1..|sig| - 1] == body;
    StripSolid(sig);
  }

  lemma {:induction false} SplitPrinted(tokens: seq<string>)
    requires Closing(tokens) && (tokens != [] ==> tokens[0] != "")
    ensures SplitTop("(" + Join(tokens, ", ") + ")") == CutAll(tokens)
  {
    hide Segments, Unwrap, Strip;
    var body := Join(tokens, ", ");
    UnwrapPrinted(body);
    if tokens != [] {
      SplitJoined(tokens, "");
      assert "" + body == body;
      assert |body| >= |tokens[0]|;
    }
  }

  // ----- one printed token

  // What is printed behind the name.
  function Suffix(a: Arg, default: Option<string>): string {
    (if a.annotation == "" then "" else ":" + a.annotation) + (if default.None? then "" else "=" + default.value)
  }

  lemma SuffixPrinted(a: Arg, default: Option<string>)
    ensures WithDefault(ArgText(a), default) == a.name + Suffix(a, default)
  {
  }

  // A name holds no mark and no bracket, so scanning starts behind it.
  lemma BehindName(name: string, suffix: string, target: char)
    requires Identifier(name) && Mark(target)
    ensures FindTop(name + suffix, target, TOP)
         == var r := FindTop(suffix, target, TOP); if r == -1 then -1 else |name| + r
  {
    NameIsPlain(name, target, TOP);
    FindTopConcat(name, suffix, target, TOP);
  }

  // Dropping trailing white space moves no top-level mark.
  lemma FindTopRStrip(s: string, target: char)
    requires Mark(target)
    ensures FindTop(RStrip(s), target, TOP) == FindTop(s, target, TOP)
  {
    var r := RStrip(s);
    assert s == r + s[|r|..];
    FindTopConcat(r, s[|r|..], target, TOP);
    SpaceIsPlain(s[|r|..], target, Walk(TOP, r));
  }

  lemma SolidStart(a: Arg, default: Option<string>)
    requires Identifier(a.name)
    ensures var full := WithDefault(ArgText(a), default);
            && full != "" && full[0] == a.name[0] && NameChar(full[0])
            && Strip(full) == RStrip(full) && Strip(Strip(full)) == Strip(full)
            && Strip(full) != "" && Strip(full)[0] == full[0]
  {
    hide SolidLength, LeadingSpace;
    var full := WithDefault(ArgText(a), default);
    SuffixPrinted(a, default);
    StripLeading("", full);
    assert "" + full == full;
    StripTwice(full);
  }

  // A text cut before its top-level `=` keeps an earlier top-level `:`.
  lemma ColonBefore(s: string, e: nat, c: nat)
    requires c < e <= |s| && FindTop(s, ':', TOP) == c
    ensures FindTop(RStrip(s[..e]), ':', TOP) == c
  {
    hide RStrip;
    assert s == s[..e] + s[e..];
    FindTopConcat(s[..e], s[e..], ':', TOP);
    FindTopRStrip(s[..e], ':');
  }

  lemma NameIsSolid(name: string)
    requires Identifier(name)
    ensures Strip(name) == name && RStrip(name) == name
  {
    StripSolid(name);
    RStripIsLongest(name, |name|);
    assert name[..|name|] == name;
  }

  lemma AnnotatedName(a: Arg, default: Option<string>)
    requires Identifier(a.name) && a.annotation != ""
    ensures NameOf(RStrip(WithDefault(ArgText(a), default))) == a.name
  {
    hide SolidLength, LeadingSpace, IsSpace, FindTop, Identifier, ArgText, WithDefault, Suffix;
    var full := WithDefault(ArgText(a), default);
    var t, n := RStrip(full), |a.name|;
    SuffixPrinted(a, default);
    ColonFirst(a, default);
    FindTopRStrip(full, ':');
    FindTopRStrip(full, '=');
    var e := FindTop(t, '=', TOP);
    assert t[..n] == a.name;
    NameIsSolid(a.name);
    SolidStart(a, default);
    if e != -1 {
      ColonBefore(t, e, n);
      SolidPrefix(t, e);
      assert RStrip(t[..e])[..n] == a.name;
    }
  }

  lemma ColonFirst(a: Arg, default: Option<string>)
    requires Identifier(a.name) && a.annotation != ""
    ensures var full := WithDefault(ArgText(a), default);
            && FindTop(full, ':', TOP) == |a.name|
            && (FindTop(full, '=', TOP) == -1 || FindTop(full, '=', TOP) > |a.name|)
  {
    SuffixPrinted(a, default);
    BehindName(a.name, Suffix(a, default), ':');
    BehindName(a.name, Suffix(a, default), '=');
    assert Suffix(a, default)[0] == ':';
  }

  lemma EqualsFirst(a: Arg, default: Option<string>)
    requires Identifier(a.name) && a.annotation == ""
    ensures FindTop(WithDefault(ArgText(a), default), '=', TOP) == if default.Some? then |a.name| else -1
    ensures forall i :: 0 <= i < |a.name| ==> NameChar(a.name[i])
  {
    SuffixPrinted(a, default);
    BehindName(a.name, Suffix(a, default), '=');
  }

  lemma SolidPrefix(s: string, e: nat)
    requires 0 < e <= |s| && !IsSpace(s[0])
    ensures Strip(s[..e]) == RStrip(s[..e])
  {
    StripLeading("", s[..e]);
    assert "" + s[..e] == s[..e];
  }

  lemma BareName(a: Arg, default: Option<string>)
    requires Identifier(a.name) && a.annotation == ""
    ensures NameOf(RStrip(WithDefault(ArgText(a), default))) == a.name
  {
    hide Strip, SolidLength, IsSpace, FindTop, Identifier;
    var full, n := WithDefault(ArgText(a), default), |a.name|;
    EqualsFirst(a, default);
    FindTopRStrip(full, '=');
    NameIsPlain(a.name, ':', TOP);
    NameIsSolid(a.name);
    if default.Some? {
      SolidStart(a, default);
      SuffixPrinted(a, default);
      assert RStrip(full)[..n] == full[..n] == a.name;
    }
  }

  // Whatever is printed behind it, the name is read back; the flag shows a top-level `=`.
  lemma ParamTextShape(a: Arg, default: Option<string>, beforeSlash: bool, kwOnlyMode: bool)
    requires Identifier(a.name)
    ensures var t := Strip(WithDefault(ArgText(a), default));
            && !Separator(t) && !StartsKeywordOnly(t)
            && TokenShape(t, beforeSlash, kwOnlyMode)
            == Param(a.name,
                     if beforeSlash then PositionalOnly else if kwOnlyMode then KeywordOnly else PositionalOrKeyword,
                     Required(a, default, Shown))
  {
    hide FindTop, Strip, RStrip, NameOf, ArgText, WithDefault;
    SolidStart(a, default);
    FindTopRStrip(WithDefault(ArgText(a), default), '=');
    if a.annotation == "" {
      BareName(a, default);
    } else {
      AnnotatedName(a, default);
    }
  }

  // `*args` and `**kwargs` are printed bare.
  lemma StarredToken(stars: string, name: string)
    requires Identifier(name) && (stars == "*" || stars == "**")
    ensures FindTop(stars + name, ',', TOP) == -1 && Strip(stars + name) == stars + name
    ensures Strip((stars + name)[|stars|..]) == name && NameOf(name) == name
  {
    var t := stars + name;
    NameIsPlain(t, ',', TOP);
    StripSolid(t);
    assert t[|stars|..] == name;
    StripSolid(name);
    NameIsPlain(name, '=', TOP);
    NameIsPlain(name, ':', TOP);
  }


  /** An annotated `*args` or `**kwargs` is read by its name and kind, too. */
  lemma StarredAnnotated(stars: string, a: Arg, beforeSlash: bool, kwOnlyMode: bool)
    requires Identifier(a.name) && (stars == "*" || stars == "**")
    requires a.annotation != "" && !IsSpace(a.annotation[|a.annotation| - 1])
    ensures TokenShape(stars + ArgText(a), beforeSlash, kwOnlyMode)
         == Param(a.name, if stars == "*" then VarPositional else VarKeyword, false)
  {
    hide NameOf, RStrip, LStrip, ArgText;
    var t := stars + ArgText(a);
    ArgTextEnds(a);
    SolidStart(a, None);
    StripSolid(t);
    assert t[|stars|..] == ArgText(a) && WithDefault(ArgText(a), None) == ArgText(a);
    assert t[0] == '*' && (stars == "*" ==> t[1] == a.name[0]);
    StripSolid(ArgText(a));
    AnnotatedName(a, None);
  }

  lemma ArgTextEnds(a: Arg)
    requires a.annotation != "" && Identifier(a.name)
    ensures ArgText(a) != "" && ArgText(a)[|ArgText(a)| - 1] == a.annotation[|a.annotation| - 1]
    ensures ArgText(a)[0] == a.name[0]
  {
  }

  // ----- the whole list

  ghost predicate ReadsAs(t: string, p: Param) {
    && !Separator(t) && !StartsKeywordOnly(t)
    && (p.kind == PositionalOnly ==> forall kw :: TokenShape(t, true, kw) == p)
    && (p.kind == PositionalOrKeyword ==> TokenShape(t, false, false) == p)
    && (p.kind == KeywordOnly ==> TokenShape(t, false, true) == p)
    && !p.kind.Variadic()
  }

  // A run of parameters of one kind, then the rest of the list.
  lemma {:induction false} RunShape(tokens: seq<string>, params: Shape, rest: seq<string>, slash: nat, kwOnlyMode: bool)
    requires |tokens| == |params| && forall i :: 0 <= i < |tokens| ==> ReadsAs(tokens[i], params[i])
    requires forall i :: 0 <= i < |params| ==>
               params[i].kind ==
               if slash > 0 then PositionalOnly else if kwOnlyMode then KeywordOnly else PositionalOrKeyword
    requires slash == 0 || slash >= |tokens|
    ensures TokensShape(tokens + rest, slash, kwOnlyMode)
         == params + TokensShape(rest, if slash == 0 then 0 else slash - |tokens|, kwOnlyMode)
  {
    hide TokenShape, Separator, StartsKeywordOnly;
    if tokens == [] {
      assert tokens + rest == rest
          && params + TokensShape(rest, slash, kwOnlyMode) == TokensShape(rest, slash, kwOnlyMode);
    } else {
      assert (tokens + rest)[0] == tokens[0] && (tokens + rest)[1..] == tokens[1..] + rest;
      assert ReadsAs(tokens[0], params[0]);
      if slash == 1 {
        assert tokens[1..] == [] && params[1..] == [] && tokens[1..] + rest == rest;
        assert params == [params[0]];
      } else {
        RunShape(tokens[1..], params[1..], rest, if slash == 0 then 0 else slash - 1, kwOnlyMode);
        assert params == [params[0]] + params[1..];
      }
    }
  }

  lemma {:induction false} PositionalReads(f: FunctionArgs, i: nat, kind: Kind)
    requires Named(f) && i < |f.posonly| + |f.args|
    requires kind == PositionalOnly || kind == PositionalOrKeyword
    ensures ReadsAs(Strip(PositionalText(f, i)),
                    Param(f.Positional()[i].name, kind, Required(f.Positional()[i], f.DefaultOf(i), Shown)))
  {
    hide Strip, TokenShape, Separator, StartsKeywordOnly, ArgText, WithDefault, Required, Identifier;
    var a, d := f.Positional()[i], f.DefaultOf(i);
    forall bs, kw ensures TokenShape(Strip(WithDefault(ArgText(a), d)), bs, kw)
                       == Param(a.name, if bs then PositionalOnly else if kw then KeywordOnly else PositionalOrKeyword,
                                Required(a, d, Shown))
    {
      ParamTextShape(a, d, bs, kw);
    }
    ParamTextShape(a, d, true, true);
  }

  lemma {:induction false} KeywordReads(f: FunctionArgs, i: nat)
    requires Named(f) && i < |f.kwonly|
    ensures ReadsAs(Strip(KeywordTexts(f)[i]), KeywordParams(f, Shown)[i])
  {
    hide Strip, TokenShape, Separator, StartsKeywordOnly, ArgText, WithDefault, Required, Identifier;
    ParamTextShape(f.kwonly[i], f.kwDefaults[i], false, true);
  }

  lemma FirstIndex(tokens: seq<string>, token: string, i: nat)
    requires i < |tokens| && tokens[i] == token && forall j :: 0 <= j < i ==> tokens[j] != token
    ensures IndexOf(tokens, token) == i
  {
  }

  // The pieces of the printed list, as the parser sees them.
  ghost predicate Pieces(f: FunctionArgs, posonly: seq<string>, args: seq<string>, kwonly: seq<string>)
    requires f.WellFormed()
  {
    var n := |f.posonly|;
    && posonly == StripAll(PositionalTexts(f, 0, n))
    && args == StripAll(PositionalTexts(f, n, n + |f.args|))
    && kwonly == StripAll(KeywordTexts(f))
  }

  lemma MarkerTokens(f: FunctionArgs)
    requires Named(f)
    ensures StripAll(SlashToken(f)) == SlashToken(f)
    ensures StripAll(StarToken(f)) == StarToken(f)
    ensures StripAll(KwargToken(f)) == KwargToken(f)
  {
    hide Strip;
    StripSolid("/");
    StripSolid("*");
    if f.vararg.Some? {
      StarredToken("*", f.vararg.value.name);
    }
    if f.kwarg.Some? {
      StarredToken("**", f.kwarg.value.name);
    }
  }

  lemma FirstToken(f: FunctionArgs)
    requires Named(f) && Tokens(f) != []
    ensures Tokens(f)[0] != ""
  {
    hide ArgText, WithDefault, Strip, RStrip;
    if f.Positional() != [] {
      SolidStart(f.Positional()[0], f.DefaultOf(0));
    }
  }

  lemma PrintedTokens(f: FunctionArgs, posonly: seq<string>, args: seq<string>, kwonly: seq<string>)
    requires Splittable(f) && Pieces(f, posonly, args, kwonly)
    ensures SplitTop(Printed(f)) == posonly + SlashToken(f) + args + StarToken(f) + kwonly + KwargToken(f)
  {
    hide Strip, SplitTop, Join, SlashToken, StarToken, KwargToken, CutAll, CommaFree, Closing, Tokens, StripAll, Pieces;
    if Tokens(f) != [] {
      FirstToken(f);
    }
    SplitPrinted(Tokens(f));
    CutQuiet(Tokens(f));
    StrippedTokens(f, posonly, args, kwonly);
  }

  lemma StrippedTokens(f: FunctionArgs, posonly: seq<string>, args: seq<string>, kwonly: seq<string>)
    requires Named(f) && Pieces(f, posonly, args, kwonly)
    ensures StripAll(Tokens(f)) == posonly + SlashToken(f) + args + StarToken(f) + kwonly + KwargToken(f)
  {
    hide Strip, StripAll, PositionalTexts, KeywordTexts, SlashToken, StarToken, KwargToken;
    MarkerTokens(f);
    var n := |f.posonly|;
    var first, second := PositionalTexts(f, 0, n), PositionalTexts(f, n, n + |f.args|);
    StripAllConcat(first, SlashToken(f));
    StripAllConcat(first + SlashToken(f), second);
    StripAllConcat(PositionalTokens(f), StarToken(f));
    StripAllConcat(PositionalTokens(f) + StarToken(f), KeywordTexts(f));
    StripAllConcat(PositionalTokens(f) + StarToken(f) + KeywordTexts(f), KwargToken(f));
  }

  // ----- reading the pieces back

  lemma {:induction false} PiecesRead(f: FunctionArgs, posonly: seq<string>, args: seq<string>, kwonly: seq<string>)
    requires Named(f) && Pieces(f, posonly, args, kwonly)
    ensures var p := PositionalParams(f, 0, |f.posonly|, PositionalOnly, Shown);
            |posonly| == |p| && forall i :: 0 <= i < |p| ==> ReadsAs(posonly[i], p[i])
    ensures var p := PositionalParams(f, |f.posonly|, |f.posonly| + |f.args|, PositionalOrKeyword, Shown);
            |args| == |p| && forall i :: 0 <= i < |p| ==> ReadsAs(args[i], p[i])
    ensures |kwonly| == |f.kwonly| && forall i :: 0 <= i < |kwonly| ==> ReadsAs(kwonly[i], KeywordParams(f, Shown)[i])
  {
    hide Strip, PositionalText, ReadsAs;
    forall i | 0 <= i < |f.posonly|
      ensures ReadsAs(posonly[i], PositionalParams(f, 0, |f.posonly|, PositionalOnly, Shown)[i])
    {
      PositionalReads(f, i, PositionalOnly);
    }
    forall i | 0 <= i < |f.args|
      ensures ReadsAs(args[i], PositionalParams(f, |f.posonly|, |f.posonly| + |f.args|, PositionalOrKeyword, Shown)[i])
    {
      PositionalReads(f, |f.posonly| + i, PositionalOrKeyword);
    }
    forall i | 0 <= i < |f.kwonly| ensures ReadsAs(kwonly[i], KeywordParams(f, Shown)[i]) {
      KeywordReads(f, i);
    }
  }

  ghost predicate NoSlash(tokens: seq<string>) {
    forall j :: 0 <= j < |tokens| ==> tokens[j] != "/"
  }

  lemma ReadsNoSlash(tokens: seq<string>, params: Shape)
    requires |tokens| == |params| && forall i :: 0 <= i < |tokens| ==> ReadsAs(tokens[i], params[i])
    ensures NoSlash(tokens)
  {
    hide TokenShape, StartsKeywordOnly;
    forall j | 0 <= j < |tokens| ensures tokens[j] != "/" {
      assert ReadsAs(tokens[j], params[j]);
    }
  }

  lemma VariadicNoSlash(f: FunctionArgs)
    ensures NoSlash(StarToken(f)) && NoSlash(KwargToken(f))
  {
    assert forall j :: 0 <= j < |StarToken(f)| ==> StarToken(f)[j][0] == '*';
    assert forall j :: 0 <= j < |KwargToken(f)| ==> KwargToken(f)[j][0] == '*';
  }

  lemma {:induction false} SlashFound(f: FunctionArgs, posonly: seq<string>, args: seq<string>, kwonly: seq<string>)
    requires Named(f) && Pieces(f, posonly, args, kwonly)
    ensures BeforeSlash(posonly + SlashToken(f) + args + StarToken(f) + kwonly + KwargToken(f)) == |f.posonly|
  {
    hide Strip, PositionalText, ReadsAs, StarToken, KwargToken;
    var n := |f.posonly|;
    PiecesRead(f, posonly, args, kwonly);
    ReadsNoSlash(posonly, PositionalParams(f, 0, n, PositionalOnly, Shown));
    ReadsNoSlash(args, PositionalParams(f, n, n + |f.args|, PositionalOrKeyword, Shown));
    ReadsNoSlash(kwonly, KeywordParams(f, Shown));
    VariadicNoSlash(f);
    var tokens := posonly + SlashToken(f) + args + StarToken(f) + kwonly + KwargToken(f);
    if f.posonly != [] {
      assert tokens[n] == "/";
      FirstIndex(tokens, "/", n);
    } else {
      assert NoSlash(tokens);
    }
  }

  lemma NoStar(f: FunctionArgs)
    requires f.WellFormed() && StarToken(f) == []
    ensures f.kwonly == [] && VariadicParam(f.vararg, VarPositional) + KeywordParams(f, Shown) == []
  {
  }

  lemma {:induction false} TailShape(f: FunctionArgs, kwonly: seq<string>)
    requires Named(f)
    requires |kwonly| == |f.kwonly| && forall i :: 0 <= i < |kwonly| ==> ReadsAs(kwonly[i], KeywordParams(f, Shown)[i])
    ensures TokensShape(StarToken(f) + kwonly + KwargToken(f), 0, false)
         == VariadicParam(f.vararg, VarPositional) + KeywordParams(f, Shown) + VariadicParam(f.kwarg, VarKeyword)
  {
    hide ReadsAs, TokensShape, StarToken, KwargToken, VariadicParam, KeywordParams, Identifier;
    var star, rest := StarToken(f), kwonly + KwargToken(f);
    KwargShape(f, false);
    KwargShape(f, true);
    if star == [] {
      NoStar(f);
      assert star + kwonly + KwargToken(f) == KwargToken(f);
    } else {
      assert star + kwonly + KwargToken(f) == star + rest;
      StarShape(f, rest);
      KeywordRun(f, kwonly, KwargToken(f));
      RegroupThree(VariadicParam(f.vararg, VarPositional), KeywordParams(f, Shown), VariadicParam(f.kwarg, VarKeyword));
    }
  }

  lemma RegroupThree(a: Shape, b: Shape, c: Shape)
    ensures a + (b + c) == a + b + c
  {
  }

  lemma {:induction false} KeywordRun(f: FunctionArgs, kwonly: seq<string>, rest: seq<string>)
    requires f.WellFormed()
    requires |kwonly| == |f.kwonly| && forall i :: 0 <= i < |kwonly| ==> ReadsAs(kwonly[i], KeywordParams(f, Shown)[i])
    ensures TokensShape(kwonly + rest, 0, true) == KeywordParams(f, Shown) + TokensShape(rest, 0, true)
  {
    hide ReadsAs;
    RunShape(kwonly, KeywordParams(f, Shown), rest, 0, true);
  }

  lemma {:induction false} KwargShape(f: FunctionArgs, mode: bool)
    requires Named(f)
    ensures TokensShape(KwargToken(f), 0, mode) == VariadicParam(f.kwarg, VarKeyword)
  {
    hide NameOf, RStrip, LStrip;
    if f.kwarg.Some? {
      StarredToken("**", f.kwarg.value.name);
    }
  }

  lemma {:induction false} StarShape(f: FunctionArgs, rest: seq<string>)
    requires Named(f) && StarToken(f) != []
    ensures TokensShape(StarToken(f) + rest, 0, false) == VariadicParam(f.vararg, VarPositional)
        + TokensShape(rest, 0, true)
  {
    hide NameOf, RStrip, LStrip;
    var star := StarToken(f);
    assert (star + rest)[0] == star[0] && (star + rest)[1..] == rest;
    if f.vararg.Some? {
      StarredToken("*", f.vararg.value.name);
      assert NameChar(f.vararg.value.name[0]);
    } else {
      StripSolid("*");
    }
  }

  lemma Regroup(a: seq<string>, b: seq<string>, c: seq<string>, d: seq<string>, e: seq<string>, g: seq<string>)
    ensures a + b + c + d + e + g == a + (b + (c + (d + e + g)))
  {
  }

  lemma RegroupShape(a: Shape, b: Shape, c: Shape, d: Shape, e: Shape)
    ensures a + b + c + d + e == a + (b + (c + d + e))
  {
  }

  // A list that splits into its tokens is read as the parameters its texts show.
  lemma {:induction false} ReadBack(f: FunctionArgs)
    requires Splittable(f)
    ensures ShapeOf(Printed(f)) == ParamsAs(f, Shown)
  {
    hide Strip, PositionalText, ReadsAs, TokensShape, SplitTop;
    hide StarToken, KwargToken, SlashToken, Printed, VariadicParam;
    var n := |f.posonly|;
    var posonly, args := StripAll(PositionalTexts(f, 0, n)), StripAll(PositionalTexts(f, n, n + |f.args|));
    var kwonly := StripAll(KeywordTexts(f));
    PrintedTokens(f, posonly, args, kwonly);
    PiecesRead(f, posonly, args, kwonly);
    SlashFound(f, posonly, args, kwonly);
    var tail := StarToken(f) + kwonly + KwargToken(f);
    var middle := args + tail;
    Regroup(posonly, SlashToken(f), args, StarToken(f), kwonly, KwargToken(f));
    var first := PositionalParams(f, 0, n, PositionalOnly, Shown);
    var second := PositionalParams(f, n, n + |f.args|, PositionalOrKeyword, Shown);
    assert TokensShape(posonly + (SlashToken(f) + middle), n, false) == first
        + TokensShape(SlashToken(f) + middle, 0, false) by {
      RunShape(posonly, first, SlashToken(f) + middle, n, false);
    }
    SlashShape(f, middle);
    assert TokensShape(middle, 0, false) == second + TokensShape(tail, 0, false) by {
      RunShape(args, second, tail, 0, false);
    }
    TailShape(f, kwonly);
    RegroupShape(first, second, VariadicParam(f.vararg, VarPositional), KeywordParams(f, Shown),
        VariadicParam(f.kwarg, VarKeyword));
  }

  lemma PositionalShown(f: FunctionArgs, from: nat, to: nat, kind: Kind)
    requires from <= to <= |f.posonly| + |f.args|
    ensures PositionalParams(f, from, to, kind, Shown) == PositionalParams(f, from, to, kind, Declared)
       <==> PositionalShow(f, from, to)
  {
    hide HasEquals, ArgText, WithDefault;
    var shown, declared := PositionalParams(f, from, to, kind, Shown), PositionalParams(f, from, to, kind, Declared);
    forall i | from <= i < to
      ensures shown[i - from] == declared[i - from] <==> (HasEquals(PositionalText(f, i)) <==> f.DefaultOf(i).Some?)
    {
    }
  }

  lemma KeywordShown(f: FunctionArgs)
    requires f.WellFormed()
    ensures KeywordParams(f, Shown) == KeywordParams(f, Declared) <==> KeywordsShow(f)
  {
    hide HasEquals, ArgText, WithDefault;
    forall i | 0 <= i < |f.kwonly|
      ensures KeywordParams(f, Shown)[i] == KeywordParams(f, Declared)[i]
         <==> (HasEquals(KeywordTexts(f)[i]) <==> f.kwDefaults[i].Some?)
    {
    }
  }

  lemma SameParts(a: Shape, a': Shape, b: Shape, b': Shape, c: Shape, d: Shape, d': Shape, e: Shape)
    requires |a| == |a'| && |b| == |b'| && |d| == |d'|
    ensures a + b + c + d + e == a' + b' + c + d' + e <==> a == a' && b == b' && d == d'
  {
    var x, y := a + b + c + d + e, a' + b' + c + d' + e;
    var n, m := |a|, |a| + |b|;
    var k := m + |c|;
    assert x[..n] == a && x[n..m] == b && x[k..k + |d|] == d;
    assert y[..n] == a' && y[n..m] == b' && y[k..k + |d|] == d';
  }

  // The texts show what is declared exactly if every `=` belongs to a default.
  lemma ShownAsDeclared(f: FunctionArgs)
    requires f.WellFormed()
    ensures ParamsAs(f, Shown) == ParamsOf(f) <==> DefaultsShow(f)
  {
    hide HasEquals, ArgText, WithDefault, Required;
    var n, m := |f.posonly|, |f.posonly| + |f.args|;
    PositionalShown(f, 0, n, PositionalOnly);
    PositionalShown(f, n, m, PositionalOrKeyword);
    KeywordShown(f);
    SameParts(PositionalParams(f, 0, n, PositionalOnly, Shown), PositionalParams(f, 0, n, PositionalOnly, Declared),
              PositionalParams(f, n, m, PositionalOrKeyword, Shown),
              PositionalParams(f, n, m, PositionalOrKeyword, Declared),
              VariadicParam(f.vararg, VarPositional),
              KeywordParams(f, Shown), KeywordParams(f, Declared), VariadicParam(f.kwarg, VarKeyword));
    hide PositionalText, KeywordTexts;
    assert PositionalShow(f, 0, m) <==> PositionalShow(f, 0, n) && PositionalShow(f, n, m);
  }

  /** What is printed is read back: every name, kind and required flag. */
  lemma RoundTrip(f: FunctionArgs)
    requires Printable(f)
    ensures ShapeOf(Printed(f)) == ParamsOf(f)
  {
    ReadBack(f);
    ShownAsDeclared(f);
  }

  lemma {:induction false} SlashShape(f: FunctionArgs, rest: seq<string>)
    ensures TokensShape(SlashToken(f) + rest, 0, false) == TokensShape(rest, 0, false)
  {
    if f.posonly == [] {
      assert SlashToken(f) + rest == rest;
    } else {
      assert (SlashToken(f) + rest)[0] == "/" && (SlashToken(f) + rest)[1..] == rest;
      StripSolid("/");
    }
  }

  // ----- what the gate guarantees about two functions

  lemma ParamsCanonical(f: FunctionArgs)
    requires f.WellFormed()
    ensures Canonical(ParamsOf(f))
  {
    var n, m := |f.posonly|, |f.posonly| + |f.args|;
    var sig := ParamsOf(f);
    var v := m + |VariadicParam(f.vararg, VarPositional)|;
    forall i | 0 <= i < |sig|
      ensures sig[i].kind == if i < n then PositionalOnly else if i < m then PositionalOrKeyword
                             else if i < v then VarPositional
                             else if i < v + |f.kwonly| then KeywordOnly else VarKeyword
      ensures sig[i].kind.Variadic() ==> !sig[i].required
    {
    }
  }

  /**
   The gate on two functions: print both, parse both texts, compare.  If it lets the
   change through, every call of the old function binds on the new one, and each
   argument goes where it went before.
   */
  method Gate(old_: FunctionArgs, new_: FunctionArgs) returns (breaking: bool)
    requires Printable(old_) && Printable(new_)
    requires UniqueNames(ParamsOf(old_)) && UniqueNames(ParamsOf(new_))
    ensures !breaking ==> Preserves(ParamsOf(old_), ParamsOf(new_))
    ensures breaking && Plain(ParamsOf(old_)) ==> !Preserves(ParamsOf(old_), ParamsOf(new_))
  {
    var oldText := SignatureFromFunction(old_);
    var newText := SignatureFromFunction(new_);
    var oldShape := ParseSignatureShape(oldText);
    var newShape := ParseSignatureShape(newText);
    RoundTrip(old_);
    RoundTrip(new_);
    ParamsCanonical(old_);
    ParamsCanonical(new_);
    breaking := IsBreakingSignatureChange(oldShape, newShape, map[]);
    if !breaking {
      forall call | Binds(oldShape, call) ensures Binds(newShape, call) && SameDelivery(oldShape, newShape, call) {
        CompatibleCallsSurvive(oldShape, newShape, call);
      }
    } else if Plain(oldShape) {
      PlainExact(oldShape, newShape);
    }
  }

  lemma CommaDefaultSplit()
    ensures SplitTop("(sep=',')") == ["sep='", "'"]
  {
    hide RStrip, LStrip, Segments, Unwrap;
    var first, second := "sep='", "'";
    UnwrapPrinted("sep=','");
    assert "(" + "sep=','" + ")" == "(sep=',')" && first + "," + second == "sep=','";
    SegmentsCut(first, second, TOP);
    SegmentsOne(first);
    SegmentsOne(second);
    StripSolid(first);
    StripSolid(second);
    assert StripAll([first, second]) == [first, second];
  }

  ghost predicate ReadsAsOrdinary(t: string, p: Param) {
    !Separator(t) && !StartsKeywordOnly(t) && TokenShape(t, false, false) == p
  }

  // A parameter without annotation, whatever its default.
  lemma BareReads(a: Arg, default: Option<string>, t: string)
    requires Identifier(a.name) && a.annotation == "" && t == WithDefault(ArgText(a), default) && Strip(t) == t
    ensures ReadsAsOrdinary(t, Param(a.name, PositionalOrKeyword, default.None?))
  {
    hide Strip, FindTop, TokenShape, Separator, StartsKeywordOnly, Identifier;
    EqualsFirst(a, default);
    ParamTextShape(a, default, false, false);
  }

  lemma FirstOrdinary(tokens: seq<string>, p: Param)
    requires tokens != [] && ReadsAsOrdinary(tokens[0], p)
    ensures TokensShape(tokens, 0, false) == [p] + TokensShape(tokens[1..], 0, false)
  {
    hide TokenShape, Separator, StartsKeywordOnly;
  }

  lemma CommaDefaultShapes()
    ensures TokensShape(["sep='", "'"], 0, false)
         == [Param("sep", PositionalOrKeyword, false), Param("'", PositionalOrKeyword, true)]
  {
    hide Strip, ReadsAsOrdinary, TokenShape, Separator, StartsKeywordOnly;
    var tokens := ["sep='", "'"];
    StripSolid(tokens[0]);
    StripSolid(tokens[1]);
    BareReads(Arg("sep", ""), Some("'"), tokens[0]);
    BareReads(Arg("'", ""), None, tokens[1]);
    assert tokens[1..] == ["'"] && tokens[1..][1..] == [];
    FirstOrdinary(tokens[1..], Param("'", PositionalOrKeyword, true));
    FirstOrdinary(tokens, Param("sep", PositionalOrKeyword, false));
  }

  const COMMA_DEFAULT := FunctionArgs([], [Arg("sep", "")], ["','"], None, [], [], None)

  lemma CommaDefaultPrinted()
    ensures COMMA_DEFAULT.WellFormed() && Printed(COMMA_DEFAULT) == "(sep=',')"
  {
    hide PositionalText;
    CommaDefaultText();
    assert PositionalTexts(COMMA_DEFAULT, 0, 1) == ["sep=','"];
    assert Tokens(COMMA_DEFAULT) == ["sep=','"];
  }

  lemma CommaDefaultText()
    ensures PositionalText(COMMA_DEFAULT, 0) == "sep=','"
  {
  }

  // A default whose text has a comma outside brackets, such as the string ',', is read
  // back as two parameters, the second of them required.
  lemma CommaDefaultMisread()
    ensures
      && COMMA_DEFAULT.WellFormed() && Printed(COMMA_DEFAULT) == "(sep=',')"
      && ShapeOf(Printed(COMMA_DEFAULT))
          == [Param("sep", PositionalOrKeyword, false), Param("'", PositionalOrKeyword, true)]
      && ParamsOf(COMMA_DEFAULT) == [Param("sep", PositionalOrKeyword, false)]
  {
    hide TokensShape, SplitTop, HasEquals, Printed;
    CommaDefaultPrinted();
    CommaDefaultSplit();
    CommaDefaultShapes();
    assert BeforeSlash(["sep='", "'"]) == 0;
  }
}
