/**
 What an open bracket does to a printed signature: every separator behind it is swallowed.
 Where brackets nest and no parameter prints a top-level comma, the signature is read back
 exactly if every parameter but the last closes its brackets.
 */
module SignatureBrackets {
  import opened Text
  import opened SignatureShape
  import opened SignatureText
  import opened SignaturePrinter
  import opened SignatureRoundTrip
  import opened SignatureMisread

  // ----- brackets left open

  /** No kind of bracket is closed more often than it was opened. */
  predicate Nested(s: string, d: Depth)
    decreases s
  {
    d.paren >= 0 && d.bracket >= 0 && d.brace >= 0 && (s == "" || Nested(s[1..], d.After(s[0])))
  }

  ghost predicate AllNested(tokens: seq<string>) {
    forall i :: 0 <= i < |tokens| ==> Nested(tokens[i], TOP)
  }

  // Inside a bracket that stays open.
  predicate Open(d: Depth) {
    d.paren >= 0 && d.bracket >= 0 && d.brace >= 0 && !d.Zero()
  }

  function Plus(d: Depth, e: Depth): Depth {
    Depth(d.paren + e.paren, d.bracket + e.bracket, d.brace + e.brace)
  }

  // A nested text leaves an open bracket open, and nothing in it is at top level.
  lemma {:induction false} StaysOpen(s: string, d: Depth, e: Depth, target: char)
    requires Open(d) && Nested(s, e)
    ensures Walk(Plus(d, e), s) == Plus(d, Walk(e, s)) && Open(Walk(Plus(d, e), s))
    ensures FindTop(s, target, Plus(d, e)) == -1
    decreases s
  {
    if s != "" {
      assert Plus(d, e).After(s[0]) == Plus(d, e.After(s[0]));
      StaysOpen(s[1..], d, e.After(s[0]), target);
    }
  }

  lemma OpenToken(s: string, d: Depth, target: char)
    requires Open(d) && Nested(s, TOP)
    ensures Open(Walk(d, s)) && FindTop(s, target, d) == -1
  {
    StaysOpen(s, d, TOP, target);
    assert Plus(d, TOP) == d;
  }

  lemma SeparatorOpen(d: Depth)
    requires Open(d)
    ensures Walk(d, ", ") == d && FindTop(", ", ',', d) == -1
  {
    assert ", "[1..] == " ";
  }

  // Every separator behind an open bracket is swallowed.
  lemma {:induction false} Swallowed(tokens: seq<string>, d: Depth)
    requires Open(d) && AllNested(tokens)
    ensures FindTop(Join(tokens, ", "), ',', d) == -1
  {
    hide FindTop, Walk, Nested, Open;
    if tokens == [] {
      assert FindTop("", ',', d) == -1 by { NothingTop(d); }
    } else {
      var first, rest := tokens[0], tokens[1..];
      OpenToken(first, d, ',');
      if |tokens| > 1 {
        var after := Walk(d, first);
        SeparatorOpen(after);
        Swallowed(rest, after);
        FindTopConcat(", ", Join(rest, ", "), ',', after);
        FindTopConcat(first, ", " + Join(rest, ", "), ',', d);
        assert Join(tokens, ", ") == first + (", " + Join(rest, ", "));
      }
    }
  }

  lemma NothingTop(d: Depth)
    ensures FindTop("", ',', d) == -1
  {
  }

  lemma {:induction false} NestedEndsNested(s: string, d: Depth)
    requires Nested(s, d)
    ensures Walk(d, s) == TOP || Open(Walk(d, s))
    decreases s
  {
    if s != "" {
      NestedEndsNested(s[1..], d.After(s[0]));
    }
  }

  // A list whose first token leaves a bracket open is one piece.
  lemma OpenListIsOnePiece(tokens: seq<string>)
    requires tokens != [] && AllNested(tokens) && CommaFree(tokens) && Walk(TOP, tokens[0]) != TOP
    ensures FindTop(Join(tokens, ", "), ',', TOP) == -1
  {
    hide FindTop, Walk, Nested, Open;
    var first, rest := tokens[0], tokens[1..];
    if |tokens| > 1 {
      var d := Walk(TOP, first);
      NestedEndsNested(first, TOP);
      SeparatorOpen(d);
      Swallowed(rest, d);
      FindTopConcat(", ", Join(rest, ", "), ',', d);
      FindTopConcat(first, ", " + Join(rest, ", "), ',', TOP);
      assert Join(tokens, ", ") == first + (", " + Join(rest, ", "));
    }
  }

  lemma JoinHead(tokens: seq<string>, pad: string)
    requires |tokens| > 1
    ensures pad + Join(tokens, ", ") == pad + tokens[0] + "," + (" " + Join(tokens[1..], ", "))
  {
  }

  lemma RestOfList(tokens: seq<string>, k: nat)
    requires 0 < k < |tokens|
    ensures StripAll(tokens[..k]) == [Strip(tokens[0])] + StripAll(tokens[1..][..k - 1])
    ensures tokens[1..][k - 1..] == tokens[k..]
    ensures AllNested(tokens) ==> AllNested(tokens[1..])
    ensures CommaFree(tokens) ==> CommaFree(tokens[1..]) && FindTop(tokens[0], ',', TOP) == -1
  {
    hide Strip, Nested, FindTop;
    assert tokens[..k][1..] == tokens[1..][..k - 1];
  }

  /** The list is cut behind each token, up to the first that leaves a bracket open. */
  lemma {:induction false} SplitUpTo(tokens: seq<string>, k: nat, pad: string)
    requires k < |tokens| && AllNested(tokens) && CommaFree(tokens) && (pad == "" || pad == " ")
    requires forall i :: 0 <= i < k ==> Walk(TOP, tokens[i]) == TOP
    requires Walk(TOP, tokens[k]) != TOP
    ensures StripAll(Segments(pad + Join(tokens, ", "), TOP))
         == StripAll(tokens[..k]) + [Strip(Join(tokens[k..], ", "))]
    decreases k
  {
    hide Strip, Segments, Walk, FindTop, Nested, Join, AllNested, CommaFree, StripAll;
    if k == 0 {
      OpenListIsOnePiece(tokens);
      PaddedSegments(pad, Join(tokens, ", "));
      SegmentsOne(Join(tokens, ", "));
      StripOne(Join(tokens, ", "));
      assert tokens[0..] == tokens;
      assert StripAll(tokens[..0]) == [];
    } else {
      RestOfList(tokens, k);
      PaddedSegments(pad, tokens[0]);
      SegmentsOne(tokens[0]);
      StripOne(tokens[0]);
      var rest := " " + Join(tokens[1..], ", ");
      JoinHead(tokens, pad);
      SegmentsCut(pad + tokens[0], rest, TOP);
      SplitUpTo(tokens[1..], k - 1, " ");
      StripAllConcat(Segments(pad + tokens[0], TOP), Segments(rest, TOP));
    }
  }

  lemma StripOne(s: string)
    ensures StripAll([s]) == [Strip(s)]
  {
    hide Strip;
  }

  lemma {:induction false} FirstOpen(tokens: seq<string>, n: nat) returns (k: nat)
    requires n <= |tokens| && exists i :: 0 <= i < n && Walk(TOP, tokens[i]) != TOP
    ensures k < n && Walk(TOP, tokens[k]) != TOP && forall i :: 0 <= i < k ==> Walk(TOP, tokens[i]) == TOP
    decreases n
  {
    hide Walk;
    if i :| 0 <= i < n - 1 && Walk(TOP, tokens[i]) != TOP {
      k := FirstOpen(tokens, n - 1);
    } else {
      k := n - 1;
    }
  }

  // ----- an open bracket in front of the `/`

  lemma {:induction false} NoPositionalOnly(tokens: seq<string>, kwOnlyMode: bool)
    ensures forall i :: 0 <= i < |TokensShape(tokens, 0, kwOnlyMode)| ==>
              TokensShape(tokens, 0, kwOnlyMode)[i].kind != PositionalOnly
  {
    hide Separator, StartsKeywordOnly, NameOf, FindTop, Strip;
    if tokens != [] {
      NoPositionalOnly(tokens[1..], kwOnlyMode || StartsKeywordOnly(tokens[0]));
    }
  }

  // The `/` is swallowed, so no parameter is read as positional-only.
  lemma OpenBeforeSlash(f: FunctionArgs, k: nat)
    requires Named(f) && CommaFree(Tokens(f)) && AllNested(Tokens(f))
    requires k < |f.posonly| && k < |Tokens(f)| && Walk(TOP, Tokens(f)[k]) != TOP
    requires forall i :: 0 <= i < k ==> Walk(TOP, Tokens(f)[i]) == TOP
    ensures ShapeOf(Printed(f)) != ParamsOf(f)
  {
    hide Walk, Nested, FindTop, Strip, Tokens, AllNested, CommaFree, TokensShape, Required, Join;
    var cut := SplitTop(Printed(f));
    PrintedUpTo(f, k);
    forall i | 0 <= i < |cut| ensures cut[i] != "/" {
      if i < k {
        PosonlyNoSlash(f, i);
      } else {
        OpenPieceNoSlash(f, k);
      }
    }
    assert BeforeSlash(cut) == 0;
    NoPositionalOnly(cut, false);
    assert ParamsOf(f)[0].kind == PositionalOnly;
  }

  lemma PrintedUpTo(f: FunctionArgs, k: nat)
    requires Named(f) && CommaFree(Tokens(f)) && AllNested(Tokens(f))
    requires k < |Tokens(f)| && Walk(TOP, Tokens(f)[k]) != TOP
    requires forall i :: 0 <= i < k ==> Walk(TOP, Tokens(f)[i]) == TOP
    ensures SplitTop(Printed(f)) == StripAll(Tokens(f)[..k]) + [Strip(Join(Tokens(f)[k..], ", "))]
  {
    hide Walk, Nested, FindTop, Strip, Tokens, AllNested, CommaFree, Segments, Unwrap;
    var body := Join(Tokens(f), ", ");
    UnwrapPrinted(body);
    FirstToken(f);
    SplitUpTo(Tokens(f), k, "");
    assert "" + body == body;
    assert |body| >= |Tokens(f)[0]|;
  }

  lemma PosonlyToken(f: FunctionArgs, i: nat)
    requires Named(f) && i < |f.posonly|
    ensures i < |Tokens(f)| && Tokens(f)[i] == WithDefault(ArgText(f.posonly[i]), f.DefaultOf(i))
    ensures Identifier(f.posonly[i].name)
  {
    hide ArgText, WithDefault, Identifier;
    assert f.Positional()[i] == f.posonly[i];
  }

  lemma PosonlyNoSlash(f: FunctionArgs, i: nat)
    requires Named(f) && i < |f.posonly|
    ensures i < |Tokens(f)| && Strip(Tokens(f)[i]) != "/"
  {
    hide Tokens, Strip, StartsKeywordOnly, TokenShape, ArgText, WithDefault, Identifier;
    PosonlyToken(f, i);
    ParamTextShape(f.posonly[i], f.DefaultOf(i), false, false);
  }

  lemma OpenPieceNoSlash(f: FunctionArgs, k: nat)
    requires Named(f) && k < |f.posonly| && k < |Tokens(f)|
    ensures Strip(Join(Tokens(f)[k..], ", ")) != "/"
  {
    hide Tokens, Strip, RStrip, ArgText, WithDefault;
    PosonlyToken(f, k);
    SolidStart(f.posonly[k], f.DefaultOf(k));
    var rest := Tokens(f)[k..];
    assert rest[0] == Tokens(f)[k] && Join(rest, ", ")[0] == rest[0][0];
    SolidByMark(Join(rest, ", "), 0);
  }

  // ----- an open bracket behind it

  lemma {:induction false} StrippedSolid(tokens: seq<string>)
    ensures Solid(StripAll(tokens)) <= Solid(tokens)
  {
    hide Separator, Strip;
    if tokens != [] {
      StrippedSolid(tokens[1..]);
      SeparatorStrips(tokens[0]);
      assert StripAll(tokens) == [Strip(tokens[0])] + StripAll(tokens[1..]);
    }
  }

  lemma SeparatorStrips(t: string)
    ensures Separator(t) ==> Separator(Strip(t))
  {
    StripSolid("/");
    StripSolid("*");
  }

  lemma {:induction false} SolidInside(tokens: seq<string>, i: nat)
    requires i < |tokens| && !Separator(tokens[i])
    ensures Solid(tokens) >= 1
  {
    hide Separator;
    if i > 0 {
      SolidInside(tokens[1..], i - 1);
    }
  }

  lemma SeparatorCloses(t: string)
    requires Separator(t)
    ensures Walk(TOP, t) == TOP
  {
  }

  lemma LastToken(f: FunctionArgs)
    requires f.WellFormed() && |Tokens(f)| > |f.posonly| + |SlashToken(f)|
    ensures var last := Tokens(f)[|Tokens(f)| - 1];
            if f.kwarg.Some? then last == "**" + f.kwarg.value.name
            else if f.kwonly != [] then last == KeywordTexts(f)[|f.kwonly| - 1]
            else if f.vararg.Some? then last == "*" + f.vararg.value.name
            else f.args != [] && last == PositionalText(f, |f.posonly| + |f.args| - 1)
  {
    hide PositionalText, KeywordTexts, SlashToken;
  }

  // Behind the `/`, the list does not end in a marker.
  lemma LastIsSolid(f: FunctionArgs)
    requires Named(f) && |Tokens(f)| > |f.posonly| + |SlashToken(f)|
    ensures !Separator(Tokens(f)[|Tokens(f)| - 1])
  {
    hide ArgText, WithDefault, Identifier, Tokens, Separator, SlashToken, Counted;
    LastToken(f);
    if f.kwarg.Some? {
      StarCounted("**", f.kwarg.value.name);
    } else if f.kwonly != [] {
      var i := |f.kwonly| - 1;
      TokenIsSolid(f.kwonly[i], f.kwDefaults[i]);
    } else if f.vararg.Some? {
      StarCounted("*", f.vararg.value.name);
    } else {
      var i := |f.posonly| + |f.args| - 1;
      assert Identifier(f.Positional()[i].name);
      TokenIsSolid(f.Positional()[i], f.DefaultOf(i));
    }
  }

  lemma TokenIsSolid(a: Arg, default: Option<string>)
    requires Identifier(a.name)
    ensures !Separator(WithDefault(ArgText(a), default))
  {
    hide Strip, RStrip, ArgText, WithDefault;
    SolidStart(a, default);
  }

  lemma QuietPieces(t: string)
    requires FindTop(t, ',', TOP) == -1
    ensures SolidPieces(t)
  {
    SegmentsOne(t);
  }

  lemma QuietTokens(f: FunctionArgs)
    requires Named(f) && CommaFree(Tokens(f))
    ensures PiecesSolid(f)
  {
    hide FindTop, SolidPieces, PositionalText, SlashToken, StarToken, KwargToken;
    var n := |f.posonly|;
    forall i | 0 <= i < |f.Positional()| ensures SolidPieces(PositionalText(f, i)) {
      var x := if i < n then i else i + |SlashToken(f)|;
      assert Tokens(f)[x] == PositionalText(f, i);
      QuietPieces(PositionalText(f, i));
    }
    forall i | 0 <= i < |f.kwonly| ensures SolidPieces(KeywordTexts(f)[i]) {
      var x := |PositionalTokens(f)| + |StarToken(f)| + i;
      assert Tokens(f)[x] == KeywordTexts(f)[i];
      QuietPieces(KeywordTexts(f)[i]);
    }
  }

  // A later parameter is swallowed, so fewer are read than declared.
  lemma OpenBehindSlash(f: FunctionArgs, k: nat)
    requires Named(f) && CommaFree(Tokens(f)) && AllNested(Tokens(f))
    requires |f.posonly| <= k < |Tokens(f)| - 1 && Walk(TOP, Tokens(f)[k]) != TOP
    requires forall i :: 0 <= i < k ==> Walk(TOP, Tokens(f)[i]) == TOP
    ensures |ShapeOf(Printed(f))| < |ParamsOf(f)|
  {
    hide Walk, Nested, FindTop, Strip, Tokens, AllNested, CommaFree, TokensShape, Separator, Join, ParamsOf, Printed;
    hide PiecesSolid, SplitTop, Solid, BeforeSlash;
    var tokens, cut := Tokens(f), SplitTop(Printed(f));
    PrintedUpTo(f, k);
    ShapeLength(cut, BeforeSlash(cut), false);
    QuietTokens(f);
    TokensCounted(f);
    OpenIsNoSlash(f, k);
    LastIsSolid(f);
    CountAround(tokens, k);
    StrippedSolid(tokens[..k]);
    var last := [Strip(Join(tokens[k..], ", "))];
    SolidConcat(StripAll(tokens[..k]), last);
    assert Solid(last) <= 1 by { OneSolid(last[0]); }
  }

  lemma OneSolid(t: string)
    ensures Solid([t]) == if Separator(t) then 0 else 1
  {
    hide Separator;
  }

  lemma OpenIsNoSlash(f: FunctionArgs, k: nat)
    requires f.WellFormed() && |f.posonly| <= k < |Tokens(f)| && Walk(TOP, Tokens(f)[k]) != TOP
    ensures |f.posonly| + |SlashToken(f)| <= k
  {
    hide Walk, PositionalText, KeywordTexts, StarToken, KwargToken;
    SeparatorCloses("/");
    if f.posonly != [] {
      assert Tokens(f)[|f.posonly|] == "/";
    }
  }

  // Two parameters at least: the open one, and the last one.
  lemma CountAround(tokens: seq<string>, k: nat)
    requires k < |tokens| - 1 && Walk(TOP, tokens[k]) != TOP && !Separator(tokens[|tokens| - 1])
    ensures Solid(tokens) >= Solid(tokens[..k]) + 2
  {
    hide Walk, Separator, Solid;
    var rest := tokens[k + 1..];
    assert !Separator(tokens[k]) by {
      if Separator(tokens[k]) {
        SeparatorCloses(tokens[k]);
      }
    }
    assert tokens == tokens[..k] + ([tokens[k]] + rest);
    SolidConcat(tokens[..k], [tokens[k]] + rest);
    SolidConcat([tokens[k]], rest);
    OneSolid(tokens[k]);
    assert rest[|rest| - 1] == tokens[|tokens| - 1];
    SolidInside(rest, |rest| - 1);
  }

  /**
   Where no parameter prints a top-level comma or a closing bracket too many: what is
   printed is read back exactly if every parameter but the last closes its brackets, and
   a top-level `=` shows exactly where a default is.
   */
  lemma RoundTripOfNested(f: FunctionArgs)
    requires Named(f) && CommaFree(Tokens(f)) && AllNested(Tokens(f))
    ensures ShapeOf(Printed(f)) == ParamsOf(f) <==> Closing(Tokens(f)) && DefaultsShow(f)
  {
    hide CommaFree, AllNested, DefaultsShow, Tokens, ParamsOf, ShapeOf, Printed, PiecesSolid, Walk;
    if Closing(Tokens(f)) {
      QuietTokens(f);
      RoundTripExactly(f);
    } else {
      var k := FirstOpen(Tokens(f), |Tokens(f)| - 1);
      if k < |f.posonly| {
        OpenBeforeSlash(f, k);
      } else {
        OpenBehindSlash(f, k);
      }
    }
  }

  // Two parameters with defaults and no annotations.
  function Two(x: string, u: string, y: string, v: string): FunctionArgs {
    FunctionArgs([], [Arg(x, ""), Arg(y, "")], [u, v], None, [], [], None)
  }

  lemma TwoTokens(x: string, u: string, y: string, v: string)
    ensures Two(x, u, y, v).WellFormed()
    ensures var f, s, t := Two(x, u, y, v), x + "=" + u, y + "=" + v;
            && PositionalText(f, 0) == s && PositionalText(f, 1) == t && |f.Positional()| == 2
            && Tokens(f) == [s, t] && Printed(f) == "(" + (s + ", " + t) + ")"
            && ParamsOf(f) == [Param(x, PositionalOrKeyword, false), Param(y, PositionalOrKeyword, false)]
            && f.DefaultOf(0).Some? && f.DefaultOf(1).Some?
  {
    var f, s, t := Two(x, u, y, v), x + "=" + u, y + "=" + v;
    assert f.DefaultOf(0) == Some(u) && f.DefaultOf(1) == Some(v);
    assert f.Positional() == [Arg(x, ""), Arg(y, "")];
    assert PositionalText(f, 0) == s && PositionalText(f, 1) == t;
    hide PositionalText, WithDefault, HasEquals;
    assert PositionalTexts(f, 0, 2) == [s, t];
    assert Tokens(f) == [s, t];
    JoinTwo(s, t);
  }

  lemma JoinTwo(s: string, t: string)
    ensures Join([s, t], ", ") == s + ", " + t
  {
    assert [s, t][1..] == [t];
  }

  // A text without brackets.
  lemma {:induction false} Flat(s: string, target: char, d: Depth)
    requires forall i :: 0 <= i < |s| ==> !IsBracket(s[i])
    ensures Walk(d, s) == d && (d == TOP || Open(d) ==> Nested(s, d))
    ensures !d.Zero() || target !in s ==> FindTop(s, target, d) == -1
    decreases s
  {
    if s != "" {
      Flat(s[1..], target, d.After(s[0]));
    }
  }

  // A text with one bracket, which is not closed.
  lemma OneOpen(a: string, b: string)
    requires (forall i :: 0 <= i < |a| ==> !IsBracket(a[i])) && (forall i :: 0 <= i < |b| ==> !IsBracket(b[i]))
    ensures Walk(TOP, a + ("(" + b)) == Depth(1, 0, 0) && Nested(a + ("(" + b), TOP)
    ensures ',' !in a ==> FindTop(a + ("(" + b), ',', TOP) == -1
  {
    var rest := "(" + b;
    assert rest[1..] == b;
    Flat(a, ',', TOP);
    Flat(b, ',', Depth(1, 0, 0));
    FindTopConcat(a, rest, ',', TOP);
    WalkConcat(TOP, a, rest);
    NestedConcat(a, rest, TOP);
  }

  lemma {:induction false} NestedConcat(a: string, b: string, d: Depth)
    requires Nested(a, d) && Nested(b, Walk(d, a))
    ensures Nested(a + b, d)
    decreases a
  {
    if a == "" {
      assert a + b == b;
    } else {
      assert (a + b)[1..] == a[1..] + b;
      NestedConcat(a[1..], b, d.After(a[0]));
    }
  }

  const OPEN_DEFAULT := Two("a", "'('", "b", "1")

  lemma OpenDefaultScans()
    ensures FindTop("a='('", ',', TOP) == -1 && Nested("a='('", TOP) && Walk(TOP, "a='('") != TOP
    ensures FindTop("b=1", ',', TOP) == -1 && Nested("b=1", TOP)
    ensures HasEquals("a='('") && HasEquals("b=1")
  {
    hide FindTop, Nested, Walk;
    assert "a='('" == "a='" + ("(" + "'");
    OneOpen("a='", "'");
    Flat("b=1", ',', TOP);
    EqualsFirst(Arg("a", ""), Some("'('"));
    EqualsFirst(Arg("b", ""), Some("1"));
    assert WithDefault(ArgText(Arg("a", "")), Some("'('")) == "a='('";
    assert WithDefault(ArgText(Arg("b", "")), Some("1")) == "b=1";
  }

  /** A default such as `'('`, in front of another parameter, swallows that parameter. */
  lemma OpenDefaultMisread()
    ensures Named(OPEN_DEFAULT) && CommaFree(Tokens(OPEN_DEFAULT)) && DefaultsShow(OPEN_DEFAULT)
    ensures Printed(OPEN_DEFAULT) == "(a='(', b=1)"
    ensures |ShapeOf(Printed(OPEN_DEFAULT))| < |ParamsOf(OPEN_DEFAULT)| == 2
  {
    hide FindTop, Nested, Walk, PositionalText, HasEquals, ShapeOf, Tokens, Printed, ParamsOf;
    TwoTokens("a", "'('", "b", "1");
    assert "a" + "=" + "'('" == "a='('" && "b" + "=" + "1" == "b=1";
    assert "a='('" + ", " + "b=1" == "a='(', b=1";
    OpenDefaultScans();
    assert Named(OPEN_DEFAULT);
    OpenBehindSlash(OPEN_DEFAULT, 0);
  }

  // ----- texts that cancel out

  const STRAY_TEXTS := Two("c", "'1, d=('", "d", "2")

  lemma StrayPieces()
    ensures SplitTop("(c='1, d=(', d=2)") == ["c='1", "d=(', d=2"]
  {
    hide Strip, FindTop, Walk, Segments, Unwrap, Nested;
    var first, second := "c='1", "d=(', d=2";
    var body := first + "," + (" " + second);
    assert "(" + body + ")" == "(c='1, d=(', d=2)";
    UnwrapPrinted(body);
    Flat(first, ',', TOP);
    assert second == "d=" + ("(" + "', d=2");
    OneOpen("d=", "', d=2");
    SegmentsCut(first, " " + second, TOP);
    SegmentsOne(first);
    PaddedSegments(" ", second);
    SegmentsOne(second);
    StripAllConcat([first], Segments(" " + second, TOP));
    StripSolid(first);
    StripSolid(second);
    assert StripAll([first]) == [first] && StripAll([second]) == [second];
  }

  lemma StrayFlaws()
    ensures FindTop("c='1, d=('", ',', TOP) != -1 && Walk(TOP, "c='1, d=('") != TOP
  {
    var head, tail := "c='1", ", d=('";
    Flat(head, ',', TOP);
    assert FindTop(tail, ',', TOP) == 0;
    hide FindTop, Walk, Nested;
    FindTopConcat(head, tail, ',', TOP);
    assert head + tail == "c='1, d=('" == "c='1, d=" + ("(" + "'");
    OneOpen("c='1, d=", "'");
  }

  lemma StrayShape()
    ensures TokensShape(["c='1", "d=(', d=2"], 0, false)
         == [Param("c", PositionalOrKeyword, false), Param("d", PositionalOrKeyword, false)]
  {
    hide Strip, TokenShape, Separator, StartsKeywordOnly, ReadsAsOrdinary, TokensShape;
    var pieces := ["c='1", "d=(', d=2"];
    StripSolid(pieces[0]);
    StripSolid(pieces[1]);
    BareReads(Arg("c", ""), Some("'1"), pieces[0]);
    BareReads(Arg("d", ""), Some("(', d=2"), pieces[1]);
    FirstOrdinary(pieces, Param("c", PositionalOrKeyword, false));
    assert pieces[1..] == ["d=(', d=2"] && pieces[1..][1..] == [];
    FirstOrdinary(pieces[1..], Param("d", PositionalOrKeyword, false));
    NoTokens([], 0, false);
  }

  /**
   With both a comma and an open bracket, two wrongs can make a right: these tokens are cut
   in the wrong places, and still the declared parameters are read.
   */
  lemma StrayTextsCancel()
    ensures Named(STRAY_TEXTS) && !Closing(Tokens(STRAY_TEXTS)) && !CommaFree(Tokens(STRAY_TEXTS))
    ensures ShapeOf(Printed(STRAY_TEXTS)) == ParamsOf(STRAY_TEXTS)
  {
    hide FindTop, Walk, TokensShape, SplitTop, Printed, Tokens, ParamsOf, PositionalText;
    TwoTokens("c", "'1, d=('", "d", "2");
    assert "c" + "=" + "'1, d=('" == "c='1, d=('" && "d" + "=" + "2" == "d=2";
    assert "(" + ("c='1, d=('" + ", " + "d=2") + ")" == "(c='1, d=(', d=2)";
    StrayPieces();
    StrayFlaws();
    StrayShape();
    assert Tokens(STRAY_TEXTS)[0] == "c='1, d=('";
    assert BeforeSlash(["c='1", "d=(', d=2"]) == 0;
  }
}
