/**
 Reading a printed signature back: splitting it at its top-level commas, finding
 the top-level `=` and `:` of a token, and recovering each parameter's shape.
 */
module SignatureText {
  import opened Text
  import opened SignatureShape

  // ----- bracket depth

  datatype Depth = Depth(paren: int, bracket: int, brace: int) {
    predicate Zero() {
      paren == 0 && bracket == 0 && brace == 0
    }

    function After(c: char): Depth {
      if c == '(' then this.(paren := paren + 1)
      else if c == ')' then this.(paren := paren - 1)
      else if c == '[' then this.(bracket := bracket + 1)
      else if c == ']' then this.(bracket := bracket - 1)
      else if c == '{' then this.(brace := brace + 1)
      else if c == '}' then this.(brace := brace - 1)
      else this
    }
  }

  const TOP := Depth(0, 0, 0)

  predicate IsBracket(c: char) {
    c == '(' || c == ')' || c == '[' || c == ']' || c == '{' || c == '}'
  }

  function Walk(d: Depth, s: string): Depth
    decreases s
  {
    if s == "" then d else Walk(d.After(s[0]), s[1..])
  }

  // ----- the two scanners

  predicate Hit(c: char, target: char, d: Depth) {
    !IsBracket(c) && c == target && d.Zero()
  }

  /** The first top-level `target`, scanning from depth `d`; -1 when there is none. */
  function FindTop(s: string, target: char, d: Depth): (i: int)
    ensures -1 <= i < |s|
  {
    if s == "" then -1
    else if Hit(s[0], target, d) then 0
    else
      var r := FindTop(s[1..], target, d.After(s[0]));
      if r == -1 then -1 else r + 1
  }

  method FindTopLevelChar(text: string, target: char) returns (index: int)
    ensures index == FindTop(text, target, TOP)
  {
    var depthParen, depthBracket, depthBrace := 0, 0, 0;
    assert text[0..] == text;
    for i := 0 to |text|
      invariant FindTop(text, target, TOP) ==
                var r := FindTop(text[i..], target, Depth(depthParen, depthBracket, depthBrace));
                if r == -1 then -1 else i + r
    {
      var c := text[i];
      assert text[i..][1..] == text[i + 1..];
      if c == '(' {
        depthParen := depthParen + 1;
      } else if c == ')' {
        depthParen := depthParen - 1;
      } else if c == '[' {
        depthBracket := depthBracket + 1;
      } else if c == ']' {
        depthBracket := depthBracket - 1;
      } else if c == '{' {
        depthBrace := depthBrace + 1;
      } else if c == '}' {
        depthBrace := depthBrace - 1;
      } else if c == target && depthParen == 0 && depthBracket == 0 && depthBrace == 0 {
        return i;
      }
    }
    return -1;
  }

  /** The pieces of `s` between its top-level commas. */
  function Segments(s: string, d: Depth): (r: seq<string>)
    ensures r != []
  {
    if s == "" then [""]
    else
      var rest := Segments(s[1..], d.After(s[0]));
      if Hit(s[0], ',', d) then [""] + rest
      else [[s[0]] + rest[0]] + rest[1..]
  }

  function StripAll(parts: seq<string>): (r: seq<string>)
    ensures |r| == |parts| && forall i :: 0 <= i < |r| ==> r[i] == Strip(parts[i])
  {
    seq(|parts|, i requires 0 <= i < |parts| => Strip(parts[i]))
  }

  function Unwrap(sig: string): string {
    var t := Strip(sig);
    if |t| > 1 && t[0] == '(' && t[|t| - 1] == ')' then t[1..|t| - 1] else t
  }

  function SplitTop(sig: string): seq<string> {
    var t := Unwrap(sig);
    if t == "" then [] else StripAll(Segments(t, TOP))
  }

  // Splitting loses nothing but the commas.
  lemma {:induction false} SegmentsRejoin(s: string, d: Depth)
    ensures Join(Segments(s, d), ",") == s
  {
    if s != "" {
      var rest := Segments(s[1..], d.After(s[0]));
      SegmentsRejoin(s[1..], d.After(s[0]));
      assert s == [s[0]] + s[1..];
      if Hit(s[0], ',', d) {
        assert Segments(s, d)[1..] == rest;
      } else {
        assert |rest| > 1 ==>
            [s[0]] + rest[0] + "," + Join(rest[1..], ",") == [s[0]] + (rest[0] + "," + Join(rest[1..], ","));
      }
    }
  }

  // The state of the splitting loop: the pieces already cut, then the piece being read.
  ghost predicate SplitSoFar(text: string, pieces: seq<string>, start: nat, i: nat, d: Depth)
    requires start <= i <= |text|
  {
    var rest := Segments(text[i..], d);
    Segments(text, TOP) == pieces + [text[start..i] + rest[0]] + rest[1..]
  }

  lemma SplitAdvance(text: string, pieces: seq<string>, start: nat, i: nat, d: Depth)
    requires start <= i < |text| && SplitSoFar(text, pieces, start, i, d)
    ensures !Hit(text[i], ',', d) ==> SplitSoFar(text, pieces, start, i + 1, d.After(text[i]))
    ensures Hit(text[i], ',', d) ==> SplitSoFar(text, pieces + [text[start..i]], i + 1, i + 1, d.After(text[i]))
  {
    hide IsBracket;
    var rest := Segments(text[i + 1..], d.After(text[i]));
    assert text[i..][1..] == text[i + 1..];
    if Hit(text[i], ',', d) {
      assert text[start..i] + "" == text[start..i];
      assert text[i + 1..i + 1] + rest[0] == rest[0];
      assert [rest[0]] + rest[1..] == rest;
    } else {
      assert text[start..i] + ([text[i]] + rest[0]) == text[start..i + 1] + rest[0];
    }
  }

  method SplitTopLevelParams(sig: string) returns (params: seq<string>)
    ensures params == SplitTop(sig)
  {
    var trimmed := Strip(sig);
    if |trimmed| > 1 && trimmed[0] == '(' && trimmed[|trimmed| - 1] == ')' {
      trimmed := trimmed[1..|trimmed| - 1];
    }
    if trimmed == "" {
      return [];
    }
    params := CutAndStrip(trimmed);
  }

  lemma SplitStart(text: string)
    ensures SplitSoFar(text, [], 0, 0, TOP)
  {
    var all := Segments(text, TOP);
    assert text[0..] == text && text[0..0] + all[0] == all[0] && [all[0]] + all[1..] == all;
  }

  lemma SplitEnd(text: string, pieces: seq<string>, start: nat, d: Depth)
    requires start <= |text| && SplitSoFar(text, pieces, start, |text|, d)
    ensures Segments(text, TOP) == pieces + [text[start..]]
  {
    assert text[start..|text|] + "" == text[start..];
  }

  method CutAndStrip(trimmed: string) returns (params: seq<string>)
    ensures params == StripAll(Segments(trimmed, TOP))
  {
    hide SplitSoFar, Segments, Strip;
    params := [];
    ghost var pieces: seq<string> := [];
    var start, depth := 0, TOP;
    SplitStart(trimmed);
    for i := 0 to |trimmed|
      invariant start <= i
      invariant params == StripAll(pieces)
      invariant SplitSoFar(trimmed, pieces, start, i, depth)
    {
      SplitAdvance(trimmed, pieces, start, i, depth);
      if Hit(trimmed[i], ',', depth) {
        params := params + [Strip(trimmed[start..i])];
        pieces := pieces + [trimmed[start..i]];
        start := i + 1;
      }
      depth := depth.After(trimmed[i]);
    }
    SplitEnd(trimmed, pieces, start, depth);
    params := params + [Strip(trimmed[start..])];
  }

  // ----- one token

  function NameOf(body: string): string {
    var e := FindTop(body, '=', TOP);
    var beforeDefault := if e == -1 then body else Strip(body[..e]);
    var c := FindTop(beforeDefault, ':', TOP);
    if c == -1 then beforeDefault else Strip(beforeDefault[..c])
  }

  function TokenShape(token: string, beforeSlash: bool, kwOnlyMode: bool): Param {
    var raw := Strip(token);
    if StartsWith(raw, "**") then Param(NameOf(Strip(raw[2..])), VarKeyword, false)
    else if StartsWith(raw, "*") then Param(NameOf(Strip(raw[1..])), VarPositional, false)
    else
      var kind := if beforeSlash then PositionalOnly else if kwOnlyMode then KeywordOnly else PositionalOrKeyword;
      Param(NameOf(raw), kind, FindTop(raw, '=', TOP) == -1)
  }

  predicate Separator(token: string) {
    token == "" || token == "/" || token == "*"
  }

  // A bare `*`, and a `*args`, make what follows keyword-only.
  predicate StartsKeywordOnly(token: string) {
    token == "*" || (StartsWith(Strip(token), "*") && !StartsWith(Strip(token), "**"))
  }

  /** `positionalOnly` counts the tokens still to come before the `/`. */
  function TokensShape(tokens: seq<string>, positionalOnly: nat, kwOnlyMode: bool): Shape {
    if tokens == [] then []
    else
      var here := if Separator(tokens[0]) then [] else [TokenShape(tokens[0], positionalOnly > 0, kwOnlyMode)];
      var left := if positionalOnly > 0 then positionalOnly - 1 else 0;
      here + TokensShape(tokens[1..], left, kwOnlyMode || StartsKeywordOnly(tokens[0]))
  }

  /** Blank pieces and the markers are no parameters; the star makes what follows keyword-only. */
  lemma MarkersSkipped(rest: seq<string>, positionalOnly: nat, kwOnlyMode: bool)
    ensures var left := if positionalOnly > 0 then positionalOnly - 1 else 0;
            && TokensShape([""] + rest, positionalOnly, kwOnlyMode) == TokensShape(rest, left, kwOnlyMode)
            && TokensShape(["/"] + rest, positionalOnly, kwOnlyMode) == TokensShape(rest, left, kwOnlyMode)
            && TokensShape(["*"] + rest, positionalOnly, kwOnlyMode) == TokensShape(rest, left, true)
  {
    hide TokenShape, LStrip, RStrip;
    assert ([""] + rest)[1..] == rest && (["/"] + rest)[1..] == rest && (["*"] + rest)[1..] == rest;
    BlankStripped();
    StripSolid("/");
  }

  lemma BlankStripped()
    ensures Strip("") == ""
  {
  }

  function IndexOf(tokens: seq<string>, token: string): (i: int)
    ensures -1 <= i < |tokens|
    ensures i >= 0 ==> tokens[i] == token && forall j :: 0 <= j < i ==> tokens[j] != token
    ensures i == -1 ==> forall j :: 0 <= j < |tokens| ==> tokens[j] != token
  {
    if tokens == [] then -1
    else if tokens[0] == token then 0
    else
      var r := IndexOf(tokens[1..], token);
      if r == -1 then -1 else r + 1
  }

  function BeforeSlash(tokens: seq<string>): nat {
    var i := IndexOf(tokens, "/");
    if i == -1 then 0 else i
  }

  /** The shape a printed signature is read back as. */
  function ShapeOf(sig: string): Shape {
    TokensShape(SplitTop(sig), BeforeSlash(SplitTop(sig)), false)
  }

  method ParseToken(token: string, beforeSlash: bool, kwOnlyMode: bool) returns (param: Param)
    ensures param == TokenShape(token, beforeSlash, kwOnlyMode)
  {
    var raw := Strip(token);
    var nameBody, kind, required;
    if StartsWith(raw, "**") {
      nameBody, kind, required := Strip(raw[2..]), VarKeyword, false;
    } else if StartsWith(raw, "*") {
      nameBody, kind, required := Strip(raw[1..]), VarPositional, false;
    } else {
      nameBody := raw;
      if beforeSlash {
        kind := PositionalOnly;
      } else if kwOnlyMode {
        kind := KeywordOnly;
      } else {
        kind := PositionalOrKeyword;
      }
      var equalsAt := FindTopLevelChar(nameBody, '=');
      required := equalsAt == -1;
    }
    var equalsIndex := FindTopLevelChar(nameBody, '=');
    var beforeDefault := if equalsIndex == -1 then nameBody else Strip(nameBody[..equalsIndex]);
    var colonIndex := FindTopLevelChar(beforeDefault, ':');
    var name := if colonIndex == -1 then beforeDefault else Strip(beforeDefault[..colonIndex]);
    param := Param(name, kind, required);
  }

  // How many of the tokens from `index` on stand before the `/`.
  function LeftBefore(slash: int, index: nat): nat {
    if index < slash then slash - index else 0
  }

  // One token, and the tokens behind it.
  lemma {:induction false} TokensStep(tokens: seq<string>, index: nat, slash: int, kwOnlyMode: bool)
    requires index < |tokens|
    ensures TokensShape(tokens[index..], LeftBefore(slash, index), kwOnlyMode)
         == (if Separator(tokens[index]) then [] else [TokenShape(tokens[index], index < slash, kwOnlyMode)])
            + TokensShape(tokens[index + 1..], LeftBefore(slash, index + 1),
                          kwOnlyMode || StartsKeywordOnly(tokens[index]))
  {
    hide TokenShape, StartsKeywordOnly, Separator;
    assert tokens[index..][0] == tokens[index] && tokens[index..][1..] == tokens[index + 1..];
  }

  method ParseSignatureShape(sig: string) returns (params: Shape)
    ensures params == ShapeOf(sig)
  {
    var tokens := SplitTopLevelParams(sig);
    params := ParseTokens(tokens, IndexOf(tokens, "/"));
  }

  method ParseTokens(tokens: seq<string>, slashIndex: int) returns (params: Shape)
    requires slashIndex >= -1
    ensures params == TokensShape(tokens, if slashIndex == -1 then 0 else slashIndex, false)
  {
    hide StartsKeywordOnly, Separator, TokenShape, TokensShape;
    params := [];
    var kwOnlyMode := false;
    ghost var shape := TokensShape(tokens, if slashIndex == -1 then 0 else slashIndex, false);
    assert tokens[0..] == tokens;
    for index := 0 to |tokens|
      invariant shape == params + TokensShape(tokens[index..], LeftBefore(slashIndex, index), kwOnlyMode)
    {
      TokensStep(tokens, index, slashIndex, kwOnlyMode);
      if !Separator(tokens[index]) {
        var param := ParseToken(tokens[index], slashIndex != -1 && index < slashIndex, kwOnlyMode);
        params := params + [param];
      }
      if StartsKeywordOnly(tokens[index]) {
        kwOnlyMode := true;
      }
    }
    NoTokens(tokens[|tokens|..], LeftBefore(slashIndex, |tokens|), kwOnlyMode);
  }

  lemma NoTokens(tokens: seq<string>, positionalOnly: nat, kwOnlyMode: bool)
    requires tokens == []
    ensures TokensShape(tokens, positionalOnly, kwOnlyMode) == []
  {
  }
}
