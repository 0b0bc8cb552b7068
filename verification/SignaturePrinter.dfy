/**
 The printer of the API-surface extractor: the parameters of a function as one text,
 with the defaults patched in by index behind the last positional parameters.
 */
module SignaturePrinter {
  import opened Text
  import opened SignatureShape
  import opened SignatureText

  /** One argument; an absent annotation is the empty text. */
  datatype Arg = Arg(name: string, annotation: string)

  /** The argument lists of a function definition node, with annotations and defaults as texts. */
  datatype FunctionArgs = FunctionArgs(
    posonly: seq<Arg>, args: seq<Arg>, defaults: seq<string>,
    vararg: Option<Arg>, kwonly: seq<Arg>, kwDefaults: seq<Option<string>>, kwarg: Option<Arg>)
  {
    ghost predicate WellFormed() {
      |defaults| <= |posonly| + |args| && |kwDefaults| == |kwonly|
    }

    function Positional(): seq<Arg> {
      posonly + args
    }

    // Defaults belong to the last positional arguments, counted over both lists.
    function DefaultOf(i: nat): Option<string>
      requires i < |posonly| + |args|
    {
      var k := i - (|posonly| + |args| - |defaults|);
      if 0 <= k < |defaults| then Some(defaults[k]) else None
    }
  }

  // ----- what is printed

  function ArgText(a: Arg): string {
    if a.annotation == "" then a.name else a.name + ":" + a.annotation
  }

  function ArgTexts(xs: seq<Arg>): (r: seq<string>)
    ensures |r| == |xs| && forall i :: 0 <= i < |r| ==> r[i] == ArgText(xs[i])
  {
    seq(|xs|, i requires 0 <= i < |xs| => ArgText(xs[i]))
  }

  function WithDefault(text: string, default: Option<string>): string {
    match default
    case None => text
    case Some(d) => text + "=" + d
  }

  function PositionalText(f: FunctionArgs, i: nat): string
    requires i < |f.posonly| + |f.args|
  {
    WithDefault(ArgText(f.Positional()[i]), f.DefaultOf(i))
  }

  function PositionalTexts(f: FunctionArgs, from: nat, to: nat): (r: seq<string>)
    requires from <= to <= |f.posonly| + |f.args|
    ensures |r| == to - from && forall i :: 0 <= i < |r| ==> r[i] == PositionalText(f, from + i)
  {
    seq(to - from, i requires 0 <= i < to - from => PositionalText(f, from + i))
  }

  function KeywordTexts(f: FunctionArgs): (r: seq<string>)
    requires f.WellFormed()
    ensures |r| == |f.kwonly| && forall i :: 0 <= i < |r| ==> r[i] == WithDefault(ArgText(f.kwonly[i]), f.kwDefaults[i])
  {
    seq(|f.kwonly|, i requires 0 <= i < |f.kwonly| => WithDefault(ArgText(f.kwonly[i]), f.kwDefaults[i]))
  }

  function SlashToken(f: FunctionArgs): seq<string> {
    if f.posonly != [] then ["/"] else []
  }

  function StarToken(f: FunctionArgs): seq<string> {
    if f.vararg.Some? then ["*" + f.vararg.value.name]
    else if f.kwonly != [] then ["*"]
    else []
  }

  function KwargToken(f: FunctionArgs): seq<string> {
    if f.kwarg.Some? then ["**" + f.kwarg.value.name] else []
  }

  function PositionalTokens(f: FunctionArgs): seq<string> {
    var n := |f.posonly|;
    PositionalTexts(f, 0, n) + SlashToken(f) + PositionalTexts(f, n, n + |f.args|)
  }

  function Tokens(f: FunctionArgs): seq<string>
    requires f.WellFormed()
  {
    PositionalTokens(f) + StarToken(f) + KeywordTexts(f) + KwargToken(f)
  }

  function Printed(f: FunctionArgs): string
    requires f.WellFormed()
  {
    "(" + Join(Tokens(f), ", ") + ")"
  }

  /** The defaults belong to the last positional parameters, in order; the others print none. */
  lemma DefaultsInOrder(f: FunctionArgs)
    requires f.WellFormed()
    ensures var first := |f.posonly| + |f.args| - |f.defaults|;
            && (forall i :: 0 <= i < first ==> PositionalText(f, i) == ArgText(f.Positional()[i]))
            && (forall i :: first <= i < |f.posonly| + |f.args| ==>
                  PositionalText(f, i) == ArgText(f.Positional()[i]) + "=" + f.defaults[i - first])
  {
    hide ArgText;
  }

  /** The list, token by token: positional-only, `/`, ordinary, the star, keyword-only, the double star. */
  lemma TokensInOrder(f: FunctionArgs)
    requires f.WellFormed()
    ensures var n, m, slash := |f.posonly|, |f.args|, if f.posonly == [] then 0 else 1;
            var star := if f.vararg.Some? || f.kwonly != [] then 1 else 0;
            var t := Tokens(f);
            && |t| == n + slash + m + star + |f.kwonly| + (if f.kwarg.Some? then 1 else 0)
            && (forall i :: 0 <= i < n ==> t[i] == PositionalText(f, i))
            && (n > 0 ==> t[n] == "/")
            && (forall j :: n + slash <= j < n + slash + m ==> t[j] == PositionalText(f, j - slash))
            && (f.vararg.Some? ==> t[n + slash + m] == "*" + f.vararg.value.name)
            && (f.vararg.None? && f.kwonly != [] ==> t[n + slash + m] == "*")
            && (forall j :: n + slash + m + star <= j < n + slash + m + star + |f.kwonly| ==>
                  t[j] == KeywordText(f, j - (n + slash + m + star)))
            && (f.kwarg.Some? ==> t[|t| - 1] == "**" + f.kwarg.value.name)
  {
    hide ArgText, PositionalText, KeywordText, WithDefault, PositionalTokens, KeywordTexts;
    KeywordSpelled(f);
    PositionalInOrder(f);
  }

  lemma PositionalInOrder(f: FunctionArgs)
    ensures var n, m, slash := |f.posonly|, |f.args|, if f.posonly == [] then 0 else 1;
            var t := PositionalTokens(f);
            && |t| == n + slash + m
            && (forall i :: 0 <= i < n ==> t[i] == PositionalText(f, i))
            && (n > 0 ==> t[n] == "/")
            && (forall j :: n + slash <= j < n + slash + m ==> t[j] == PositionalText(f, j - slash))
  {
    hide ArgText, PositionalText, WithDefault;
  }

  /** A keyword-only parameter, with its own default if it has one. */
  function KeywordText(f: FunctionArgs, i: nat): string
    requires f.WellFormed() && i < |f.kwonly|
  {
    ArgText(f.kwonly[i]) + if f.kwDefaults[i].Some? then "=" + f.kwDefaults[i].value else ""
  }

  lemma KeywordSpelled(f: FunctionArgs)
    requires f.WellFormed()
    ensures forall i :: 0 <= i < |f.kwonly| ==> KeywordTexts(f)[i] == KeywordText(f, i)
  {
    hide ArgText;
    forall i | 0 <= i < |f.kwonly| ensures KeywordTexts(f)[i] == KeywordText(f, i) {
      var text := ArgText(f.kwonly[i]);
      assert text + "" == text;
      assert f.kwDefaults[i].Some? ==> text + "=" + f.kwDefaults[i].value == text + ("=" + f.kwDefaults[i].value);
    }
  }

  lemma ArgSpelled(name: string, annotation: string)
    requires annotation != ""
    ensures ArgText(Arg(name, "")) == name && ArgText(Arg(name, annotation)) == name + ":" + annotation
  {
  }

  // ----- the printer: the list is built first, then defaults are patched in by index

  // The positional tokens while defaults are being appended: every argument before
  // `pos` (posonly) and `arg` (the others) already carries its default, if it has one.
  ghost predicate Patched(f: FunctionArgs, params: seq<string>, pos: int, arg: int) {
    && |params| == |f.posonly| + |SlashToken(f)| + |f.args|
    && (f.posonly != [] ==> params[|f.posonly|] == "/")
    && (forall i :: 0 <= i < |f.posonly| ==> PosonlyAt(f, params, pos, i))
    && (forall i :: 0 <= i < |f.args| ==> ArgAt(f, params, arg, i))
  }

  ghost predicate PosonlyAt(f: FunctionArgs, params: seq<string>, bound: int, i: nat)
    requires i < |f.posonly| && i < |params|
  {
    params[i] == if i < bound then PositionalText(f, i) else ArgText(f.posonly[i])
  }

  ghost predicate ArgAt(f: FunctionArgs, params: seq<string>, bound: int, i: nat)
    requires i < |f.args| && |f.posonly| + |SlashToken(f)| + i < |params|
  {
    params[|f.posonly| + |SlashToken(f)| + i] == if i < bound then PositionalText(f, |f.posonly| + i)
        else ArgText(f.args[i])
  }

  lemma PatchedStart(f: FunctionArgs, pos: int, arg: int)
    requires f.WellFormed()
    requires pos == |f.posonly| - (if |f.defaults| > |f.args| then |f.defaults| - |f.args| else 0)
    requires arg == if |f.defaults| > |f.args| then 0 else |f.args| - |f.defaults|
    ensures Patched(f, ArgTexts(f.posonly) + SlashToken(f) + ArgTexts(f.args), pos, arg)
  {
    var n, params := |f.posonly|, ArgTexts(f.posonly) + SlashToken(f) + ArgTexts(f.args);
    hide PositionalText, ArgText;
    forall i | 0 <= i < |f.posonly| ensures PosonlyAt(f, params, pos, i) {
      assert params[i] == ArgTexts(f.posonly)[i];
      if i < pos {
        UnpatchedText(f, i);
      }
    }
    forall i | 0 <= i < |f.args| ensures ArgAt(f, params, arg, i) {
      assert params[n + |SlashToken(f)| + i] == ArgTexts(f.args)[i];
      if i < arg {
        UnpatchedText(f, n + i);
      }
    }
  }

  lemma UnpatchedText(f: FunctionArgs, i: nat)
    requires i < |f.posonly| + |f.args| && f.DefaultOf(i).None?
    ensures PositionalText(f, i) == ArgText(f.Positional()[i])
  {
  }

  lemma PatchedText(f: FunctionArgs, i: nat)
    requires i < |f.posonly| + |f.args| && f.DefaultOf(i).Some?
    ensures PositionalText(f, i) == ArgText(f.Positional()[i]) + "=" + f.DefaultOf(i).value
  {
  }

  lemma PatchPosonly(f: FunctionArgs, params: seq<string>, at: nat, arg: int)
    requires f.WellFormed() && at < |f.posonly| && Patched(f, params, at, arg)
    requires f.DefaultOf(at).Some?
    ensures Patched(f, params[at := params[at] + "=" + f.DefaultOf(at).value], at + 1, arg)
  {
    hide PositionalText, ArgText;
    PatchedText(f, at);
    var after := params[at := params[at] + "=" + f.DefaultOf(at).value];
    assert PosonlyAt(f, params, at, at);
    var next := at + 1;
    forall i | 0 <= i < |f.posonly| ensures PosonlyAt(f, after, next, i) {
      assert PosonlyAt(f, params, at, i);
    }
    forall i | 0 <= i < |f.args| ensures ArgAt(f, after, arg, i) {
      assert ArgAt(f, params, arg, i);
    }
  }

  lemma PatchArg(f: FunctionArgs, params: seq<string>, pos: int, k: nat)
    requires f.WellFormed() && k < |f.args| && Patched(f, params, pos, k)
    requires f.DefaultOf(|f.posonly| + k).Some?
    ensures var at := |f.posonly| + |SlashToken(f)| + k;
            Patched(f, params[at := params[at] + "=" + f.DefaultOf(|f.posonly| + k).value], pos, k + 1)
  {
    hide PositionalText, ArgText;
    var at := |f.posonly| + |SlashToken(f)| + k;
    PatchedText(f, |f.posonly| + k);
    var after := params[at := params[at] + "=" + f.DefaultOf(|f.posonly| + k).value];
    assert ArgAt(f, params, k, k);
    forall i | 0 <= i < |f.posonly| ensures PosonlyAt(f, after, pos, i) {
      assert PosonlyAt(f, params, pos, i);
    }
    var next := k + 1;
    forall i | 0 <= i < |f.args| ensures ArgAt(f, after, next, i) {
      assert ArgAt(f, params, k, i);
    }
  }

  lemma PatchedDone(f: FunctionArgs, params: seq<string>)
    requires Patched(f, params, |f.posonly|, |f.args|)
    ensures params == PositionalTokens(f)
  {
    hide PositionalText, ArgText;
    var n, slash, want := |f.posonly|, |SlashToken(f)|, PositionalTokens(f);
    assert |want| == |params|;
    forall i | 0 <= i < |params| ensures params[i] == want[i] {
      if i < n {
        assert PosonlyAt(f, params, n, i);
      } else if i >= n + slash {
        assert ArgAt(f, params, |f.args|, i - n - slash);
      }
    }
  }

  method PrintPositional(f: FunctionArgs) returns (params: seq<string>)
    ensures params == ArgTexts(f.posonly) + SlashToken(f) + ArgTexts(f.args)
  {
    params := [];
    for i := 0 to |f.posonly|
      invariant params == ArgTexts(f.posonly[..i])
    {
      params := params + [ArgText(f.posonly[i])];
      assert f.posonly[..i + 1] == f.posonly[..i] + [f.posonly[i]];
    }
    if f.posonly != [] {
      params := params + ["/"];
    }
    assert f.posonly[..|f.posonly|] == f.posonly;
    for i := 0 to |f.args|
      invariant params == ArgTexts(f.posonly) + SlashToken(f) + ArgTexts(f.args[..i])
    {
      params := params + [ArgText(f.args[i])];
      assert f.args[..i + 1] == f.args[..i] + [f.args[i]];
    }
    assert f.args[..|f.args|] == f.args;
  }

  method ApplyDefaults(f: FunctionArgs, texts: seq<string>) returns (params: seq<string>)
    requires f.WellFormed()
    requires texts == ArgTexts(f.posonly) + SlashToken(f) + ArgTexts(f.args)
    ensures params == PositionalTokens(f)
  {
    hide PosonlyAt, ArgAt, PositionalTexts, ArgTexts, ArgText, PositionalText, PositionalTokens;
    params := texts;
    var nPosonly, nArgs, nDefaults := |f.posonly|, |f.args|, |f.defaults|;
    var nPosonlyDefaults := if nDefaults > nArgs then nDefaults - nArgs else 0;
    var nArgsDefaults := nDefaults - nPosonlyDefaults;
    PatchedStart(f, nPosonly - nPosonlyDefaults, nArgs - nArgsDefaults);
    for i := 0 to nPosonlyDefaults
      invariant Patched(f, params, nPosonly - nPosonlyDefaults + i, nArgs - nArgsDefaults)
    {
      var argIdx := nPosonly - nPosonlyDefaults + i;
      PatchPosonly(f, params, argIdx, nArgs - nArgsDefaults);
      params := params[argIdx := params[argIdx] + "=" + f.defaults[i]];
    }
    var slashOffset := if f.posonly != [] then 1 else 0;
    for i := 0 to nArgsDefaults
      invariant Patched(f, params, nPosonly, nArgs - nArgsDefaults + i)
    {
      var argIdx := nPosonly + slashOffset + nArgs - nArgsDefaults + i;
      PatchArg(f, params, nPosonly, nArgs - nArgsDefaults + i);
      params := params[argIdx := params[argIdx] + "=" + f.defaults[nPosonlyDefaults + i]];
    }
    PatchedDone(f, params);
  }

  method PrintKeywords(f: FunctionArgs) returns (texts: seq<string>)
    requires f.WellFormed()
    ensures texts == KeywordTexts(f)
  {
    texts := [];
    for i := 0 to |f.kwonly|
      invariant |texts| == i && forall j :: 0 <= j < i ==> texts[j] == KeywordTexts(f)[j]
    {
      var s := ArgText(f.kwonly[i]);
      if f.kwDefaults[i].Some? {
        s := s + "=" + f.kwDefaults[i].value;
      }
      texts := texts + [s];
    }
  }

  method SignatureFromFunction(f: FunctionArgs) returns (text: string)
    requires f.WellFormed()
    ensures text == Printed(f)
  {
    hide PositionalTokens, KeywordTexts, Join;
    var texts := PrintPositional(f);
    var params := ApplyDefaults(f, texts);
    if f.vararg.Some? {
      params := params + ["*" + f.vararg.value.name];
    }
    if f.kwonly != [] {
      if f.vararg.None? {
        params := params + ["*"];
      }
      var keywords := PrintKeywords(f);
      params := params + keywords;
    }
    if f.kwarg.Some? {
      params := params + ["**" + f.kwarg.value.name];
    }
    assert params == Tokens(f);
    text := "(" + Join(params, ", ") + ")";
  }
}
