/**
 Whether the added import is code.  The places for it are found in the raw text, so the
 line can end up inside a block comment; it is visible exactly if no comment is open in
 front of its place, and inserted options do not change that.
 */
module ProtoImport {
  import opened Text
  import opened ProtoInsert
  import opened ProtoMask
  import opened ProtoScan
  import opened ProtoInject
  import opened ProtoPass
  import opened ProtoPassRuns
  import opened ProtoPassPlaces
  import opened ProtoDeclarations
  import opened ProtoInjector

  // ----- the import line and the comment in front of it

  lemma {:induction false} BlockBefore(lines: seq<string>, other: seq<string>, p: nat)
    requires p <= |lines| && p <= |other| && lines[..p] == other[..p]
    ensures BlockAt(lines, p) == BlockAt(other, p)
    decreases p
  {
    hide LineState;
    if p > 0 {
      assert lines[p - 1] == lines[..p][p - 1] == other[p - 1];
      assert lines[..p - 1] == lines[..p][..p - 1] && other[..p - 1] == other[..p][..p - 1];
      BlockBefore(lines, other, p - 1);
    }
  }

  predicate Plain(s: string) {
    forall k :: 0 <= k < |s| ==> !IsQuote(s[k]) && s[k] != '/'
  }

  lemma {:induction false} PlainStart(s: string, t: string)
    requires Plain(s) && (t == "" || (t[0] != '/' && t[0] != '*'))
    ensures LineCode(s + t, false) == s + LineCode(t, false)
    ensures LineState(s + t, false) == LineState(t, false)
    decreases |s|
  {
    if s == "" {
      assert s + t == t;
    } else {
      assert (s + t)[1..] == s[1..] + t;
      PlainStart(s[1..], t);
    }
  }

  lemma CommentStart(s: string)
    requires s != ""
    ensures LineCode(s, true)[0] == ' '
  {
  }

  /** The line `import "path";` shows its keyword exactly outside comments. */
  lemma ImportShows(path: string, b: bool)
    ensures "import " <= LineCode(ImportLine(path), b) <==> !b
  {
    hide LineCode;
    var rest := "\"" + path + "\";";
    assert ImportLine(path) == "import " + rest;
    if b {
      CommentStart(ImportLine(path));
    } else {
      PlainStart("import ", rest);
    }
  }

  // ----- the comment state does not depend on what is inserted

  /** How far the line scanner goes in one step; 0 if it does not get past a comment or literal. */
  function Stride(s: string, b: bool): (n: nat)
    ensures n <= |s|
  {
    if s == "" then 0
    else if b then if HasClose(s) then CloseSpan(s) else 0
    else if Opens(s, '/', '/') then 0
    else if Opens(s, '/', '*') then 2
    else if IsQuote(s[0]) then if Closed(s[1..], s[0]) then 1 + Span(s[1..], s[0]) else 0
    else 1
  }

  /** Whether that step opens a comment. */
  predicate Enters(s: string, b: bool) {
    !b && Opens(s, '/', '*')
  }

  /** Scanning `s` arrives at offset `i`, outside comments and literals. */
  predicate Reaches(s: string, b: bool, i: nat)
    decreases i
  {
    if i == 0 then !b
    else
      var n := Stride(s, b);
      0 < n <= i && Reaches(s[n..], Enters(s, b), i - n)
  }

  lemma StateStride(s: string, b: bool)
    requires Stride(s, b) > 0
    ensures LineState(s, b) == LineState(s[Stride(s, b)..], Enters(s, b))
  {
    hide HasClose, CloseSpan, Span, Closed;
  }

  lemma BehindSpaces(n: nat, rest: string, i: nat)
    requires i < n + |rest| && (Spaces(n) + rest)[i] != ' '
    ensures n <= i && (Spaces(n) + rest)[i] == rest[i - n]
  {
  }

  lemma BlockStride(s: string, i: nat)
    requires i < |s| && LineCode(s, true)[i] != ' '
    ensures var n := Stride(s, true); 0 < n <= i && LineCode(s[n..], false)[i - n] == LineCode(s, true)[i]
  {
    hide HasClose, CloseSpan, Spaces;
    if HasClose(s) {
      BehindSpaces(CloseSpan(s), LineCode(s[CloseSpan(s)..], false), i);
    }
  }

  lemma QuoteStride(s: string, i: nat)
    requires i < |s| && IsQuote(s[0]) && LineCode(s, false)[i] != ' '
    ensures var n := Stride(s, false); 0 < n <= i && LineCode(s[n..], false)[i - n] == LineCode(s, false)[i]
  {
    hide HasClose, CloseSpan, Span, Closed, Spaces;
    var n := 1 + Span(s[1..], s[0]);
    BehindSpaces(n, LineCode(s[n..], false), i);
    if !Closed(s[1..], s[0]) {
      OpenSpan(s[1..], s[0]);
    }
  }

  lemma CodeStride(s: string, b: bool, i: nat)
    requires i < |s| && LineCode(s, b)[i] != ' ' && (b || i > 0)
    ensures var n := Stride(s, b); 0 < n <= i && LineCode(s[n..], Enters(s, b))[i - n] == LineCode(s, b)[i]
  {
    hide HasClose, CloseSpan, Span, Closed, Spaces;
    if b {
      BlockStride(s, i);
    } else if Opens(s, '/', '*') {
      BehindSpaces(2, LineCode(s[2..], true), i);
    } else if IsQuote(s[0]) {
      QuoteStride(s, i);
    }
  }

  // What shows is reached.
  lemma {:induction false} VisibleReached(s: string, b: bool, i: nat)
    requires i < |s| && LineCode(s, b)[i] != ' '
    ensures Reaches(s, b, i)
    decreases i
  {
    hide LineCode, Stride, Enters;
    if i > 0 || b {
      CodeStride(s, b, i);
      VisibleReached(s[Stride(s, b)..], Enters(s, b), i - Stride(s, b));
    }
  }

  lemma {:induction false} CloseSpanEnd(s: string)
    requires HasClose(s)
    ensures s[CloseSpan(s) - 1] == '/'
  {
    if !Opens(s, '*', '/') {
      CloseSpanEnd(s[1..]);
    }
  }

  lemma StrideEnd(s: string, b: bool)
    requires b || Stride(s, b) > 1
    ensures Stride(s, b) > 0 ==> !IsSpace(s[Stride(s, b) - 1])
  {
    hide HasClose, CloseSpan, Span, Closed;
    if b && HasClose(s) {
      CloseSpanEnd(s);
    } else if !b && !Opens(s, '/', '*') {
      ClosedEnd(s[1..], s[0]);
    }
  }

  lemma SolidBound(s: string, from: nat, at: nat, n: nat)
    requires from <= at <= |s| && AllSpace(s[from..at]) && 0 < n <= at && !IsSpace(s[n - 1])
    ensures n <= from
  {
    hide IsSpace;
    assert forall k :: from <= k < at ==> s[k] == s[from..at][k - from];
  }

  lemma SliceBehind(s: string, n: nat, from: nat, at: nat)
    requires n <= from <= at <= |s|
    ensures s[n..][from - n..at - n] == s[from..at]
  {
  }

  // White space in front of a reached offset is reached, too.
  lemma {:induction false} SpaceReached(s: string, b: bool, from: nat, at: nat)
    requires from <= at <= |s| && Reaches(s, b, at) && AllSpace(s[from..at])
    ensures Reaches(s, b, from)
    decreases at
  {
    hide Stride, Enters, AllSpace, IsSpace;
    if at > 0 && (from > 0 || b) {
      var n := Stride(s, b);
      if b || n > 1 {
        StrideEnd(s, b);
        SolidBound(s, from, at, n);
      }
      SliceBehind(s, n, from, at);
      SpaceReached(s[n..], Enters(s, b), from - n, at - n);
    }
  }

  lemma {:induction false} CloseWithin(s: string, i: nat, t: string)
    requires HasClose(s) && CloseSpan(s) <= i <= |s|
    ensures HasClose(s[..i] + t) && CloseSpan(s[..i] + t) == CloseSpan(s)
  {
    var u := s[..i] + t;
    assert u[0] == s[0] && u[1] == s[1];
    if !Opens(s, '*', '/') {
      assert u[1..] == s[1..][..i - 1] + t;
      CloseWithin(s[1..], i - 1, t);
    }
  }

  lemma {:induction false} ClosedWithin(s: string, q: char, i: nat, t: string)
    requires Closed(s, q) && Span(s, q) <= i <= |s|
    ensures Closed(s[..i] + t, q) && Span(s[..i] + t, q) == Span(s, q)
  {
    var u := s[..i] + t;
    assert i > 0 && u[0] == s[0];
    if s[0] == '\\' {
      assert u[2..] == s[2..][..i - 2] + t;
      ClosedWithin(s[2..], q, i - 2, t);
    } else if s[0] != q {
      assert u[1..] == s[1..][..i - 1] + t;
      ClosedWithin(s[1..], q, i - 1, t);
    }
  }

  lemma StrideWithin(s: string, b: bool, i: nat, t: string)
    requires 0 < Stride(s, b) <= i <= |s| && (t == "" || (t[0] != '/' && t[0] != '*'))
    ensures Stride(s[..i] + t, b) == Stride(s, b) && Enters(s[..i] + t, b) == Enters(s, b)
  {
    hide HasClose, CloseSpan, Span, Closed;
    var u := s[..i] + t;
    assert u[0] == s[0] && (i > 1 ==> u[1] == s[1]);
    if b {
      CloseWithin(s, i, t);
    } else if !Opens(s, '/', '*') && IsQuote(s[0]) {
      assert u[1..] == s[1..][..i - 1] + t;
      ClosedWithin(s[1..], s[0], i - 1, t);
    }
  }

  lemma CutBehind(s: string, i: nat, t: string, n: nat)
    requires n <= i <= |s|
    ensures (s[..i] + t)[n..] == s[n..][..i - n] + t
  {
  }

  // Behind a reached offset, the comment state only depends on what follows.
  lemma {:induction false} StateBehind(s: string, b: bool, i: nat, t: string)
    requires i <= |s| && Reaches(s, b, i) && (t == "" || (t[0] != '/' && t[0] != '*'))
    ensures LineState(s[..i] + t, b) == LineState(t, false)
    decreases i
  {
    hide Stride, Enters, LineState;
    var u := s[..i] + t;
    if i == 0 {
      assert u == t;
    } else {
      var n := Stride(s, b);
      StrideWithin(s, b, i, t);
      StateStride(u, b);
      CutBehind(s, i, t, n);
      StateBehind(s[n..], Enters(s, b), i - n, t);
    }
  }

  /** Inserting plain text at a visible `]` or `;` leaves the comment state at the end of the line as it is. */
  lemma EditKeepsState(line: string, b: bool, edit: Edit)
    requires CleanEdit(line, b, edit) && edit.Insert? && Plain(edit.text)
    requires edit.text != "" && edit.text[0] != '*'
    ensures EditFits(line, edit) && LineState(Edited(line, edit), b) == LineState(line, b)
  {
    hide LineState, LineCode, Reaches;
    var at, from := edit.at, edit.at - edit.cut;
    CodeIsText(line, b, at);
    VisibleReached(line, b, at);
    SpaceReached(line, b, from, at);
    StateBehind(line, b, at, line[at..]);
    assert line[..at] + line[at..] == line;
    var tail := edit.text + line[at..];
    assert Plain(edit.text) && tail[0] == edit.text[0];
    StateBehind(line, b, from, tail);
    PlainStart(edit.text, line[at..]);
    assert Edited(line, edit) == line[..from] + tail;
  }

  // ----- options without quotes and slashes

  predicate PlainValue(v: OptionValue) {
    match v
    case Number(t) => Plain(t)
    case Word(t) => Plain(t)
    case Flag(_) => true
  }

  ghost predicate PlainOptions(opts: Options) {
    forall o :: o in opts ==> PlainValue(opts[o])
  }

  ghost predicate PlainConstraints(c: Constraints) {
    && (forall k :: k in c.specific ==> PlainOptions(c.specific[k]))
    && (forall f :: f in c.wildcard ==> PlainOptions(c.wildcard[f]))
  }

  lemma {:induction false} MergedPlain(field: string, names: seq<string>, c: Constraints, n: nat)
    requires PlainConstraints(c) && n <= |names|
    ensures PlainOptions(Merged(field, names, c, n))
  {
    hide KeyOf, KeyMatches, PlainValue;
    if n > 0 {
      MergedPlain(field, names, c, n - 1);
    }
  }

  lemma PlainJoin(a: string, b: string)
    requires Plain(a) && Plain(b)
    ensures Plain(a + b)
  {
  }

  lemma NamesArePlain(o: OptionName)
    ensures Plain(NameText(o))
  {
  }

  lemma ValueIsPlain(o: OptionName, v: OptionValue)
    requires PlainValue(v)
    ensures Plain(ValueText(o, v))
  {
  }

  ghost predicate AllPlain(texts: seq<string>) {
    forall i :: 0 <= i < |texts| ==> Plain(texts[i])
  }

  lemma {:induction false} PartsPlain(opts: Options, order: seq<OptionName>)
    requires PlainOptions(opts)
    ensures AllPlain(Parts(opts, order))
  {
    hide Plain, NameText, ValueText, PlainValue;
    if order != [] {
      var o := order[0];
      PartsPlain(opts, order[1..]);
      if o in opts {
        NamesArePlain(o);
        ValueIsPlain(o, opts[o]);
        assert Plain("(nanopb).") && Plain(" = ") by { FixedTexts(); }
        PlainJoin("(nanopb).", NameText(o));
        PlainJoin("(nanopb)." + NameText(o), " = ");
        PlainJoin("(nanopb)." + NameText(o) + " = ", ValueText(o, opts[o]));
      }
    }
  }

  lemma FixedTexts()
    ensures Plain("(nanopb).") && Plain(" = ") && Plain(", ") && Plain(" [") && Plain("]") && Plain("")
  {
  }

  lemma {:induction false} JoinPlain(texts: seq<string>)
    requires AllPlain(texts)
    ensures Plain(Join(texts, ", "))
  {
    hide Plain;
    FixedTexts();
    if |texts| > 1 {
      JoinPlain(texts[1..]);
      PlainJoin(texts[0], ", ");
      PlainJoin(texts[0] + ", ", Join(texts[1..], ", "));
    }
  }

  lemma DemandPlain(code: string, context: seq<Scope>, c: Constraints)
    requires PlainConstraints(c) && FieldDemand(code, context, c).Some?
    ensures Plain(FieldDemand(code, context, c).value.opts)
  {
    hide FieldName, OpenedScope, ClosesScope, Plain, PlainConstraints, Merged, MatchedKeys;
    var field, names := FieldName(code).value, MessageNames(context);
    MergedPlain(field, names, c, |names|);
    PartsPlain(Collected(field, names, c), ORDER);
    JoinPlain(Parts(Collected(field, names, c), ORDER));
  }

  lemma DemandAtPlain(lines: seq<string>, i: nat, c: Constraints)
    requires PlainConstraints(c) && i < |lines| && DemandAt(lines, i, c).Some?
    ensures Plain(DemandAt(lines, i, c).value.opts)
  {
    hide FieldDemand, Plain, PlainConstraints, RunLines, Scanned, AllSpace;
    var st := RunLines(lines, i, c).st;
    DemandPlain(Scanned(lines[i], st.inBlock).code, st.context, c);
  }

  // ----- the whole pass

  lemma EditPlain(lines: seq<string>, j: nat, c: Constraints)
    requires Succeeds(lines, c) && PlainConstraints(c) && j < |lines| && EditAt(lines, j, c).Insert?
    ensures var text := EditAt(lines, j, c).text; Plain(text) && text != "" && text[0] != '*'
  {
    hide RunLines, Rewrite, EditAt, DemandAt, ScanAt, Home, Plain, PlainConstraints;
    var i, d := EditMeetsDemand(lines, j, c);
    DemandAtPlain(lines, i, c);
    FixedTexts();
    PlainJoin(", ", d.opts);
    PlainJoin(" [", d.opts);
    PlainJoin(" [" + d.opts, "]");
  }

  /** Injecting plain options leaves the comment state in front of every line as it was. */
  lemma {:induction false} StatesKept(lines: seq<string>, n: nat, c: Constraints)
    requires Rewrite(lines, c).Rewritten? && PlainConstraints(c) && n <= |lines|
    ensures |Rewrite(lines, c).lines| == |lines|
    ensures BlockAt(Rewrite(lines, c).lines, n) == BlockAt(lines, n)
    decreases n
  {
    hide LineState, EditAt, CleanEdit, Plain, PlainConstraints, Rewrite;
    RewrittenLength(lines, c);
    if n > 0 {
      StatesKept(lines, n - 1, c);
      LinesAreEdited(lines, n - 1, c);
      var edit := EditAt(lines, n - 1, c);
      if edit.Insert? {
        EditPlain(lines, n - 1, c);
        EditKeepsState(lines[n - 1], BlockAt(lines, n - 1), edit);
      }
    }
  }

  /** The added import is visible exactly if no block comment of the input is open where it goes. */
  lemma ImportVisibleExactly(lines: seq<string>, c: Constraints, path: string)
    requires Rewrite(lines, c).Rewritten? && PlainConstraints(c)
    ensures |Rewrite(lines, c).lines| == |lines|
    ensures var out := Rewrite(lines, c).lines;
            var p := ImportPosition(lines, out);
            var with := InsertLine(out, p, ImportLine(path));
            p.Some? ==> p.value < |with| && ("import " <= CodeAt(with, p.value) <==> !BlockAt(lines, p.value))
  {
    hide Rewrite, LineCode, LineState, PlainConstraints, ImportPosition, ImportLine, BlockAt;
    StatesKept(lines, 0, c);
    var out := Rewrite(lines, c).lines;
    var p := ImportPosition(lines, out);
    if p.Some? {
      var with := InsertLine(out, p, ImportLine(path));
      assert with[..p.value] == out[..p.value] && with[p.value] == ImportLine(path);
      StatesKept(lines, p.value, c);
      BlockBefore(with, out, p.value);
      ImportShows(path, BlockAt(lines, p.value));
    }
  }

  // A commented-out import.
  const COMMENTED := ["/*", "import \"a\";", "*/"]

  /** The line behind a commented-out import is the place, and it is still comment. */
  lemma ImportInComment()
    ensures EarlyImport(COMMENTED) == Some(2) && BlockAt(COMMENTED, 2)
  {
    hide IsImport, ImportsNanopb, LastImport, LineState;
    CommentedImport();
    assert LastImport(COMMENTED) == 1;
    CommentedState();
  }

  lemma CommentedImport()
    ensures IsImport(COMMENTED[1]) && !IsImport(COMMENTED[2])
    ensures forall i :: 0 <= i < 3 ==> !ImportsNanopb(COMMENTED[i])
  {
    hide Strip, Contains;
    var s := COMMENTED[1];
    assert Strip("/*") == "/*" && Strip(s) == s && Strip("*/") == "*/" by {
      StripSolid("/*");
      StripSolid(s);
      StripSolid("*/");
    }
    assert !Contains(s, "nanopb.proto") by {
      NoLetter(s, "nanopb.proto", 'n');
    }
    assert ';' == s[10];
    assert s[..7] == "import ";
    assert !StartsWith("/*", "import") && !StartsWith("*/", "import") && !StartsWith("*/", "import ");
  }

  lemma {:induction false} NoLetter(s: string, part: string, c: char)
    requires part != "" && c == part[0] && c !in s
    ensures !Contains(s, part)
    decreases |s|
  {
    if s != "" {
      NoLetter(s[1..], part, c);
    }
  }

  lemma CommentedState()
    ensures BlockAt(COMMENTED, 2)
  {
    assert Opens("/*", '/', '*') && "/*"[2..] == "";
    assert BlockAt(COMMENTED, 1);
    var s := COMMENTED[1];
    NoCloseMark(s);
  }

  lemma {:induction false} NoCloseMark(s: string)
    requires '*' !in s
    ensures !HasClose(s)
  {
    if s != "" {
      NoCloseMark(s[1..]);
    }
  }

  // ----- the lines the places are found by, spelled out

  predicate StandsAt(s: string, part: string, i: nat) {
    i + |part| <= |s| && s[i..i + |part|] == part
  }

  lemma StandsLater(s: string, part: string, i: nat)
    requires s != ""
    ensures StandsAt(s[1..], part, i) <==> StandsAt(s, part, i + 1)
  {
    if i + 1 + |part| <= |s| {
      assert s[i + 1..i + 1 + |part|] == s[1..][i..i + |part|];
    }
  }

  lemma StandsFirst(s: string, part: string)
    ensures StandsAt(s, part, 0) <==> part <= s
  {
    assert |part| <= |s| ==> s[0..|part|] == s[..|part|];
  }

  lemma {:induction false} ContainsExactly(s: string, part: string)
    ensures Contains(s, part) <==> exists i: nat :: StandsAt(s, part, i)
    decreases |s|
  {
    hide StandsAt;
    StandsFirst(s, part);
    if s == "" {
      NowhereElse(part);
    } else {
      ContainsExactly(s[1..], part);
      if i: nat :| StandsAt(s[1..], part, i) {
        StandsLater(s, part, i);
      }
      if i: nat :| StandsAt(s, part, i) && i > 0 {
        StandsLater(s, part, i - 1);
      }
    }
  }

  lemma NowhereElse(part: string)
    ensures forall i: nat :: StandsAt("", part, i) ==> i == 0
  {
  }

  lemma LeadStripped(lead: string, word: string, rest: string)
    requires AllSpace(lead) && word != "" && !IsSpace(word[0])
    ensures Strip(lead + (word + rest)) == RStrip(word + rest)
  {
    StripLeading(lead, word + rest);
  }

  /** An import line: white space, `import`, a blank and something, with a `;` in it. */
  lemma ImportLineSpelled(lead: string, rest: string)
    requires AllSpace(lead) && rest != "" && !IsSpace(rest[0])
    ensures IsImport(lead + ("import " + rest)) <==> ';' in rest
  {
    hide IsSpace, SolidLength;
    var line := lead + ("import " + rest);
    assert !IsSpace('i') && IsSpace(' ') by { WordsAndBlank(); }
    LeadStripped(lead, "import ", rest);
    RStripKeeps("import " + rest, 7);
    assert ("import " + rest)[..7] == "import ";
    if ';' in line {
      assert forall k :: 0 <= k < |lead| ==> IsSpace(lead[k]);
      assert !IsSpace(';') by { WordsAndBlank(); }
      assert ';' !in lead && ';' !in "import ";
    }
  }

  lemma WordsAndBlank()
    ensures !IsSpace('i') && !IsSpace(';') && !IsSpace('s') && IsSpace(' ')
  {
  }

  // What stands before a solid character is kept.
  lemma RStripKeeps(s: string, k: nat)
    requires k < |s| && !IsSpace(s[k])
    ensures s[..k] <= RStrip(s)
  {
    hide IsSpace;
    assert SolidLength(s) > k;
  }

  /** A syntax line: white space, `syntax` and something, ending in a `;` but for white space. */
  lemma SyntaxLineSpelled(lead: string, rest: string, trail: string)
    requires AllSpace(lead) && AllSpace(trail)
    ensures IsSyntax(lead + ("syntax" + (rest + ";" + trail)))
  {
    hide IsSpace, Strip, RStrip;
    assert !IsSpace('s') && !IsSpace(';') by { WordsAndBlank(); }
    LeadStripped(lead, "syntax", rest + ";" + trail);
    SolidThenSpace("syntax" + (rest + ";"), trail);
    assert "syntax" + (rest + ";") + trail == "syntax" + (rest + ";" + trail);
  }

  lemma SolidThenSpace(body: string, trail: string)
    requires AllSpace(trail) && body != "" && !IsSpace(body[|body| - 1])
    ensures RStrip(body + trail) == body
  {
    hide IsSpace, RStrip;
    assert (body + trail)[|body|..] == trail && (body + trail)[..|body|] == body;
    RStripIsLongest(body + trail, |body|);
  }

  /** Without constraints nothing is touched. */
  lemma NothingToInject(content: string, path: string)
    ensures Injected(content, Constraints(map[], map[]), path) == Done(content)
  {
  }
}
