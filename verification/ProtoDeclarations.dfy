/**
 Whose declaration an insertion falls into.  The pass takes the field at the start of a
 line, and the last `]` of the line that closes its block; when the declaration has ended
 before that bracket, the options land in what follows it on the line.  Whether they do
 can be read off the text before the call.
 */
module ProtoDeclarations {
  import opened Text
  import opened ProtoMask
  import opened ProtoScan
  import opened ProtoInject
  import opened ProtoPass
  import opened ProtoPassRuns
  import opened ProtoPassPlaces

  // ----- the end of a declaration, from the text alone

  /** The code view of line `x`. */
  function CodeAt(lines: seq<string>, x: nat): (code: string)
    requires x < |lines|
    ensures |code| == |lines[x]|
  {
    LineCode(lines[x], BlockAt(lines, x))
  }

  predicate Bracket(c: char) {
    c == '[' || c == ']'
  }

  /** Brackets opened less brackets closed. */
  function Net(code: string): int {
    |Positions(code, '[')| - |Positions(code, ']')|
  }

  /** A `;` outside option brackets; `depth` is the depth in front of the line. */
  predicate EndsAt(code: string, depth: int, q: nat) {
    q < |code| && code[q] == ';' && depth + Net(code[..q]) == 0
  }

  /** The first such `;` at or behind offset `q`, or -1. */
  function FirstEnd(code: string, depth: int, q: nat): (r: int)
    requires q <= |code|
    ensures r == -1 || (q <= r && EndsAt(code, depth, r))
    ensures forall k: nat :: q <= k < (if r == -1 then |code| else r) ==> !EndsAt(code, depth, k)
    decreases |code| - q
  {
    if q == |code| then -1
    else if EndsAt(code, depth, q) then q
    else FirstEnd(code, depth, q + 1)
  }

  datatype Place = Place(line: nat, at: nat)

  /** Where a declaration that starts on line `x` at bracket depth `depth` ends. */
  function DeclarationEnd(lines: seq<string>, x: nat, depth: int): (p: Option<Place>)
    requires x <= |lines|
    ensures p.Some? ==> x <= p.value.line < |lines| && p.value.at < |CodeAt(lines, p.value.line)|
    decreases |lines| - x
  {
    if x == |lines| then None
    else
      var e := FirstEnd(CodeAt(lines, x), depth, 0);
      if e != -1 then Some(Place(x, e)) else DeclarationEnd(lines, x + 1, depth + Net(CodeAt(lines, x)))
  }

  /** The first line from `x` on that ends outside option brackets. */
  function BlockEnd(lines: seq<string>, x: nat, depth: int): (r: nat)
    requires x <= |lines|
    ensures x <= r <= |lines|
    decreases |lines| - x
  {
    if x == |lines| then x
    else
      var after := depth + Net(CodeAt(lines, x));
      if after == 0 then x else BlockEnd(lines, x + 1, after)
  }

  /** The place lies in the declaration that starts on line `i`. */
  predicate InDeclaration(lines: seq<string>, i: nat, p: Place)
    requires i <= |lines|
  {
    match DeclarationEnd(lines, i, 0)
    case None => true
    case Some(end) => p.line < end.line || (p.line == end.line && p.at <= end.at)
  }

  /**
   Another declaration gets in the way: line `i` opens a bracket, and where its own
   declaration ends, no later than its block, the line goes on with more brackets.
   */
  predicate Crowded(lines: seq<string>, i: nat)
    requires i < |lines|
  {
    && '[' in CodeAt(lines, i)
    && match DeclarationEnd(lines, i, 0)
       case None => false
       case Some(end) =>
         && end.line <= BlockEnd(lines, i, 0)
         && exists k :: end.at < k < |CodeAt(lines, end.line)| && Bracket(CodeAt(lines, end.line)[k])
  }

  // ----- counting brackets

  lemma NetSnoc(code: string, n: nat)
    requires n < |code|
    ensures Net(code[..n + 1]) == Net(code[..n]) + (if code[n] == '[' then 1 else if code[n] == ']' then -1 else 0)
  {
    assert code[..n + 1] == code[..n] + [code[n]];
    PositionsSnoc(code[..n], code[n], '[');
    PositionsSnoc(code[..n], code[n], ']');
  }

  // Without a closing bracket the depth does not fall, and rises exactly at an opening one.
  lemma {:induction false} NetRises(code: string, q: nat, n: nat)
    requires q <= n <= |code| && forall k :: q <= k < n ==> code[k] != ']'
    ensures Net(code[..n]) >= Net(code[..q])
    ensures Net(code[..n]) == Net(code[..q]) <==> forall k :: q <= k < n ==> code[k] != '['
    decreases n
  {
    hide Net;
    if q < n {
      NetRises(code, q, n - 1);
      NetSnoc(code, n - 1);
    }
  }

  // The depth only rises by an opening bracket.
  lemma {:induction false} RiseHasOpen(code: string, q: nat, n: nat) returns (k: nat)
    requires q <= n <= |code| && Net(code[..n]) > Net(code[..q])
    ensures q <= k < n && code[k] == '['
    decreases n
  {
    hide Net;
    NetSnoc(code, n - 1);
    if code[n - 1] == '[' {
      k := n - 1;
    } else {
      k := RiseHasOpen(code, q, n - 1);
    }
  }

  // ----- the depth the pass carries is the depth of the text

  lemma CodeOfScan(lines: seq<string>, i: nat, c: Constraints)
    requires i < |lines| && RunLines(lines, i, c).Going?
    ensures ScanAt(lines, i, c) == Scanned(lines[i], BlockAt(lines, i))
    ensures ScanAt(lines, i, c).code == CodeAt(lines, i)
    ensures |ScanAt(lines, i, c).opens| - |ScanAt(lines, i, c).closes| == Net(CodeAt(lines, i))
  {
    hide RunLines, LineCode, LineState;
    RunInvariant(lines, i, c);
  }

  lemma DepthOfStep(line: string, scan: CodeLine, st: Pass, c: Constraints)
    requires ScanFits(line, scan) && LineStep(line, scan, st, c).Moved?
    ensures LineStep(line, scan, st, c).next.depth == st.depth + |scan.opens| - |scan.closes|
  {
    hide FieldDemand, ContextAfter, BeforeSemicolon, IntoBracket;
  }

  lemma DepthOfText(lines: seq<string>, i: nat, c: Constraints)
    requires i < |lines| && RunLines(lines, i + 1, c).Going?
    ensures Before(lines, i + 1, c).depth == Before(lines, i, c).depth + Net(CodeAt(lines, i))
  {
    hide RunLines, LineStep, Before, ScanAt, Net, Sound;
    OneStep(lines, i, c);
    StepIsLineStep(lines, i, c);
    CodeOfScan(lines, i, c);
    DepthOfStep(lines[i], ScanAt(lines, i, c), Before(lines, i, c), c);
  }

  lemma {:induction false} EndFound(lines: seq<string>, x: nat, c: Constraints)
    requires x <= |lines| && RunLines(lines, |lines|, c).Going?
    ensures var end := DeclarationEnd(lines, x, Before(lines, x, c).depth);
            && (end.Some? ==>
                  && FirstEnd(CodeAt(lines, end.value.line), Before(lines, end.value.line, c).depth, 0) == end.value.at
                  && forall y :: x <= y < end.value.line ==>
                       FirstEnd(CodeAt(lines, y), Before(lines, y, c).depth, 0) == -1)
            && (end.None? ==>
                  forall y :: x <= y < |lines| ==> FirstEnd(CodeAt(lines, y), Before(lines, y, c).depth, 0) == -1)
    decreases |lines| - x
  {
    hide RunLines, Before, CodeAt, Net, FirstEnd;
    if x < |lines| {
      GoingAt(lines, x + 1, |lines|, c);
      DepthOfText(lines, x, c);
      EndFound(lines, x + 1, c);
    }
  }

  lemma {:induction false} HomeIsBlockEnd(lines: seq<string>, x: nat, j: nat, c: Constraints)
    requires x <= j < |lines| && RunLines(lines, |lines|, c).Going?
    requires Before(lines, j + 1, c).depth == 0 && forall y :: x < y <= j ==> Before(lines, y, c).depth > 0
    ensures BlockEnd(lines, x, Before(lines, x, c).depth) == j
    decreases j - x
  {
    hide RunLines, Before, CodeAt, Net;
    GoingAt(lines, x + 1, |lines|, c);
    DepthOfText(lines, x, c);
    if x < j {
      HomeIsBlockEnd(lines, x + 1, j, c);
    }
  }

  // ----- the offsets the pass uses

  lemma {:induction false} LastPosition(code: string, c: char)
    ensures Positions(code, c) == [] <==> c !in code
    ensures var ps := Positions(code, c);
            ps != [] ==> code[ps[|ps| - 1]] == c && forall k :: ps[|ps| - 1] < k < |code| ==> code[k] != c
  {
    if code != "" {
      var n := |code| - 1;
      LastPosition(code[..n], c);
      assert code == code[..n] + [code[n]];
      assert forall k :: 0 <= k < n ==> code[..n][k] == code[k];
    }
  }

  lemma {:induction false} FirstPosition(code: string, c: char)
    ensures var ps := Positions(code, c);
            ps != [] ==> code[ps[0]] == c && forall k :: 0 <= k < ps[0] ==> code[k] != c
  {
    if code != "" {
      var n := |code| - 1;
      FirstPosition(code[..n], c);
      LastPosition(code[..n], c);
      assert forall k :: 0 <= k < n ==> code[..n][k] == code[k];
    }
  }

  // Where no bracket stands, every `;` ends a declaration.
  lemma EndWithoutBrackets(code: string)
    requires Positions(code, '[') == [] && Positions(code, ']') == [] && Positions(code, ';') != []
    ensures FirstEnd(code, 0, 0) == Positions(code, ';')[0]
  {
    hide Positions, FirstEnd, Net;
    LastPosition(code, '[');
    LastPosition(code, ']');
    FirstPosition(code, ';');
    assert code[..0] == "";
    assert Net("") == 0 by { NetOfNothing(); }
    var q := Positions(code, ';')[0];
    NetRises(code, 0, q);
    assert EndsAt(code, 0, q);
    var r := FirstEnd(code, 0, 0);
    assert r == -1 || code[r] == ';' by { EndIsSemicolon(code, 0, 0); }
  }

  lemma NetOfNothing()
    ensures Net("") == 0
  {
  }

  lemma EndIsSemicolon(code: string, depth: int, q: nat)
    requires q <= |code|
    ensures FirstEnd(code, depth, q) != -1 ==> code[FirstEnd(code, depth, q)] == ';'
  {
  }

  // ----- an insertion and the declaration of its field

  // The bracket that closes the block, and an end of declaration on the same line.
  lemma BracketOrEnd(code: string, depth: int, at: nat, end: nat)
    requires EndsAt(code, depth, end) && depth + Net(code) == 0
    requires at < |code| && code[at] == ']' && forall k :: at < k < |code| ==> code[k] != ']'
    ensures at <= end <==> !(exists k :: end < k < |code| && Bracket(code[k]))
  {
    hide Net;
    assert code[..|code|] == code;
    if at <= end {
      assert at < end;
      NetRises(code, end, |code|);
    } else {
      assert Bracket(code[at]);
    }
  }

  // The declaration ends on a line that ends inside option brackets again.
  lemma BracketBehindEnd(code: string, depth: int, end: nat)
    requires EndsAt(code, depth, end) && depth + Net(code) > 0
    ensures exists k :: end < k < |code| && Bracket(code[k])
  {
    hide Net;
    assert code[..|code|] == code;
    var k := RiseHasOpen(code, end, |code|);
    assert Bracket(code[k]);
  }

  // On the field's own line, without brackets: always right.
  lemma OwnLineWithoutBrackets(lines: seq<string>, i: nat, d: Demand, c: Constraints)
    requires RunLines(lines, |lines|, c).Going? && i < |lines|
    requires Before(lines, i, c).depth == 0 && ScanAt(lines, i, c).opens == []
    requires OnOwnLine(lines[i], ScanAt(lines, i, c), d, EditAt(lines, i, c))
    ensures EditAt(lines, i, c).Insert? && InDeclaration(lines, i, Place(i, EditAt(lines, i, c).at))
    ensures !Crowded(lines, i)
  {
    hide RunLines, Before, EditAt, BlockEnd, FirstEnd, LineCode;
    GoingAt(lines, i + 1, |lines|, c);
    GoingAt(lines, i, |lines|, c);
    DepthOfText(lines, i, c);
    CodeOfScan(lines, i, c);
    EndWithoutBrackets(CodeAt(lines, i));
    LastPosition(CodeAt(lines, i), '[');
  }

  // In the bracket that closes the block: right unless another declaration is in the way.
  lemma InBlockExactly(lines: seq<string>, i: nat, j: nat, d: Demand, c: Constraints)
    requires RunLines(lines, |lines|, c).Going? && Home(lines, i, j, c)
    requires Before(lines, i, c).depth == 0 && '[' in CodeAt(lines, i)
    requires IntoBlock(ScanAt(lines, j, c), d, EditAt(lines, j, c))
    ensures EditAt(lines, j, c).Insert?
    ensures InDeclaration(lines, i, Place(j, EditAt(lines, j, c).at)) <==> !Crowded(lines, i)
  {
    hide RunLines, Before, EditAt, DeclarationEnd, BlockEnd, FirstEnd, LineCode, Net, EndsAt, Bracket;
    EndFound(lines, i, c);
    HomeIsBlockEnd(lines, i, j, c);
    GoingAt(lines, j, |lines|, c);
    GoingAt(lines, j + 1, |lines|, c);
    DepthOfText(lines, j, c);
    CodeOfScan(lines, j, c);
    LastPosition(CodeAt(lines, j), ']');
    var end := DeclarationEnd(lines, i, 0);
    if end.Some? {
      var x := end.value.line;
      if x == j {
        BracketOrEnd(CodeAt(lines, j), Before(lines, j, c).depth, EditAt(lines, j, c).at, end.value.at);
      } else if x < j {
        GoingAt(lines, x + 1, |lines|, c);
        DepthOfText(lines, x, c);
        BracketBehindEnd(CodeAt(lines, x), Before(lines, x, c).depth, end.value.at);
      }
    }
  }

  /**
   The options of a constrained field are inserted in its own declaration exactly if no
   other declaration gets in the way.
   */
  lemma OwnDeclarationExactly(lines: seq<string>, i: nat, j: nat, c: Constraints)
    requires Succeeds(lines, c) && i < |lines| && DemandAt(lines, i, c).Some? && Home(lines, i, j, c)
    requires MetAt(lines, i, j, DemandAt(lines, i, c).value, c)
    ensures EditAt(lines, j, c).Insert?
    ensures InDeclaration(lines, i, Place(j, EditAt(lines, j, c).at)) <==> !Crowded(lines, i)
  {
    hide RunLines, Before, EditAt, InDeclaration, Crowded, OnOwnLine, IntoBlock, ScanAt, DemandAt, Rewrite, CodeAt,
        Home;
    var d := DemandAt(lines, i, c).value;
    SucceedsMeans(lines, c);
    var home := DemandIsMet(lines, i, c, d);
    GoingAt(lines, i, |lines|, c);
    CodeOfScan(lines, i, c);
    LastPosition(CodeAt(lines, i), '[');
    if ScanAt(lines, i, c).opens == [] {
      HomeWithoutBrackets(lines, i, j, c);
      OwnLineWithoutBrackets(lines, i, d, c);
    } else {
      OwnIsBlock(lines, i, j, d, c);
      InBlockExactly(lines, i, j, d, c);
    }
  }

  /** The demand of line `i` is met once, and the test on the text tells in whose declaration. */
  ghost predicate DemandPlaced(lines: seq<string>, i: nat, c: Constraints)
    requires i < |lines| && DemandAt(lines, i, c).Some?
  {
    exists j: nat ::
      && Home(lines, i, j, c) && MetAt(lines, i, j, DemandAt(lines, i, c).value, c) && EditAt(lines, j, c).Insert?
      && (InDeclaration(lines, i, Place(j, EditAt(lines, j, c).at)) <==> !Crowded(lines, i))
  }

  lemma DemandsArePlaced(lines: seq<string>, c: Constraints)
    requires Succeeds(lines, c)
    ensures forall i :: 0 <= i < |lines| && DemandAt(lines, i, c).Some? ==> DemandPlaced(lines, i, c)
  {
    hide RunLines, Home, MetAt, DemandAt, EditAt, InDeclaration, Crowded, Rewrite;
    forall i | 0 <= i < |lines| && DemandAt(lines, i, c).Some? ensures DemandPlaced(lines, i, c) {
      var j := DemandIsMet(lines, i, c, DemandAt(lines, i, c).value);
      OwnDeclarationExactly(lines, i, j, c);
    }
  }

  lemma HomeWithoutBrackets(lines: seq<string>, i: nat, j: nat, c: Constraints)
    requires RunLines(lines, |lines|, c).Going? && Home(lines, i, j, c)
    requires Before(lines, i, c).depth == 0 && ScanAt(lines, i, c).opens == []
    ensures i == j
  {
    hide RunLines, Before, ScanAt;
    GoingAt(lines, i + 1, |lines|, c);
    GoingAt(lines, i, |lines|, c);
    DepthOfText(lines, i, c);
    CodeOfScan(lines, i, c);
    assert Before(lines, i + 1, c).depth == 0;
  }

  lemma OwnIsBlock(lines: seq<string>, i: nat, j: nat, d: Demand, c: Constraints)
    requires MetAt(lines, i, j, d, c) && ScanAt(lines, i, c).opens != []
    ensures IntoBlock(ScanAt(lines, j, c), d, EditAt(lines, j, c))
  {
    hide ScanAt, EditAt, IntoBlock;
  }

  // ----- two fields on one line

  // Two fields, the second with a bracket: the code view is the line.
  const CROWDED := "a b=1;c d=2[x];"

  lemma {:induction false} PlainLine(text: string)
    requires forall k :: 0 <= k < |text| ==> !IsQuote(text[k]) && text[k] != '/'
    ensures LineCode(text, false) == text && !LineState(text, false)
    decreases |text|
  {
    if text != "" {
      PlainLine(text[1..]);
    }
  }

  lemma {:induction false} OnlyPosition(code: string, c: char, i: nat)
    requires i < |code| && forall k :: 0 <= k < |code| ==> (code[k] == c <==> k == i)
    ensures Positions(code, c) == [i]
    decreases |code|
  {
    var n := |code| - 1;
    if i < n {
      OnlyPosition(code[..n], c, i);
    } else {
      LastPosition(code[..n], c);
    }
  }

  lemma CrowdedChars()
    ensures |CROWDED| == 15
    ensures forall k :: 0 <= k < 15 ==> !IsQuote(CROWDED[k]) && CROWDED[k] != '/'
    ensures forall k :: 0 <= k < 15 ==> (CROWDED[k] == '[' <==> k == 11) && (CROWDED[k] == ']' <==> k == 13)
    ensures forall k :: 0 <= k < 15 ==> (CROWDED[k] == ';' <==> k == 5 || k == 14)
    ensures CROWDED[..13] == "a b=1;c d=2[x" && CROWDED[13..] == "];" && CROWDED[0] == 'a'
  {
  }

  lemma CrowdedScan()
    ensures var scan := Scanned(CROWDED, false);
            && scan.code == CROWDED && !scan.inBlockComment && scan.opens == [11] && scan.closes == [13]
  {
    hide Positions;
    CrowdedChars();
    PlainLine(CROWDED);
    OnlyPosition(CROWDED, '[', 11);
    OnlyPosition(CROWDED, ']', 13);
  }

  lemma OtherWord(s: string, keyword: string)
    requires s != "" && keyword != "" && !IsSpace(s[0]) && keyword[0] != s[0]
    ensures SkipSpace(s, 0) == 0 && !StartsAt(s, 0, keyword)
  {
    forall word | word != "" && StartsAt(s, 0, word) ensures word[0] == s[0] {
      assert s[0..|word|][0] == s[0];
    }
  }

  lemma CrowdedTail()
    ensures FieldTail(CROWDED, 0) == Some("b")
  {
    var s := CROWDED;
    assert SkipWord(s, 1, true) == 1 && SkipWord(s, 0, true) == 1;
    assert SkipSpace(s, 2) == 2 && SkipSpace(s, 1) == 2;
    assert SkipWord(s, 3, false) == 3 && SkipWord(s, 2, false) == 3;
    assert SkipSpace(s, 3) == 3 && SkipSpace(s, 4) == 4;
    hide SkipSpace, SkipWord, WordChar, IsSpace;
    assert s[2..3] == "b";
  }

  // The field of the line is the first one.
  lemma CrowdedField()
    ensures FieldName(CROWDED) == Some("b") && OpenedScope(CROWDED).None? && !AllSpace(CROWDED)
  {
    hide FieldTail, SkipSpace, SkipWord, StartsAt;
    CrowdedTail();
    assert CROWDED[0] == 'a' && !IsSpace('a');
    OtherWord(CROWDED, "message");
    OtherWord(CROWDED, "oneof");
    OtherWord(CROWDED, "enum");
    OtherWord(CROWDED, "optional");
    OtherWord(CROWDED, "repeated");
  }

  lemma CrowdedDemand(c: Constraints)
    requires c.specific == map[]
    ensures FieldDemand(CROWDED, [], c)
         == if Base("b", c) == map[] then None
            else Some(Demand(FormatOptions(Base("b", c)), {}, MatchedWildcard("b", c)))
  {
    hide FieldName, OpenedScope, FormatOptions, Base, MatchedWildcard;
    CrowdedField();
    assert Collected("b", [], c) == Base("b", c);
    assert MatchedKeys("b", [], c) == {};
  }

  function CrowdedEdit(c: Constraints): Edit {
    match FieldDemand(CROWDED, [], c)
    case None => Keep
    case Some(d) => Insert(13, 0, ", " + d.opts)
  }

  lemma CrowdedLine(c: Constraints)
    ensures ScanFits(CROWDED, Scanned(CROWDED, false))
    ensures var step := LineStep(CROWDED, Scanned(CROWDED, false), START, c);
            step.Moved? && step.edit == CrowdedEdit(c) && step.next.depth == 0 && step.next.pending.None?
  {
    hide Scanned, FieldDemand, ContextAfter, AllSpace, FieldName, OpenedScope, BeforeSemicolon;
    CrowdedScan();
    CrowdedField();
    ScannedFits(CROWDED, false);
  }

  lemma CrowdedStep(c: Constraints)
    requires c.specific == map[]
    ensures var demand := FieldDemand(CROWDED, [], c);
            && Rewrite([CROWDED], c).Rewritten?
            && Rewrite([CROWDED], c).lines
               == [if demand.None? then CROWDED else "a b=1;c d=2[x, " + demand.value.opts + "];"]
  {
    hide Scanned, FieldDemand, LineStep;
    CrowdedLine(c);
    CrowdedChars();
    assert RunLines([CROWDED], 0, c).Going?;
    var demand := FieldDemand(CROWDED, [], c);
    if demand.Some? {
      var opts := demand.value.opts;
      assert "a b=1;c d=2[x" + (", " + opts) + "];" == "a b=1;c d=2[x, " + opts + "];";
    }
  }

  /**
   The options of the first field are put into the brackets of the second, although the
   declaration of the first has ended.
   */
  lemma CrowdedLineMisplaces(opts: Options)
    requires opts != map[]
    ensures var c := Constraints(map[], map["b" := opts]);
            && FieldName(CROWDED) == Some("b") && Crowded([CROWDED], 0)
            && Rewrite([CROWDED], c).Rewritten?
            && Rewrite([CROWDED], c).lines == ["a b=1;c d=2[x, " + FormatOptions(opts) + "];"]
  {
    hide Rewrite, FormatOptions, FieldName, OpenedScope, FieldDemand;
    CrowdedStep(Constraints(map[], map["b" := opts]));
    CrowdedDemand(Constraints(map[], map["b" := opts]));
    CrowdedField();
    CrowdedIsCrowded();
  }

  lemma CrowdedEnds()
    ensures FirstEnd(CROWDED, 0, 0) == 5 && Net(CROWDED) == 0
  {
    hide Positions, FirstEnd;
    CrowdedChars();
    assert Net(CROWDED) == 0 by {
      OnlyPosition(CROWDED, '[', 11);
      OnlyPosition(CROWDED, ']', 13);
    }
    assert Net(CROWDED[..5]) == 0 by {
      LastPosition(CROWDED[..5], '[');
      LastPosition(CROWDED[..5], ']');
    }
    hide Net;
    assert EndsAt(CROWDED, 0, 5);
    EndIsSemicolon(CROWDED, 0, 0);
  }

  lemma CrowdedIsCrowded()
    ensures Crowded([CROWDED], 0)
  {
    hide LineCode, Net, FirstEnd;
    CrowdedChars();
    PlainLine(CROWDED);
    CrowdedEnds();
    assert CodeAt([CROWDED], 0) == CROWDED;
    assert CROWDED[11] == '[' && Bracket(CROWDED[11]);
  }

  /** A second field on the line is never looked at, whatever is asked of it. */
  lemma SecondFieldUnseen(opts: Options)
    ensures var c := Constraints(map[], map["d" := opts]);
            Rewrite([CROWDED], c).Rewritten? && Rewrite([CROWDED], c).lines == [CROWDED]
  {
    hide Rewrite, FormatOptions, FieldName, OpenedScope, FieldDemand;
    CrowdedStep(Constraints(map[], map["d" := opts]));
    CrowdedDemand(Constraints(map[], map["d" := opts]));
  }
}
