/**
 Every constrained field gets its options, from the text alone: a declaration outside
 option brackets and enums, with options collected for it under the messages around it,
 receives exactly those, once; and no other line asks for any.
 */
module ProtoFieldRuns {
  import opened Text
  import opened ProtoMask
  import opened ProtoScan
  import opened ProtoInject
  import opened ProtoPass
  import opened ProtoPassRuns
  import opened ProtoPassPlaces
  import opened ProtoDeclarations
  import opened ProtoNesting
  import opened ProtoFields

  /** The innermost open brace is not that of an enum. */
  predicate OutsideEnum(stack: Stack) {
    stack == [] || stack[|stack| - 1].None? || stack[|stack| - 1].value.kind != EnumScope
  }

  /** On line `j`, the options and nothing else are put in, with brackets of their own or behind a comma. */
  predicate Receives(lines: seq<string>, j: nat, c: Constraints, opts: string)
    requires j < |lines|
  {
    var edit := EditAt(lines, j, c);
    edit.Insert? && (edit.text == " [" + opts + "]" || edit.text == ", " + opts)
  }

  lemma NotBlank(s: string, name: string)
    requires FieldLine(s, name)
    ensures !AllSpace(s)
  {
    hide IsSpace, WordChar, Qualifier;
    if p: nat, i: nat, t: nat, k: nat, w: nat, e: nat, d: nat :| FieldLineAt(s, name, p, i, t, k, w, e, d) {
      Joints(s, i, t, k, w, e, d);
      Apart();
      assert !IsSpace(s[k]);
    }
  }

  lemma DemandOfField(lines: seq<string>, i: nat, c: Constraints, name: string)
    requires i < |lines| && RunLines(lines, i, c).Going? && FieldLine(CodeAt(lines, i), name)
    requires Before(lines, i, c).depth == 0 && InFields(Before(lines, i, c).context)
    requires Collected(name, MessageNames(Before(lines, i, c).context), c) != map[]
    ensures DemandAt(lines, i, c).Some?
    ensures DemandAt(lines, i, c).value.opts
         == FormatOptions(Collected(name, MessageNames(Before(lines, i, c).context), c))
  {
    hide RunLines, FieldLine, FieldDemand, Collected, FormatOptions, AllSpace, LineCode, Before;
    CodeOfScan(lines, i, c);
    DemandIsOf(lines, i, c);
    NotBlank(CodeAt(lines, i), name);
    FieldAsks(CodeAt(lines, i), name, Before(lines, i, c).context, c);
  }

  lemma LiftedTop(context: seq<Scope>)
    ensures OutsideEnum(Lift(context)) <==> InFields(context)
  {
  }

  /**
   A field declaration outside option brackets and enums, with some option collected for
   it, receives exactly its options, on the line that closes its block.
   */
  lemma FieldIsInjected(lines: seq<string>, i: nat, c: Constraints, name: string) returns (j: nat)
    requires Rewrite(lines, c).Rewritten? && i < |lines| && FieldLine(CodeAt(lines, i), name)
    requires forall x :: 0 <= x < i ==> Tidy(lines, x)
    requires DepthAt(lines, i) == 0 && OutsideEnum(NestingAt(lines, i).stack)
    requires Collected(name, EnclosingMessages(NestingAt(lines, i).stack), c) != map[]
    ensures j == BlockEnd(lines, i, 0) < |lines|
    ensures Receives(lines, j, c, FormatOptions(Collected(name, EnclosingMessages(NestingAt(lines, i).stack), c)))
    ensures Home(lines, i, j, c) && DemandAt(lines, i, c).Some? && MetAt(lines, i, j, DemandAt(lines, i, c).value, c)
    ensures DemandAt(lines, i, c).value.opts
         == FormatOptions(Collected(name, EnclosingMessages(NestingAt(lines, i).stack), c))
  {
    hide RunLines, FieldLine, Collected, FormatOptions, Before, Tidy, DemandAt, EditAt, ScanAt, CodeAt;
    SucceedsMeans(lines, c);
    GoingAt(lines, i, |lines|, c);
    ContextIsNesting(lines, i, c);
    DepthIsCarried(lines, i, c);
    LiftedTop(Before(lines, i, c).context);
    DemandOfField(lines, i, c, name);
    var d := DemandAt(lines, i, c).value;
    j := DemandIsMet(lines, i, c, d);
    HomeIsBlockEnd(lines, i, j, c);
    MetReceives(lines, i, j, d, c);
  }

  lemma MetReceives(lines: seq<string>, i: nat, j: nat, d: Demand, c: Constraints)
    requires MetAt(lines, i, j, d, c)
    ensures Receives(lines, j, c, d.opts)
  {
    hide EditAt, ScanAt;
  }

  /** A line that asks for options is such a declaration. */
  lemma OnlyFieldsInjected(lines: seq<string>, i: nat, c: Constraints) returns (name: string)
    requires i < |lines| && RunLines(lines, i, c).Going? && DemandAt(lines, i, c).Some?
    requires forall x :: 0 <= x < i ==> Tidy(lines, x)
    ensures FieldLine(CodeAt(lines, i), name) && DepthAt(lines, i) == 0 && OutsideEnum(NestingAt(lines, i).stack)
    ensures Collected(name, EnclosingMessages(NestingAt(lines, i).stack), c) != map[]
  {
    hide RunLines, FieldLine, FieldDemand, Collected, Before, Tidy, LineCode, AllSpace, Sound;
    ContextIsNesting(lines, i, c);
    DepthIsCarried(lines, i, c);
    LiftedTop(Before(lines, i, c).context);
    CodeOfScan(lines, i, c);
    DemandIsOf(lines, i, c);
    name := OnlyFieldsAsk(CodeAt(lines, i), Before(lines, i, c).context, c);
  }

  /**
   The simplest case, as text: a one-line declaration without brackets gets its options in
   brackets of their own in front of its `;`.
   */
  lemma OneLineField(lines: seq<string>, i: nat, c: Constraints, name: string, semi: nat)
    requires Rewrite(lines, c).Rewritten? && i < |lines| && FieldLine(CodeAt(lines, i), name)
    requires forall x :: 0 <= x < i ==> Tidy(lines, x)
    requires DepthAt(lines, i) == 0 && OutsideEnum(NestingAt(lines, i).stack)
    requires Collected(name, EnclosingMessages(NestingAt(lines, i).stack), c) != map[]
    requires '[' !in CodeAt(lines, i) && semi < |lines[i]| && CodeAt(lines, i)[semi] == ';'
    requires ';' !in CodeAt(lines, i)[..semi]
    ensures |Rewrite(lines, c).lines| == |lines|
    ensures Rewrite(lines, c).lines[i]
         == RStrip(lines[i][..semi])
            + (" [" + FormatOptions(Collected(name, EnclosingMessages(NestingAt(lines, i).stack), c)) + "]")
            + lines[i][semi..]
  {
    hide RunLines, FieldLine, Collected, FormatOptions, Tidy, DemandAt, LineCode, EnclosingMessages, Rewrite;
    hide Positions, EditAt, ScanAt, Before, NestingAt, DepthAt;
    var j := FieldIsInjected(lines, i, c, name);
    SucceedsMeans(lines, c);
    GoingAt(lines, i, |lines|, c);
    NoBracketScan(lines, i, c, semi);
    DepthIsCarried(lines, i, c);
    HomeWithoutBrackets(lines, i, j, c);
    LinesAreEdited(lines, i, c);
    InFrontOf(lines[i], ScanAt(lines, i, c), DemandAt(lines, i, c).value, EditAt(lines, i, c), semi);
  }

  lemma NoBracketScan(lines: seq<string>, i: nat, c: Constraints, semi: nat)
    requires i < |lines| && RunLines(lines, i, c).Going?
    requires '[' !in CodeAt(lines, i) && semi < |lines[i]| && CodeAt(lines, i)[semi] == ';'
    requires ';' !in CodeAt(lines, i)[..semi]
    ensures var scan := ScanAt(lines, i, c); scan.opens == [] && scan.semicolons != [] && scan.semicolons[0] == semi
  {
    hide RunLines, Positions, LineCode;
    var code := CodeAt(lines, i);
    CodeOfScan(lines, i, c);
    LastPosition(code, '[');
    LastPosition(code, ';');
    FirstPosition(code, ';');
    forall k | 0 <= k < semi ensures code[k] != ';' {
      assert code[..semi][k] == code[k];
    }
  }

  // An edit on the field's own line, where that has no brackets.
  lemma InFrontOf(line: string, scan: CodeLine, d: Demand, edit: Edit, semi: nat)
    requires OnOwnLine(line, scan, d, edit) && EditFits(line, edit)
    requires scan.opens == [] && scan.semicolons != [] && scan.semicolons[0] == semi && semi <= |line|
    ensures Edited(line, edit) == RStrip(line[..semi]) + (" [" + d.opts + "]") + line[semi..]
  {
    var prefix := line[..semi];
    assert line[..|RStrip(prefix)|] == RStrip(prefix);
  }

  // ----- which files are refused

  /** A constrained field on a line with neither an option bracket nor a `;`. */
  ghost predicate Unterminated(lines: seq<string>, i: nat, c: Constraints)
    requires i < |lines|
  {
    DemandAt(lines, i, c).Some? && '[' !in CodeAt(lines, i) && ';' !in CodeAt(lines, i)
  }

  /** No bracket too many closed by the end of the line, and no field on it unterminated. */
  ghost predicate LineFine(lines: seq<string>, i: nat, c: Constraints)
    requires i < |lines|
  {
    DepthAt(lines, i + 1) >= 0 && !Unterminated(lines, i, c)
  }

  lemma StepFailsExactly(line: string, scan: CodeLine, st: Pass, c: Constraints)
    requires ScanFits(line, scan)
    ensures LineStep(line, scan, st, c).Stuck? <==>
            || st.depth + |scan.opens| - |scan.closes| < 0
            || (DemandOf(scan, st, c).Some? && scan.opens == [] && scan.semicolons == [])
  {
    hide FieldDemand, ContextAfter, BeforeSemicolon, IntoBracket;
  }

  lemma NextGoes(lines: seq<string>, i: nat, c: Constraints)
    requires i < |lines| && RunLines(lines, i, c).Going?
    ensures RunLines(lines, i + 1, c).Going? <==> LineFine(lines, i, c)
  {
    hide LineStep, DemandOf, LineCode, LineState, Positions, RunLines, Before, ScanAt, DemandAt;
    DepthIsCarried(lines, i, c);
    CodeOfScan(lines, i, c);
    DemandIsOf(lines, i, c);
    StepIsLineStep(lines, i, c);
    StepFailsExactly(lines[i], ScanAt(lines, i, c), Before(lines, i, c), c);
    LastPosition(CodeAt(lines, i), '[');
    LastPosition(CodeAt(lines, i), ';');
    GoesByStep(lines, i, c);
  }

  lemma GoesByStep(lines: seq<string>, i: nat, c: Constraints)
    requires i < |lines| && RunLines(lines, i, c).Going?
    ensures RunLines(lines, i + 1, c).Going? <==> StepAt(lines, i, c).Moved?
  {
    hide LineStep, Scanned;
  }

  lemma {:induction false} GoesExactly(lines: seq<string>, n: nat, c: Constraints)
    requires n <= |lines|
    ensures RunLines(lines, n, c).Going? <==>
            forall i :: 0 <= i < n ==> LineFine(lines, i, c)
    decreases n
  {
    hide RunLines, LineFine;
    if n == 0 {
      assert RunLines(lines, 0, c).Going? by { NoEdits(lines, c); }
    } else {
      GoesExactly(lines, n - 1, c);
      if RunLines(lines, n - 1, c).Going? {
        NextGoes(lines, n - 1, c);
      } else if RunLines(lines, n, c).Going? {
        GoingAt(lines, n - 1, n, c);
      }
    }
  }

  /**
   A file is refused exactly if at the end of some line more option brackets were closed
   than opened, at the end of the last one some are open, or a constrained field has
   neither a bracket nor a `;` on its line.
   */
  lemma RefusedExactly(lines: seq<string>, c: Constraints)
    ensures Rewrite(lines, c).Rewritten? <==>
            && (forall i :: 0 <= i < |lines| ==> LineFine(lines, i, c))
            && DepthAt(lines, |lines|) == 0
  {
    hide RunLines, DepthAt, LineFine, Sound;
    GoesExactly(lines, |lines|, c);
    RewriteBySteps(lines, c);
    if RunLines(lines, |lines|, c).Going? {
      DepthIsCarried(lines, |lines|, c);
      RunInvariant(lines, |lines|, c);
      PendingIsOpen(Before(lines, |lines|, c));
    }
  }

  lemma RewriteBySteps(lines: seq<string>, c: Constraints)
    ensures Rewrite(lines, c).Rewritten? <==>
            && RunLines(lines, |lines|, c).Going?
            && Before(lines, |lines|, c).pending.None? && Before(lines, |lines|, c).depth == 0
    ensures RunLines(lines, |lines|, c).Going? ==> Before(lines, |lines|, c) == RunLines(lines, |lines|, c).st
  {
    hide RunLines;
  }

  lemma PendingIsOpen(st: Pass)
    requires Sound(st)
    ensures st.pending.Some? ==> st.depth > 0
  {
  }
}
