/**
 The injector as it runs: one loop over the lines that rewrites, records the matched
 keys and places the import line.
 */
module ProtoInjector {
  import opened Text
  import opened ProtoMask
  import opened ProtoScan
  import opened ProtoDeclarations
  import opened ProtoInject
  import opened ProtoPass
  import opened ProtoPassPlaces
  import opened ProtoPassRuns

  // ----- lines

  function SplitLines(s: string): (r: seq<string>)
    ensures r != []
    decreases |s|
  {
    var k := LineEnd(s);
    if k == |s| then [s] else [s[..k]] + SplitLines(s[k + 1..])
  }

  lemma JoinCons(part: string, rest: seq<string>, sep: string)
    requires rest != []
    ensures Join([part] + rest, sep) == part + sep + Join(rest, sep)
  {
    assert ([part] + rest)[1..] == rest;
  }

  lemma JoinOne(part: string, sep: string)
    ensures Join([part], sep) == part
  {
  }

  lemma {:induction false} LinesRejoin(s: string)
    ensures Join(SplitLines(s), "\n") == s
    decreases |s|
  {
    hide LineEnd, Join;
    var k := LineEnd(s);
    if k < |s| {
      LinesRejoin(s[k + 1..]);
      assert s == s[..k] + "\n" + s[k + 1..];
      JoinCons(s[..k], SplitLines(s[k + 1..]), "\n");
    } else {
      JoinOne(s, "\n");
    }
  }

  // ----- the import line

  predicate Contains(s: string, part: string)
    decreases |s|
  {
    part <= s || (s != "" && Contains(s[1..], part))
  }

  predicate IsImport(line: string) {
    StartsWith(Strip(line), "import ") && ';' in line
  }

  predicate ImportsNanopb(line: string) {
    StartsWith(Strip(line), "import") && Contains(line, "nanopb.proto")
  }

  predicate IsSyntax(line: string) {
    var t := Strip(line);
    StartsWith(t, "syntax") && t != "" && t[|t| - 1] == ';'
  }

  function LastImport(lines: seq<string>): (r: int)
    ensures -1 <= r < |lines| && (r >= 0 ==> IsImport(lines[r]))
    ensures forall i :: r < i < |lines| ==> !IsImport(lines[i])
  {
    hide IsImport;
    if lines == [] then -1
    else if IsImport(lines[|lines| - 1]) then |lines| - 1
    else LastImport(lines[..|lines| - 1])
  }

  function FirstSyntax(lines: seq<string>): (r: int)
    ensures -1 <= r < |lines| && (r >= 0 ==> IsSyntax(lines[r]))
    ensures forall i :: 0 <= i < (if r == -1 then |lines| else r) ==> !IsSyntax(lines[i])
  {
    if lines == [] then -1
    else if IsSyntax(lines[0]) then 0
    else
      var r := FirstSyntax(lines[1..]);
      if r == -1 then -1 else r + 1
  }

  predicate HasNanopbImport(lines: seq<string>) {
    exists i :: 0 <= i < |lines| && ImportsNanopb(lines[i])
  }

  /** Where the import goes while lines are copied: after the last import, if a line follows it. */
  function EarlyImport(lines: seq<string>): Option<nat> {
    var last := LastImport(lines);
    if HasNanopbImport(lines) || last < 0 || last + 1 == |lines| then None
    else Some(last + 1)
  }

  function ImportPosition(lines: seq<string>, out: seq<string>): (p: Option<nat>)
    requires |out| == |lines|
    ensures p.Some? ==> 0 < p.value <= |out|
  {
    if HasNanopbImport(lines) then None
    else if EarlyImport(lines).Some? then EarlyImport(lines)
    else if FirstSyntax(out) >= 0 then Some(FirstSyntax(out) + 1)
    else None
  }

  function InsertLine(out: seq<string>, p: Option<nat>, line: string): seq<string> {
    if p.Some? && p.value <= |out| then out[..p.value] + [line] + out[p.value..] else out
  }

  function ImportLine(path: string): string {
    "import \"" + path + "\";"
  }

  // ----- applied keys

  function SpecificKeys(demands: seq<Demand>): set<Key> {
    if demands == [] then {} else SpecificKeys(demands[..|demands| - 1]) + demands[|demands| - 1].specific
  }

  function WildcardKeys(demands: seq<Demand>): set<string> {
    if demands == [] then {} else WildcardKeys(demands[..|demands| - 1]) + demands[|demands| - 1].wildcard
  }

  lemma KeysSnoc(demands: seq<Demand>, d: Demand)
    ensures SpecificKeys(demands + [d]) == SpecificKeys(demands) + d.specific
    ensures WildcardKeys(demands + [d]) == WildcardKeys(demands) + d.wildcard
  {
    assert (demands + [d])[..|demands|] == demands;
  }

  // ----- the whole transformation

  datatype Injection = Refused(error: Error) | Done(text: string)

  function Injected(content: string, c: Constraints, path: string): Injection {
    if c.specific == map[] && c.wildcard == map[] then Done(content)
    else
      var lines := SplitLines(content);
      match Rewrite(lines, c)
      case Rejected(e) => Refused(e)
      case Rewritten(out, _, _) =>
        if |out| != |lines| then Done(content)
        else Done(Join(InsertLine(out, ImportPosition(lines, out), ImportLine(path)), "\n"))
  }

  method ScopeOf(code: string) returns (scope: Option<Scope>)
    ensures scope == OpenedScope(code)
  {
    var name := ScopeName(code, "message");
    if name.Some? {
      return Some(Scope(MessageScope, name.value));
    }
    name := ScopeName(code, "oneof");
    if name.Some? {
      return Some(Scope(OneofScope, name.value));
    }
    name := ScopeName(code, "enum");
    if name.Some? {
      return Some(Scope(EnumScope, name.value));
    }
    return None;
  }

  method FieldOptions(code: string, context: seq<Scope>, c: Constraints) returns (demand: Option<Demand>)
    requires OpenedScope(code).None? && !(ClosesScope(code) && context != [])
    ensures demand == FieldDemand(code, context, c)
  {
    hide OpenedScope, ClosesScope, FieldName;
    var inEnum := context != [] && context[|context| - 1].kind == EnumScope;
    var field := FieldName(code);
    demand := None;
    if field.Some? && !inEnum {
      var extra, tempSpecific, tempWildcard := CollectFieldOptions(field.value, MessageNames(context), c);
      if extra != map[] {
        demand := Some(Demand(FormatOptions(extra), tempSpecific, tempWildcard));
      }
    }
  }

  /** One pass of the loop body. */
  method RewriteLine(line: string, st: Pass, c: Constraints) returns (step: Step)
    ensures ScanFits(line, Scanned(line, st.inBlock))
    ensures step == LineStep(line, Scanned(line, st.inBlock), st, c)
  {
    hide Scanned, FieldDemand, OpenedScope, ClosesScope;
    var scanned := ScanProtoCodeLine(line, st.inBlock);
    ScannedFits(line, st.inBlock);
    var lineOpens, lineCloses := |scanned.opens|, |scanned.closes|;
    var inOptions := st.depth > 0;
    var nextDepth := st.depth + lineOpens - lineCloses;
    if nextDepth < 0 {
      return Stuck(UnbalancedBracket);
    }
    var closesBlock := inOptions && nextDepth == 0;
    if st.pending.Some? && closesBlock {
      var closeIdx := scanned.closes[lineCloses - 1];
      var edit := Insert(closeIdx, 0, ", " + st.pending.value.opts);
      return Moved(Pass(st.context, None, 0, scanned.inBlockComment), edit, None, st.pending);
    }
    if AllSpace(scanned.code) || inOptions {
      return Moved(Pass(st.context, st.pending, nextDepth, scanned.inBlockComment), Keep, None, None);
    }
    var context, demand := st.context, None;
    var scope := ScopeOf(scanned.code);
    if scope.Some? {
      context := context + [scope.value];
      assert FieldDemand(scanned.code, st.context, c).None? by { ScopeIsNoField(scanned.code, st.context, c); }
    } else if ClosesScope(scanned.code) && context != [] {
      context := context[..|context| - 1];
      assert FieldDemand(scanned.code, st.context, c).None? by { ScopeIsNoField(scanned.code, st.context, c); }
    } else {
      demand := FieldOptions(scanned.code, context, c);
    }
    var next := Pass(context, st.pending, nextDepth, scanned.inBlockComment);
    if demand.None? {
      return Moved(next, Keep, None, None);
    }
    var opts := demand.value.opts;
    if lineOpens == 0 {
      if scanned.semicolons == [] {
        return Stuck(NoTerminator);
      }
      var semiIdx := scanned.semicolons[0];
      var prefix := RStrip(line[..semiIdx]);
      return Moved(next, Insert(semiIdx, semiIdx - |prefix|, " [" + opts + "]"), demand, demand);
    }
    if nextDepth == 0 {
      var closeIdx := scanned.closes[lineCloses - 1];
      return Moved(next, Insert(closeIdx, 0, ", " + opts), demand, demand);
    }
    return Moved(next.(pending := demand), Keep, demand, None);
  }

  lemma ScopeIsNoField(code: string, context: seq<Scope>, c: Constraints)
    requires OpenedScope(code).Some? || (ClosesScope(code) && context != [])
    ensures FieldDemand(code, context, c).None?
  {
  }

  // The lines copied so far, with the import among them once its place has been passed.
  function Copied(out: seq<string>, early: Option<nat>, importLine: string): seq<string> {
    if early.Some? && early.value < |out| then InsertLine(out, early, importLine) else out
  }

  lemma CopiedSnoc(out: seq<string>, line: string, early: Option<nat>, importLine: string)
    ensures Copied(out + [line], early, importLine)
         == (if early == Some(|out|) then out + [importLine] else Copied(out, early, importLine)) + [line]
  {
    if early.Some? && early.value <= |out| {
      var p := early.value;
      assert (out + [line])[..p] == out[..p] && (out + [line])[p..] == out[p..] + [line];
    }
  }

  method InsertImport(result: seq<string>, importLine: string) returns (r: seq<string>)
    ensures r == if FirstSyntax(result) >= 0 then InsertLine(result, Some(FirstSyntax(result) + 1), importLine)
        else result
  {
    hide IsSyntax;
    for i := 0 to |result|
      invariant forall j :: 0 <= j < i ==> !IsSyntax(result[j])
    {
      if IsSyntax(result[i]) {
        assert FirstSyntax(result) == i;
        return result[..i + 1] + [importLine] + result[i + 1..];
      }
    }
    return result;
  }

  function CopyOf(line: string, edit: Edit): string {
    if EditFits(line, edit) then Edited(line, edit) else line
  }

  lemma RunSnoc(lines: seq<string>, i: nat, c: Constraints, step: Step)
    requires i < |lines| && RunLines(lines, i, c).Going?
    requires ScanFits(lines[i], Scanned(lines[i], RunLines(lines, i, c).st.inBlock))
    requires var st := RunLines(lines, i, c).st;
             step == LineStep(lines[i], Scanned(lines[i], st.inBlock), st, c)
    ensures var before, after := RunLines(lines, i, c), RunLines(lines, i + 1, c);
            if step.Stuck? then after == Failed(step.error)
            else after == Going(before.out + [CopyOf(lines[i], step.edit)], before.edits + [step.edit],
                                before.demands + Listed(step.demand), before.commits + Listed(step.commit), step.next)
  {
    hide LineStep, Scanned;
  }

  lemma RewriteResult(lines: seq<string>, c: Constraints)
    ensures match RunLines(lines, |lines|, c)
            case Failed(e) => Rewrite(lines, c) == Rejected(e)
            case Going(out, edits, demands, _, st) =>
              Rewrite(lines, c) == if st.pending.Some? then Rejected(UnterminatedField)
                                   else if st.depth != 0 then Rejected(UnterminatedBlock)
                                   else Rewritten(out, edits, demands)
  {
  }

  lemma RunStart(lines: seq<string>, c: Constraints)
    ensures RunLines(lines, 0, c) == Going([], [], [], [], START)
  {
  }

  method CopyLines(lines: seq<string>, c: Constraints, importLine: string, appliedSpecific0: set<Key>,
      appliedWildcard0: set<string>)
    returns (outcome: Option<Error>, result: seq<string>, appliedSpecific: set<Key>, appliedWildcard: set<string>)
    ensures match outcome
            case Some(e) => Rewrite(lines, c) == Rejected(e)
            case None =>
              var run := RunLines(lines, |lines|, c);
              && run.Going? && Rewrite(lines, c) == Rewritten(run.out, run.edits, run.demands)
              && result == Copied(run.out, EarlyImport(lines), importLine)
              && appliedSpecific == appliedSpecific0 + SpecificKeys(run.commits)
              && appliedWildcard == appliedWildcard0 + WildcardKeys(run.commits)
  {
    hide LineStep, Scanned, Copied, EarlyImport, RunLines, Rewrite, SpecificKeys, WildcardKeys, CopyOf, ScanFits;
    appliedSpecific, appliedWildcard := appliedSpecific0, appliedWildcard0;
    var early := EarlyImport(lines);
    var st := START;
    result := [];
    RunStart(lines, c);
    RewriteResult(lines, c);
    ghost var run := RunLines(lines, 0, c);
    CopiedEmpty(early, importLine);
    NoKeys();
    for i := 0 to |lines|
      invariant run == RunLines(lines, i, c) && run.Going? && run.st == st && |run.out| == i
      invariant result == Copied(run.out, early, importLine)
      invariant appliedSpecific == appliedSpecific0 + SpecificKeys(run.commits)
      invariant appliedWildcard == appliedWildcard0 + WildcardKeys(run.commits)
    {
      if early == Some(i) {
        CopiedAll(run.out, early, importLine);
        result := result + [importLine];
      }
      var line := lines[i];
      var step := RewriteLine(line, st, c);
      RunSnoc(lines, i, c, step);
      if step.Stuck? {
        FailureStays(lines, i + 1, |lines|, c);
        return Some(step.error), result, appliedSpecific, appliedWildcard;
      }
      KeysGrow(run.commits, step.commit);
      if step.commit.Some? {
        appliedSpecific := appliedSpecific + step.commit.value.specific;
        appliedWildcard := appliedWildcard + step.commit.value.wildcard;
      }
      CopiedSnoc(run.out, CopyOf(line, step.edit), early, importLine);
      result := result + [CopyOf(line, step.edit)];
      run := RunLines(lines, i + 1, c);
      st := step.next;
    }
    if st.pending.Some? {
      return Some(UnterminatedField), result, appliedSpecific, appliedWildcard;
    }
    if st.depth != 0 {
      return Some(UnterminatedBlock), result, appliedSpecific, appliedWildcard;
    }
    return None, result, appliedSpecific, appliedWildcard;
  }

  lemma NoKeys()
    ensures SpecificKeys([]) == {} && WildcardKeys([]) == {}
  {
  }

  lemma KeysGrow(demands: seq<Demand>, d: Option<Demand>)
    ensures SpecificKeys(demands + Listed(d)) == SpecificKeys(demands) + if d.Some? then d.value.specific else {}
    ensures WildcardKeys(demands + Listed(d)) == WildcardKeys(demands) + if d.Some? then d.value.wildcard else {}
  {
    if d.Some? {
      KeysSnoc(demands, d.value);
    } else {
      assert demands + [] == demands;
    }
  }

  lemma CopiedEmpty(early: Option<nat>, importLine: string)
    ensures Copied([], early, importLine) == []
  {
  }

  lemma CopiedAll(out: seq<string>, early: Option<nat>, importLine: string)
    requires early == Some(|out|)
    ensures Copied(out, early, importLine) == out
  {
  }

  lemma {:induction false} FailureStays(lines: seq<string>, i: nat, n: nat, c: Constraints)
    requires i <= n <= |lines| && RunLines(lines, i, c).Failed?
    ensures RunLines(lines, n, c) == RunLines(lines, i, c)
    decreases n
  {
    hide LineStep, Scanned;
    if i < n {
      FailureStays(lines, i, n - 1, c);
    }
  }

  lemma ImportPlaced(lines: seq<string>, out: seq<string>, importLine: string)
    requires |out| == |lines|
    ensures EarlyImport(lines).Some? ==>
              Copied(out, EarlyImport(lines), importLine) == InsertLine(out, ImportPosition(lines, out), importLine)
    ensures EarlyImport(lines).None? ==> Copied(out, EarlyImport(lines), importLine) == out
  {
  }

  /**
   The injector: on success the text is the specified one, and the keys recorded as
   applied are exactly the keys matched by the rewritten fields.
   */
  method InjectIntoProto(content: string, c: Constraints, path: string, appliedSpecific0: set<Key>,
      appliedWildcard0: set<string>)
    returns (r: Injection, appliedSpecific: set<Key>, appliedWildcard: set<string>)
    ensures r == Injected(content, c, path)
    ensures r.Done? && !(c.specific == map[] && c.wildcard == map[]) ==>
              var lines := SplitLines(content);
              && Rewrite(lines, c).Rewritten?
              && appliedSpecific == appliedSpecific0 + SpecificKeys(Demands(lines, |lines|, c))
              && appliedWildcard == appliedWildcard0 + WildcardKeys(Demands(lines, |lines|, c))
  {
    hide RunLines, InsertLine, Copied, FirstSyntax, LastImport, EarlyImport, ImportPosition, HasNanopbImport;
    hide Rewrite, Demands, Reverts, Carries, SpecificKeys, WildcardKeys, SplitLines;
    if c.specific == map[] && c.wildcard == map[] {
      return Done(content), appliedSpecific0, appliedWildcard0;
    }
    var lines := SplitLines(content);
    var alreadyImported := HasNanopbImport(lines);
    var outcome, result;
    outcome, result, appliedSpecific, appliedWildcard :=
      CopyLines(lines, c, ImportLine(path), appliedSpecific0, appliedWildcard0);
    if outcome.Some? {
      return Refused(outcome.value), appliedSpecific, appliedWildcard;
    }
    ghost var run := RunLines(lines, |lines|, c);
    InjectionIsReversible(lines, c);
    CommitsAreDemands(lines, c);
    ImportPlaced(lines, run.out, ImportLine(path));
    if !alreadyImported && EarlyImport(lines).None? {
      result := InsertImport(result, ImportLine(path));
    }
    ImportCases(lines, run.out, ImportLine(path), alreadyImported);
    return Done(Join(result, "\n")), appliedSpecific, appliedWildcard;
  }

  lemma {:induction false} CommitsAreDemands(lines: seq<string>, c: Constraints)
    requires Rewrite(lines, c).Rewritten?
    ensures RunLines(lines, |lines|, c).Going? && RunLines(lines, |lines|, c).commits == Demands(lines, |lines|, c)
  {
    RunInvariant(lines, |lines|, c);
    var r := RunLines(lines, |lines|, c);
    assert r.commits + [] == r.commits;
  }

  lemma ImportCases(lines: seq<string>, out: seq<string>, importLine: string, alreadyImported: bool)
    requires |out| == |lines| && alreadyImported == HasNanopbImport(lines)
    ensures EarlyImport(lines).None? ==>
              InsertLine(out, ImportPosition(lines, out), importLine)
              == if !alreadyImported && FirstSyntax(out) >= 0
                 then InsertLine(out, Some(FirstSyntax(out) + 1), importLine)
                 else out
    ensures alreadyImported ==> EarlyImport(lines).None?
  {
    hide HasNanopbImport, FirstSyntax, LastImport;
  }

  // Erasing one line at `p` from a list it was inserted into.
  lemma ImportErased(out: seq<string>, p: nat, importLine: string)
    requires p <= |out|
    ensures var with := InsertLine(out, Some(p), importLine); with[p] == importLine && with[..p] + with[p + 1..] == out
  {
  }

  lemma InjectedText(content: string, c: Constraints, path: string)
    requires Injected(content, c, path).Done? && !(c.specific == map[] && c.wildcard == map[])
    ensures var lines := SplitLines(content);
            var r := Rewrite(lines, c);
            && r.Rewritten?
            && (|r.lines| == |lines| ==>
                  Injected(content, c, path).text
                  == Join(InsertLine(r.lines, ImportPosition(lines, r.lines), ImportLine(path)), "\n"))
  {
    hide Rewrite, SplitLines, Join, ImportLine, InsertLine, ImportPosition;
  }

  lemma ImportWhere(lines: seq<string>, out: seq<string>)
    requires |out| == |lines|
    ensures ImportPosition(lines, out) ==
            if HasNanopbImport(lines) then None
            else if 0 <= LastImport(lines) < |lines| - 1 then Some(LastImport(lines) + 1)
            else if FirstSyntax(out) >= 0 then Some(FirstSyntax(out) + 1) else None
  {
    hide HasNanopbImport, LastImport, FirstSyntax;
  }

  lemma NoInsertion(out: seq<string>, line: string)
    ensures InsertLine(out, None, line) == out
  {
  }

  ghost predicate DemandsPlaced(lines: seq<string>, c: Constraints) {
    forall i :: 0 <= i < |lines| && DemandAt(lines, i, c).Some? ==> DemandPlaced(lines, i, c)
  }

  ghost predicate EditsExplained(lines: seq<string>, edits: seq<Edit>, c: Constraints) {
    |edits| == |lines| && forall j :: 0 <= j < |lines| && edits[j] != Keep ==> EditExplained(lines, j, c)
  }

  lemma PassPlaced(lines: seq<string>, c: Constraints)
    requires Rewrite(lines, c).Rewritten?
    ensures DemandsPlaced(lines, c) && EditsExplained(lines, Rewrite(lines, c).edits, c)
  {
    hide Rewrite, DemandMet, DemandPlaced, EditExplained, EditAt, DemandAt;
    InsertionsArePlaced(lines, c);
    DemandsArePlaced(lines, c);
  }

  /**
   Everything at once: the injected file is the input with, per line, one insertion at
   most, plus at most one import line; every demand is met on the closing line of its
   field's option block, in its own declaration unless the text is crowded there.
   */
  lemma {:induction false} InjectedFile(content: string, c: Constraints, path: string)
    returns (lines: seq<string>, r: Outcome, p: Option<nat>)
    requires Injected(content, c, path).Done? && !(c.specific == map[] && c.wildcard == map[])
    ensures content == Join(lines, "\n") && r == Rewrite(lines, c) && r.Rewritten?
    ensures |r.lines| == |r.edits| == |lines|
    ensures forall i :: 0 <= i < |lines| ==> Reverts(lines[i], r.lines[i], r.edits[i])
    ensures Carries(Inserted(r.edits), Demands(lines, |lines|, c))
    ensures DemandsPlaced(lines, c) && EditsExplained(lines, r.edits, c)
    ensures p == if HasNanopbImport(lines) then None
                 else if 0 <= LastImport(lines) < |lines| - 1 then Some(LastImport(lines) + 1)
                 else if FirstSyntax(r.lines) >= 0 then Some(FirstSyntax(r.lines) + 1) else None
    ensures p.Some? ==> p.value <= |r.lines|
    ensures Injected(content, c, path).text == Join(InsertLine(r.lines, p, ImportLine(path)), "\n")
    ensures p.None? ==> InsertLine(r.lines, p, ImportLine(path)) == r.lines
    ensures p.Some? ==>
              var with := InsertLine(r.lines, p, ImportLine(path));
              with[..p.value] + with[p.value + 1..] == r.lines
  {
    hide Rewrite, Reverts, HasNanopbImport, Carries, DemandsPlaced, EditsExplained, LastImport, FirstSyntax, Demands,
        Inserted, Injected, SplitLines, Join, ImportLine, InsertLine, ImportPosition;
    InjectedText(content, c, path);
    lines := SplitLines(content);
    LinesRejoin(content);
    r := Rewrite(lines, c);
    InjectionIsReversible(lines, c);
    PassPlaced(lines, c);
    p := ImportPosition(lines, r.lines);
    ImportWhere(lines, r.lines);
    NoInsertion(r.lines, ImportLine(path));
    if p.Some? {
      ImportErased(r.lines, p.value, ImportLine(path));
    }
  }
}
