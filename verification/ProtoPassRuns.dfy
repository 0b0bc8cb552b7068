/**
 The injection pass over all lines: what every step keeps, and what a pass that
 succeeds has done.

 The pass only inserts (up to white space dropped in front of a `;`), the insertions are
 exactly the constraints demanded by the fields, once each and in order, and the matched
 keys reported are exactly theirs.
 */
module ProtoPassRuns {
  import opened Text
  import opened ProtoMask
  import opened ProtoScan
  import opened ProtoInject
  import opened ProtoPass

  // ----- what one step guarantees

  // Between lines, a rewrite waits only while an option block is open.
  predicate Sound(st: Pass) {
    st.pending.Some? ==> st.depth > 0
  }

  // An edit inserts at a structural `]` or `;`, never inside a comment or a string,
  // and drops at most the white space in front of a `;`.
  ghost predicate CleanEdit(line: string, b: bool, edit: Edit) {
    edit.Insert? ==>
      && edit.cut <= edit.at < |line| && AllSpace(line[edit.at - edit.cut..edit.at])
      && (LineCode(line, b)[edit.at] == ';' || (LineCode(line, b)[edit.at] == ']' && edit.cut == 0))
  }

  // The text of an edit is the committed options, in brackets of its own or inside existing ones.
  ghost predicate Delivers(edit: Edit, commit: Option<Demand>) {
    match commit
    case None => edit == Keep
    case Some(d) => edit.Insert? && (edit.text == " [" + d.opts + "]" || edit.text == ", " + d.opts)
  }

  function Listed<T>(x: Option<T>): seq<T> {
    match x case None => [] case Some(v) => [v]
  }

  lemma StructuralOffsets(line: string, b: bool)
    ensures var scan := Scanned(line, b);
            && (forall k :: 0 <= k < |scan.closes| ==>
                  scan.closes[k] < |line| && LineCode(line, b)[scan.closes[k]] == ']')
            && (forall k :: 0 <= k < |scan.semicolons| ==>
                  scan.semicolons[k] < |line| && LineCode(line, b)[scan.semicolons[k]] == ';')
  {
    var scan := Scanned(line, b);
    PositionsExact(scan.code, ']');
    PositionsExact(scan.code, ';');
    assert forall k :: 0 <= k < |scan.closes| ==> scan.closes[k] in scan.closes;
    assert forall k :: 0 <= k < |scan.semicolons| ==> scan.semicolons[k] in scan.semicolons;
  }

  // A closing line has a bracket to insert in front of.
  lemma {:induction false} StepKeeps(line: string, st: Pass, c: Constraints)
    requires Sound(st)
    requires ScanFits(line, Scanned(line, st.inBlock)) && LineStep(line, Scanned(line, st.inBlock), st, c).Moved?
    ensures var scan := Scanned(line, st.inBlock);
            var step := LineStep(line, scan, st, c);
            && Sound(step.next)
            && step.next.inBlock == LineState(line, st.inBlock)
            && CleanEdit(line, st.inBlock, step.edit) && Delivers(step.edit, step.commit)
            && step.demand == DemandOf(scan, st, c)
            && Listed(st.pending) + Listed(step.demand) == Listed(step.commit) + Listed(step.next.pending)
  {
    hide FieldDemand, ContextAfter, LineCode, Positions, LineState, SolidLength;
    StructuralOffsets(line, st.inBlock);
    var scan := Scanned(line, st.inBlock);
    if scan.semicolons != [] {
      var at := scan.semicolons[0];
      var prefix := line[..at];
      assert RStrip(prefix) == prefix[..|RStrip(prefix)|];
      assert forall i :: |RStrip(prefix)| <= i < at ==> IsSpace(prefix[i]) && line[i] == prefix[i];
    }
  }

  // ----- all lines

  datatype Run =
    | Failed(error: Error)
    | Going(out: seq<string>, edits: seq<Edit>, demands: seq<Demand>, commits: seq<Demand>, st: Pass)

  /** The pass over the first `n` lines. */
  function RunLines(lines: seq<string>, n: nat, c: Constraints): Run
    requires n <= |lines|
  {
    if n == 0 then Going([], [], [], [], START)
    else
      var before := RunLines(lines, n - 1, c);
      if before.Failed? then before
      else
        var line := lines[n - 1];
        ScannedFits(line, before.st.inBlock);
        var step := LineStep(line, Scanned(line, before.st.inBlock), before.st, c);
        if step.Stuck? then Failed(step.error)
        else
          Going(before.out + [if EditFits(line, step.edit) then Edited(line, step.edit) else line],
                before.edits + [step.edit],
                before.demands + Listed(step.demand), before.commits + Listed(step.commit), step.next)
  }

  predicate EditFits(line: string, edit: Edit) {
    edit.Insert? ==> edit.cut <= edit.at <= |line|
  }

  // What line `i` asks for, in the state the pass reaches it in.
  function DemandAt(lines: seq<string>, i: nat, c: Constraints): Option<Demand>
    requires i < |lines|
  {
    match RunLines(lines, i, c)
    case Failed(_) => None
    case Going(_, _, _, _, st) => DemandOf(Scanned(lines[i], st.inBlock), st, c)
  }

  /** Everything the first `n` lines ask for, in order. */
  function Demands(lines: seq<string>, n: nat, c: Constraints): seq<Demand>
    requires n <= |lines|
  {
    if n == 0 then [] else Demands(lines, n - 1, c) + Listed(DemandAt(lines, n - 1, c))
  }

  function Inserted(edits: seq<Edit>): seq<string> {
    if edits == [] then []
    else
      var last := edits[|edits| - 1];
      Inserted(edits[..|edits| - 1]) + match last case Keep => [] case Insert(_, _, text) => [text]
  }

  ghost predicate Carries(texts: seq<string>, demands: seq<Demand>) {
    && |texts| == |demands|
    && forall i :: 0 <= i < |texts| ==> texts[i] == " [" + demands[i].opts + "]" || texts[i] == ", " + demands[i].opts
  }

  // The comment state in front of a line depends on the source alone.
  predicate BlockAt(lines: seq<string>, i: nat)
    requires i <= |lines|
  {
    if i == 0 then false else LineState(lines[i - 1], BlockAt(lines, i - 1))
  }

  ghost predicate LineDone(lines: seq<string>, out: seq<string>, edits: seq<Edit>, i: nat)
    requires i < |lines| && |out| == |edits| && i < |out|
  {
    && CleanEdit(lines[i], BlockAt(lines, i), edits[i])
    && out[i] == Edited(lines[i], edits[i])
  }

  lemma {:induction false} RunInvariant(lines: seq<string>, n: nat, c: Constraints)
    requires n <= |lines| && RunLines(lines, n, c).Going?
    ensures var r := RunLines(lines, n, c);
            && Sound(r.st) && r.st.inBlock == BlockAt(lines, n)
            && |r.out| == |r.edits| == n
            && (forall i :: 0 <= i < n ==> LineDone(lines, r.out, r.edits, i))
            && Carries(Inserted(r.edits), r.commits)
            && r.demands == Demands(lines, n, c)
            && r.demands == r.commits + Listed(r.st.pending)
  {
    hide LineStep, Scanned, DemandOf, CleanEdit, Sound;
    if n == 0 {
      assert Sound(START) by { StartSound(); }
    } else {
      RunInvariant(lines, n - 1, c);
      var before, r := RunLines(lines, n - 1, c), RunLines(lines, n, c);
      var line := lines[n - 1];
      ScannedFits(line, before.st.inBlock);
      var step := LineStep(line, Scanned(line, before.st.inBlock), before.st, c);
      StepKeeps(line, before.st, c);
      CleanFits(line, before.st.inBlock, step.edit);
      InsertedSnoc(before.edits, step.edit, before.commits, step.commit);
      BalanceSnoc(before.demands, before.commits, before.st.pending, step.demand, step.commit, step.next.pending);
      forall i | 0 <= i < n ensures LineDone(lines, r.out, r.edits, i) {
        assert i < n - 1 ==> LineDone(lines, before.out, before.edits, i);
      }
    }
  }

  lemma StartSound()
    ensures Sound(START)
  {
  }

  lemma CleanFits(line: string, b: bool, edit: Edit)
    requires CleanEdit(line, b, edit)
    ensures EditFits(line, edit)
  {
  }

  lemma {:induction false} InsertedSnoc(edits: seq<Edit>, edit: Edit, commits: seq<Demand>, commit: Option<Demand>)
    requires Carries(Inserted(edits), commits) && Delivers(edit, commit)
    ensures Carries(Inserted(edits + [edit]), commits + Listed(commit))
  {
    assert (edits + [edit])[..|edits|] == edits;
  }

  lemma BalanceSnoc(demands: seq<Demand>, commits: seq<Demand>, pending: Option<Demand>,
                    demand: Option<Demand>, commit: Option<Demand>, pending': Option<Demand>)
    requires demands == commits + Listed(pending)
    requires Listed(pending) + Listed(demand) == Listed(commit) + Listed(pending')
    ensures demands + Listed(demand) == commits + Listed(commit) + Listed(pending')
  {
    assert demands + Listed(demand) == commits + (Listed(pending) + Listed(demand));
    assert commits + Listed(commit) + Listed(pending') == commits + (Listed(commit) + Listed(pending'));
  }

  // ----- the result

  datatype Outcome = Rejected(error: Error) | Rewritten(lines: seq<string>, edits: seq<Edit>, demands: seq<Demand>)

  function Rewrite(lines: seq<string>, c: Constraints): Outcome {
    match RunLines(lines, |lines|, c)
    case Failed(e) => Rejected(e)
    case Going(out, edits, demands, _, st) =>
      if st.pending.Some? then Rejected(UnterminatedField)
      else if st.depth != 0 then Rejected(UnterminatedBlock)
      else Rewritten(out, edits, demands)
  }

  /** Taking the inserted text out again. */
  function Undone(line: string, edit: Edit): string
    requires edit.Insert? ==> edit.cut <= edit.at && edit.at - edit.cut + |edit.text| <= |line|
  {
    match edit
    case Keep => line
    case Insert(at, cut, text) => line[..at - cut] + line[at - cut + |text|..]
  }

  ghost predicate Reverts(line: string, out: string, edit: Edit) {
    && (edit.Insert? ==> edit.cut <= edit.at < |line| && edit.at - edit.cut + |edit.text| <= |out|)
    && match edit
       case Keep => out == line
       case Insert(at, cut, text) =>
         && out[at - cut..at - cut + |text|] == text
         && Undone(out, edit) == line[..at - cut] + line[at..]
         && AllSpace(line[at - cut..at])
         && (cut > 0 ==> line[at] == ';')
  }

  lemma {:induction false} EditReverts(line: string, b: bool, edit: Edit)
    requires CleanEdit(line, b, edit)
    ensures EditFits(line, edit) && Reverts(line, Edited(line, edit), edit)
  {
    if edit.Insert? {
      var from := edit.at - edit.cut;
      var out := Edited(line, edit);
      assert out[..from] == line[..from] && out[from..from + |edit.text|] == edit.text
          && out[from + |edit.text|..] == line[edit.at..];
      CodeIsText(line, b, edit.at);
    }
  }

  // A character that is still visible in the code view is the character of the line.
  lemma {:induction false} CodeIsText(text: string, b: bool, i: nat)
    requires i < |text| && LineCode(text, b)[i] != ' '
    ensures LineCode(text, b)[i] == text[i]
    decreases |text|
  {
    hide HasClose, CloseSpan, Span;
    if b {
      var n := CloseSpan(text);
      assert HasClose(text) && i >= n;
      CodeIsText(text[n..], false, i - n);
    } else if Opens(text, '/', '*') {
      assert i >= 2;
      CodeIsText(text[2..], true, i - 2);
    } else if IsQuote(text[0]) {
      var n := 1 + Span(text[1..], text[0]);
      assert i >= n;
      CodeIsText(text[n..], false, i - n);
    } else if i > 0 {
      CodeIsText(text[1..], false, i - 1);
    }
  }

  /**
   When the pass succeeds: line by line, taking the insertions out restores the input up
   to white space dropped in front of a `;`; and the insertions are exactly the demands
   of the constrained fields, each once, in order: none is dropped or overwritten.
   */
  lemma {:induction false} InjectionIsReversible(lines: seq<string>, c: Constraints)
    requires Rewrite(lines, c).Rewritten?
    ensures var r := Rewrite(lines, c);
            && |r.lines| == |r.edits| == |lines|
            && (forall i :: 0 <= i < |lines| ==> Reverts(lines[i], r.lines[i], r.edits[i]))
            && r.demands == Demands(lines, |lines|, c)
            && Carries(Inserted(r.edits), r.demands)
  {
    hide LineStep, Scanned, DemandOf, CleanEdit, Reverts;
    RunInvariant(lines, |lines|, c);
    var r := RunLines(lines, |lines|, c);
    assert r.commits + [] == r.commits;
    forall i | 0 <= i < |lines| ensures Reverts(lines[i], r.out[i], r.edits[i]) {
      assert LineDone(lines, r.out, r.edits, i);
      EditReverts(lines[i], BlockAt(lines, i), r.edits[i]);
    }
  }
}
