/**
 On which line the options of each constrained field go: its own if its option block
 closes there, and otherwise the first later line that brings the bracket depth back to
 zero, in front of the last `]` of that line.  No other line is edited.
 */
module ProtoPassPlaces {
  import opened Text
  import opened ProtoMask
  import opened ProtoScan
  import opened ProtoInject
  import opened ProtoPass
  import opened ProtoPassRuns

  // ----- the pass, line by line

  /** The state in front of line `i`. */
  function Before(lines: seq<string>, i: nat, c: Constraints): Pass
    requires i <= |lines|
  {
    match RunLines(lines, i, c)
    case Failed(_) => START
    case Going(_, _, _, _, st) => st
  }

  function ScanAt(lines: seq<string>, i: nat, c: Constraints): CodeLine
    requires i < |lines|
  {
    Scanned(lines[i], Before(lines, i, c).inBlock)
  }

  function StepAt(lines: seq<string>, i: nat, c: Constraints): Step
    requires i < |lines|
  {
    ScannedFits(lines[i], Before(lines, i, c).inBlock);
    LineStep(lines[i], ScanAt(lines, i, c), Before(lines, i, c), c)
  }

  ghost predicate Succeeds(lines: seq<string>, c: Constraints) {
    Rewrite(lines, c).Rewritten?
  }

  /** The edit of line `i` in a pass that succeeds. */
  function EditAt(lines: seq<string>, i: nat, c: Constraints): Edit
    requires i < |lines|
  {
    match StepAt(lines, i, c)
    case Stuck(_) => Keep
    case Moved(_, edit, _, _) => edit
  }

  lemma {:induction false} GoingAt(lines: seq<string>, i: nat, n: nat, c: Constraints)
    requires i <= n <= |lines| && RunLines(lines, n, c).Going?
    ensures RunLines(lines, i, c).Going?
    decreases n
  {
    hide LineStep, Scanned;
    if i < n {
      GoingAt(lines, i, n - 1, c);
    }
  }

  lemma OneStep(lines: seq<string>, i: nat, c: Constraints)
    requires i < |lines| && RunLines(lines, i + 1, c).Going?
    ensures RunLines(lines, i, c).Going? && StepAt(lines, i, c).Moved?
    ensures Before(lines, i + 1, c) == StepAt(lines, i, c).next
    ensures RunLines(lines, i + 1, c).edits == RunLines(lines, i, c).edits + [EditAt(lines, i, c)]
    ensures Sound(Before(lines, i, c))
  {
    GoingAt(lines, i, i + 1, c);
    RunInvariant(lines, i, c);
    hide LineStep, Scanned, Sound;
  }

  // ----- one line

  // On the field's own line: into the block it closes there, or in a new one before the `;`.
  predicate OnOwnLine(line: string, scan: CodeLine, d: Demand, edit: Edit) {
    if scan.opens == [] then scan.semicolons != [] && scan.semicolons[0] <= |line|
        && edit == BeforeSemicolon(line, scan, d)
    else IntoBlock(scan, d, edit)
  }

  predicate IntoBlock(scan: CodeLine, d: Demand, edit: Edit) {
    scan.closes != [] && edit == IntoBracket(scan, d)
  }

  lemma DemandStep(line: string, scan: CodeLine, st: Pass, c: Constraints, d: Demand)
    requires Sound(st) && ScanFits(line, scan) && LineStep(line, scan, st, c).Moved? && DemandOf(scan, st, c) == Some(d)
    ensures var step := LineStep(line, scan, st, c);
            && st.depth == 0
            && if step.next.depth == 0 then OnOwnLine(line, scan, d, step.edit) && step.next.pending.None?
               else step.edit == Keep && step.next.pending == Some(d)
  {
    hide FieldDemand, ContextAfter, BeforeSemicolon, IntoBracket;
  }

  lemma PendingStep(line: string, scan: CodeLine, st: Pass, c: Constraints, d: Demand)
    requires Sound(st) && ScanFits(line, scan) && LineStep(line, scan, st, c).Moved? && st.pending == Some(d)
    ensures var step := LineStep(line, scan, st, c);
            && st.depth > 0 && DemandOf(scan, st, c).None?
            && if step.next.depth == 0 then IntoBlock(scan, d, step.edit) && step.next.pending.None?
               else step.edit == Keep && step.next.pending == Some(d)
  {
    hide FieldDemand, ContextAfter, BeforeSemicolon, IntoBracket;
  }

  lemma IdleStep(line: string, scan: CodeLine, st: Pass, c: Constraints)
    requires Sound(st) && ScanFits(line, scan) && LineStep(line, scan, st, c).Moved?
    requires st.pending.None? && DemandOf(scan, st, c).None?
    ensures LineStep(line, scan, st, c).edit == Keep && LineStep(line, scan, st, c).next.pending.None?
  {
    hide ContextAfter, BeforeSemicolon, IntoBracket;
  }

  // ----- where a demand is met

  /** `j` is the line that closes the option block of the field on line `i`. */
  ghost predicate Home(lines: seq<string>, i: nat, j: nat, c: Constraints) {
    && i <= j < |lines| && Before(lines, j + 1, c).depth == 0
    && forall x :: i < x <= j ==> Before(lines, x, c).depth > 0
  }

  /** The demand of line `i` is met on line `j`, and nothing is edited in between. */
  ghost predicate MetAt(lines: seq<string>, i: nat, j: nat, d: Demand, c: Constraints) {
    && i <= j < |lines|
    && (if i == j then OnOwnLine(lines[i], ScanAt(lines, i, c), d, EditAt(lines, i, c))
        else IntoBlock(ScanAt(lines, j, c), d, EditAt(lines, j, c)))
    && forall x :: i <= x < j ==> EditAt(lines, x, c) == Keep
  }

  // A waiting rewrite is carried to the line that closes the block.
  lemma {:induction false} FollowPending(lines: seq<string>, i: nat, c: Constraints, d: Demand) returns (j: nat)
    requires i <= |lines| && RunLines(lines, |lines|, c).Going? && Before(lines, |lines|, c).pending.None?
    requires Before(lines, i, c).pending == Some(d)
    ensures i <= j < |lines| && Before(lines, j + 1, c).depth == 0
    ensures forall x :: i <= x <= j ==> Before(lines, x, c).depth > 0
    ensures IntoBlock(ScanAt(lines, j, c), d, EditAt(lines, j, c))
    ensures forall x :: i <= x < j ==> EditAt(lines, x, c) == Keep
    decreases |lines| - i
  {
    hide RunLines, LineStep, Before, ScanAt, DemandOf, Sound, IntoBlock;
    GoingAt(lines, i + 1, |lines|, c);
    OneStep(lines, i, c);
    StepIsLineStep(lines, i, c);
    PendingStep(lines[i], ScanAt(lines, i, c), Before(lines, i, c), c, d);
    if Before(lines, i + 1, c).depth == 0 {
      j := i;
    } else {
      j := FollowPending(lines, i + 1, c, d);
    }
  }

  lemma StepIsLineStep(lines: seq<string>, i: nat, c: Constraints)
    requires i < |lines|
    ensures ScanFits(lines[i], ScanAt(lines, i, c))
    ensures StepAt(lines, i, c) == LineStep(lines[i], ScanAt(lines, i, c), Before(lines, i, c), c)
  {
    hide LineStep, Before;
    ScannedFits(lines[i], Before(lines, i, c).inBlock);
  }

  lemma DemandIsOf(lines: seq<string>, i: nat, c: Constraints)
    requires i < |lines| && RunLines(lines, i, c).Going?
    ensures DemandAt(lines, i, c) == DemandOf(ScanAt(lines, i, c), Before(lines, i, c), c)
  {
    hide DemandOf, Scanned;
  }

  lemma SucceedsMeans(lines: seq<string>, c: Constraints)
    requires Succeeds(lines, c)
    ensures RunLines(lines, |lines|, c).Going?
    ensures Before(lines, |lines|, c).pending.None? && Before(lines, |lines|, c).depth == 0
  {
    hide RunLines;
  }

  /** Every demand is met once, on the line that closes its field's option block. */
  lemma DemandIsMet(lines: seq<string>, i: nat, c: Constraints, d: Demand) returns (j: nat)
    requires Succeeds(lines, c) && i < |lines| && DemandAt(lines, i, c) == Some(d)
    ensures Home(lines, i, j, c) && MetAt(lines, i, j, d, c)
    ensures Before(lines, i, c).depth == 0
  {
    hide RunLines, LineStep, Before, ScanAt, DemandOf, Sound, IntoBlock, Rewrite, OnOwnLine;
    SucceedsMeans(lines, c);
    GoingAt(lines, i + 1, |lines|, c);
    OneStep(lines, i, c);
    StepIsLineStep(lines, i, c);
    DemandIsOf(lines, i, c);
    DemandStep(lines[i], ScanAt(lines, i, c), Before(lines, i, c), c, d);
    if Before(lines, i + 1, c).depth == 0 {
      j := i;
    } else {
      j := FollowPending(lines, i + 1, c, d);
    }
  }

  /** The line that closes the block is unique, and no two demands share it. */
  lemma HomesDiffer(lines: seq<string>, i: nat, j: nat, i': nat, j': nat, c: Constraints)
    requires Home(lines, i, j, c) && Home(lines, i', j', c)
    requires Before(lines, i, c).depth == 0 && Before(lines, i', c).depth == 0
    ensures i == i' <==> j == j'
  {
    hide Before;
    if i < i' {
      BlockEnds(lines, i, j, i', c);
    } else if i' < i {
      BlockEnds(lines, i', j', i, c);
    } else {
      BlockEnds(lines, i, j, j' + 1, c);
      BlockEnds(lines, i, j', j + 1, c);
    }
  }

  // Where the depth is zero, the block is over.
  lemma BlockEnds(lines: seq<string>, i: nat, j: nat, x: nat, c: Constraints)
    requires j < |lines| && forall x :: i < x <= j ==> Before(lines, x, c).depth > 0
    requires i < x <= |lines| && Before(lines, x, c).depth == 0
    ensures x > j
  {
    hide Before;
  }

  // A waiting rewrite comes from an earlier field whose block is still open.
  lemma {:induction false} PendingOrigin(lines: seq<string>, j: nat, c: Constraints, d: Demand) returns (i: nat)
    requires j <= |lines| && RunLines(lines, j, c).Going? && Before(lines, j, c).pending == Some(d)
    ensures i < j && DemandAt(lines, i, c) == Some(d) && forall x :: i < x <= j ==> Before(lines, x, c).depth > 0
    decreases j
  {
    hide RunLines, LineStep, Before, ScanAt, DemandOf, DemandAt;
    if j == 0 {
      NothingPending(lines, c);
    } else {
      PendingFrom(lines, j - 1, c, d);
      if DemandAt(lines, j - 1, c) == Some(d) {
        i := j - 1;
      } else {
        i := PendingOrigin(lines, j - 1, c, d);
      }
    }
  }

  lemma PendingFrom(lines: seq<string>, j: nat, c: Constraints, d: Demand)
    requires j < |lines| && RunLines(lines, j + 1, c).Going? && Before(lines, j + 1, c).pending == Some(d)
    ensures RunLines(lines, j, c).Going? && Before(lines, j + 1, c).depth > 0
    ensures DemandAt(lines, j, c) == Some(d)
        || (Before(lines, j, c).pending == Some(d) && Before(lines, j, c).depth > 0)
  {
    hide RunLines, LineStep, Before, ScanAt, DemandOf, DemandAt;
    OneStep(lines, j, c);
    StepIsLineStep(lines, j, c);
    DemandIsOf(lines, j, c);
    StillSound(lines, j + 1, c);
    var st, scan := Before(lines, j, c), ScanAt(lines, j, c);
    if st.pending.Some? {
      PendingStep(lines[j], scan, st, c, st.pending.value);
    } else if DemandOf(scan, st, c).Some? {
      DemandStep(lines[j], scan, st, c, DemandOf(scan, st, c).value);
    } else {
      IdleStep(lines[j], scan, st, c);
    }
  }

  lemma NothingPending(lines: seq<string>, c: Constraints)
    ensures Before(lines, 0, c).pending.None?
  {
  }

  lemma StillSound(lines: seq<string>, j: nat, c: Constraints)
    requires j <= |lines| && RunLines(lines, j, c).Going?
    ensures Sound(Before(lines, j, c))
  {
    RunInvariant(lines, j, c);
    hide LineStep, Scanned, Sound;
  }

  /** And every edit meets a demand: lines without one to meet are copied as they are. */
  lemma EditMeetsDemand(lines: seq<string>, j: nat, c: Constraints) returns (i: nat, d: Demand)
    requires Succeeds(lines, c) && j < |lines| && EditAt(lines, j, c) != Keep
    ensures i <= j && DemandAt(lines, i, c) == Some(d) && Home(lines, i, j, c) && MetAt(lines, i, j, d, c)
  {
    hide RunLines, LineStep, Before, ScanAt, DemandOf, Sound, IntoBlock, Rewrite, OnOwnLine, Home, MetAt;
    SucceedsMeans(lines, c);
    GoingAt(lines, j + 1, |lines|, c);
    OneStep(lines, j, c);
    StepIsLineStep(lines, j, c);
    DemandIsOf(lines, j, c);
    var st, scan := Before(lines, j, c), ScanAt(lines, j, c);
    if st.pending.Some? {
      d := st.pending.value;
      PendingStep(lines[j], scan, st, c, d);
      i := PendingOrigin(lines, j, c, d);
    } else if DemandAt(lines, j, c).Some? {
      i, d := j, DemandAt(lines, j, c).value;
      DemandStep(lines[j], scan, st, c, d);
    } else {
      IdleStep(lines[j], scan, st, c);
    }
    var home := DemandIsMet(lines, i, c, d);
    SameHome(lines, i, home, j, c);
  }

  lemma SameHome(lines: seq<string>, i: nat, home: nat, j: nat, c: Constraints)
    requires Home(lines, i, home, c) && i <= j < |lines| && Before(lines, j + 1, c).depth == 0
    requires forall x :: i < x <= j ==> Before(lines, x, c).depth > 0
    ensures home == j
  {
    hide Before;
    BlockEnds(lines, i, j, home + 1, c);
    BlockEnds(lines, i, home, j + 1, c);
  }

  /** The edits the pass reports are these. */
  lemma {:induction false} EditsAreThese(lines: seq<string>, n: nat, c: Constraints)
    requires n <= |lines| && RunLines(lines, n, c).Going?
    ensures |RunLines(lines, n, c).edits| == n
    ensures forall j :: 0 <= j < n ==> RunLines(lines, n, c).edits[j] == EditAt(lines, j, c)
    decreases n
  {
    hide StepAt, EditAt, RunLines, Before, Sound;
    if n == 0 {
      NoEdits(lines, c);
    } else {
      OneStep(lines, n - 1, c);
      EditsAreThese(lines, n - 1, c);
    }
  }

  lemma NoEdits(lines: seq<string>, c: Constraints)
    ensures RunLines(lines, 0, c).Going? && RunLines(lines, 0, c).edits == []
  {
  }

  // ----- the pass as a whole

  ghost predicate DemandMet(lines: seq<string>, i: nat, d: Demand, c: Constraints) {
    exists j: nat :: Home(lines, i, j, c) && MetAt(lines, i, j, d, c)
  }

  ghost predicate EditExplained(lines: seq<string>, j: nat, c: Constraints)
    requires j < |lines|
  {
    exists i: nat | i <= j :: DemandAt(lines, i, c).Some? && Home(lines, i, j, c)
        && MetAt(lines, i, j, DemandAt(lines, i, c).value, c)
  }

  /**
   A pass that succeeds: every constrained field has its options inserted on the one line
   that closes its option block, every edit is such an insertion, and lines in between are
   left alone.  `HomesDiffer` says that no two fields share a line.
   */
  lemma InsertionsArePlaced(lines: seq<string>, c: Constraints)
    requires Rewrite(lines, c).Rewritten?
    ensures |Rewrite(lines, c).edits| == |lines|
    ensures forall j :: 0 <= j < |lines| ==> Rewrite(lines, c).edits[j] == EditAt(lines, j, c)
    ensures forall i :: 0 <= i < |lines| && DemandAt(lines, i, c).Some? ==>
        DemandMet(lines, i, DemandAt(lines, i, c).value, c)
    ensures forall j :: 0 <= j < |lines| && EditAt(lines, j, c) != Keep ==> EditExplained(lines, j, c)
  {
    hide RunLines, DemandAt, EditAt, Home, MetAt;
    SucceedsMeans(lines, c);
    EditsAreThese(lines, |lines|, c);
    forall i | 0 <= i < |lines| && DemandAt(lines, i, c).Some?
        ensures DemandMet(lines, i, DemandAt(lines, i, c).value, c) {
      var j := DemandIsMet(lines, i, c, DemandAt(lines, i, c).value);
    }
    forall j | 0 <= j < |lines| && EditAt(lines, j, c) != Keep ensures EditExplained(lines, j, c) {
      var i, d := EditMeetsDemand(lines, j, c);
    }
  }

  // The lines of a successful pass are the edited lines.
  lemma LinesAreEdited(lines: seq<string>, j: nat, c: Constraints)
    requires Rewrite(lines, c).Rewritten? && j < |lines|
    ensures |Rewrite(lines, c).lines| == |lines|
    ensures CleanEdit(lines[j], BlockAt(lines, j), EditAt(lines, j, c))
    ensures EditFits(lines[j], EditAt(lines, j, c))
    ensures Rewrite(lines, c).lines[j] == Edited(lines[j], EditAt(lines, j, c))
  {
    hide RunLines, LineState, EditAt, CleanEdit, Carries, Inserted, Demands, Sound;
    SucceedsMeans(lines, c);
    RunInvariant(lines, |lines|, c);
    EditsAreThese(lines, |lines|, c);
    var r := RunLines(lines, |lines|, c);
    assert LineDone(lines, r.out, r.edits, j);
    CleanFits(lines[j], BlockAt(lines, j), EditAt(lines, j, c));
  }

  lemma RewrittenLength(lines: seq<string>, c: Constraints)
    requires Rewrite(lines, c).Rewritten?
    ensures |Rewrite(lines, c).lines| == |lines|
  {
    hide RunLines, LineDone, Carries, Inserted, Demands, Sound;
    SucceedsMeans(lines, c);
    RunInvariant(lines, |lines|, c);
  }
}
