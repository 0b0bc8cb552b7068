/**
 The line-by-line injection pass: a state machine over lines that tracks message
 nesting, open option blocks and comments, and rewrites constrained fields.
 */
module ProtoPass {
  import opened Text
  import opened ProtoMask
  import opened ProtoScan
  import opened ProtoInject

  // ----- structural patterns, matched against the code view of a line

  predicate Digit(c: char) {
    '0' <= c <= '9'
  }

  function SkipSpace(s: string, i: nat): (k: nat)
    requires i <= |s|
    ensures i <= k <= |s|
    decreases |s| - i
  {
    if i < |s| && IsSpace(s[i]) then SkipSpace(s, i + 1) else i
  }

  function SkipWord(s: string, i: nat, dots: bool): (k: nat)
    requires i <= |s|
    ensures i <= k <= |s|
    decreases |s| - i
  {
    if i < |s| && (WordChar(s[i]) || (dots && s[i] == '.')) then SkipWord(s, i + 1, dots) else i
  }

  predicate StartsAt(s: string, i: nat, word: string) {
    i + |word| <= |s| && s[i..i + |word|] == word
  }

  /** `keyword name {` after leading white space: the name. */
  function ScopeName(code: string, keyword: string): Option<string> {
    var i := SkipSpace(code, 0);
    if !StartsAt(code, i, keyword) then None
    else
      var j := i + |keyword|;
      var k := SkipSpace(code, j);
      var w := SkipWord(code, k, false);
      var b := SkipSpace(code, w);
      if j < k < w && b < |code| && code[b] == '{' then Some(code[k..w]) else None
  }

  predicate ClosesScope(code: string) {
    Strip(code) == "}"
  }

  // `type name = number`, from offset `i`: the name.
  function FieldTail(code: string, i: nat): Option<string>
    requires i <= |code|
  {
    var t := SkipWord(code, i, true);
    var k := SkipSpace(code, t);
    var w := SkipWord(code, k, false);
    var e := SkipSpace(code, w);
    if !(i < t < k < w && e < |code| && code[e] == '=') then None
    else
      var d := SkipSpace(code, e + 1);
      if d < |code| && Digit(code[d]) then Some(code[k..w]) else None
  }

  function AfterQualifier(code: string, i: nat, qualifier: string): Option<nat> {
    if !StartsAt(code, i, qualifier) then None
    else
      var j := i + |qualifier|;
      var k := SkipSpace(code, j);
      if j < k then Some(k) else None
  }

  /** The name of the field a line declares; the qualifier is optional, and tried first. */
  function FieldName(code: string): Option<string> {
    var i := SkipSpace(code, 0);
    var q := if AfterQualifier(code, i, "optional").Some? then AfterQualifier(code, i, "optional")
             else AfterQualifier(code, i, "repeated");
    if q.Some? && q.value <= |code| && FieldTail(code, q.value).Some? then FieldTail(code, q.value)
    else FieldTail(code, i)
  }

  // ----- one line

  /** What a field line asks for: the formatted options and the keys they came from. */
  datatype Demand = Demand(opts: string, specific: set<Key>, wildcard: set<string>)

  datatype Edit = Keep | Insert(at: nat, cut: nat, text: string)

  /** What is carried from line to line. */
  datatype Pass = Pass(context: seq<Scope>, pending: Option<Demand>, depth: nat, inBlock: bool)

  const START := Pass([], None, 0, false)

  datatype Error = UnbalancedBracket | NoTerminator | UnterminatedField | UnterminatedBlock

  datatype Step = Stuck(error: Error) | Moved(next: Pass, edit: Edit, demand: Option<Demand>, commit: Option<Demand>)

  function OpenedScope(code: string): Option<Scope> {
    if ScopeName(code, "message").Some? then Some(Scope(MessageScope, ScopeName(code, "message").value))
    else if ScopeName(code, "oneof").Some? then Some(Scope(OneofScope, ScopeName(code, "oneof").value))
    else if ScopeName(code, "enum").Some? then Some(Scope(EnumScope, ScopeName(code, "enum").value))
    else None
  }

  function ContextAfter(code: string, context: seq<Scope>): seq<Scope> {
    var scope := OpenedScope(code);
    if scope.Some? then context + [scope.value]
    else if ClosesScope(code) && context != [] then context[..|context| - 1]
    else context
  }

  /** The constrained field a code line declares in its context, if any. */
  function FieldDemand(code: string, context: seq<Scope>, c: Constraints): Option<Demand> {
    var field := FieldName(code);
    if OpenedScope(code).Some? || (ClosesScope(code) && context != []) || field.None? then None
    else if context != [] && context[|context| - 1].kind == EnumScope then None
    else
      var names := MessageNames(context);
      var extra := Collected(field.value, names, c);
      if extra == map[] then None
      else Some(Demand(FormatOptions(extra), MatchedKeys(field.value, names, c), MatchedWildcard(field.value, c)))
  }

  /** Fields are looked for outside option blocks, on lines that carry code. */
  function DemandOf(scan: CodeLine, st: Pass, c: Constraints): Option<Demand> {
    if st.depth > 0 || AllSpace(scan.code) then None else FieldDemand(scan.code, st.context, c)
  }

  // Inside the last option bracket of the line.
  function IntoBracket(scan: CodeLine, d: Demand): Edit
    requires scan.closes != []
  {
    Insert(scan.closes[|scan.closes| - 1], 0, ", " + d.opts)
  }

  // A new option bracket in front of the first semicolon.
  function BeforeSemicolon(line: string, scan: CodeLine, d: Demand): Edit
    requires scan.semicolons != [] && scan.semicolons[0] <= |line|
  {
    var at := scan.semicolons[0];
    Insert(at, at - |RStrip(line[..at])|, " [" + d.opts + "]")
  }

  predicate ScanFits(line: string, scan: CodeLine) {
    && (forall k :: 0 <= k < |scan.closes| ==> scan.closes[k] < |line|)
    && (forall k :: 0 <= k < |scan.semicolons| ==> scan.semicolons[k] < |line|)
  }

  function LineStep(line: string, scan: CodeLine, st: Pass, c: Constraints): Step
    requires ScanFits(line, scan)
  {
    var next := st.depth + |scan.opens| - |scan.closes|;
    if next < 0 then Stuck(UnbalancedBracket)
    else if st.pending.Some? && st.depth > 0 && next == 0 then
      Moved(Pass(st.context, None, 0, scan.inBlockComment), IntoBracket(scan, st.pending.value), None, st.pending)
    else if st.depth > 0 || AllSpace(scan.code) then
      Moved(st.(depth := next, inBlock := scan.inBlockComment), Keep, None, None)
    else
      var after := Pass(ContextAfter(scan.code, st.context), st.pending, next, scan.inBlockComment);
      var demand := FieldDemand(scan.code, st.context, c);
      if demand.None? then Moved(after, Keep, None, None)
      else if scan.opens == [] then
        if scan.semicolons == [] then Stuck(NoTerminator)
        else Moved(after, BeforeSemicolon(line, scan, demand.value), demand, demand)
      else if next == 0 then Moved(after, IntoBracket(scan, demand.value), demand, demand)
      else Moved(after.(pending := demand), Keep, demand, None)
  }

  function Edited(line: string, edit: Edit): string
    requires edit.Insert? ==> edit.cut <= edit.at <= |line|
  {
    match edit
    case Keep => line
    case Insert(at, cut, text) => line[..at - cut] + text + line[at..]
  }

  lemma ScannedFits(line: string, b: bool)
    ensures ScanFits(line, Scanned(line, b))
  {
  }
}
