/**
 The message nesting the pass tracks, against the nesting of braces in the text.  The pass
 looks at one header or one closing brace a line; the two agree exactly on lines whose
 braces come to just that.
 */
module ProtoNesting {
  import opened Text
  import opened ProtoMask
  import opened ProtoScan
  import opened ProtoInject
  import opened ProtoPass
  import opened ProtoPassRuns
  import opened ProtoPassPlaces
  import opened ProtoDeclarations

  // ----- the nesting of braces

  /** What encloses a place: one entry a brace, `None` for braces of anything but a message, oneof or enum. */
  type Stack = seq<Option<Scope>>

  /** The open braces, and the text since the last brace or `;`, which may become a header. */
  datatype Nesting = Nesting(stack: Stack, head: string)

  function Pushed(n: Nesting, c: char): Nesting {
    if c == '{' then Nesting(n.stack + [OpenedScope(n.head + "{")], "")
    else if c == '}' then Nesting(if n.stack == [] then [] else n.stack[..|n.stack| - 1], "")
    else if c == ';' then Nesting(n.stack, "")
    else Nesting(n.stack, n.head + [c])
  }

  function Nest(code: string, n: Nesting): Nesting
    decreases code
  {
    if code == "" then n else Nest(code[1..], Pushed(n, code[0]))
  }

  /** The nesting in front of line `i`. */
  function NestingAt(lines: seq<string>, i: nat): Nesting
    requires i <= |lines|
  {
    if i == 0 then Nesting([], "") else Nest(CodeAt(lines, i - 1) + "\n", NestingAt(lines, i - 1))
  }

  /** The messages among the open braces, outermost first. */
  function EnclosingMessages(stack: Stack): seq<string> {
    if stack == [] then []
    else
      var last := stack[|stack| - 1];
      EnclosingMessages(stack[..|stack| - 1])
      + if last.Some? && last.value.kind == MessageScope then [last.value.name] else []
  }

  // ----- what a line does to any nesting

  /** Braces closed that were open before, and those opened and still open. */
  datatype Effect = Effect(pops: nat, pushes: Stack)

  const NOTHING := Effect(0, [])

  function Apply(e: Effect, stack: Stack): Stack {
    (if e.pops <= |stack| then stack[..|stack| - e.pops] else []) + e.pushes
  }

  function EffectStep(e: Effect, head: string, c: char): Effect {
    if c == '{' then Effect(e.pops, e.pushes + [OpenedScope(head + "{")])
    else if c != '}' then e
    else if e.pushes != [] then Effect(e.pops, e.pushes[..|e.pushes| - 1])
    else Effect(e.pops + 1, [])
  }

  function HeadStep(head: string, c: char): string {
    if c == '{' || c == '}' || c == ';' then "" else head + [c]
  }

  /** The effect of a line's braces behind the text `head`. */
  function EffectOf(code: string, head: string, e: Effect): Effect
    decreases code
  {
    if code == "" then e else EffectOf(code[1..], HeadStep(head, code[0]), EffectStep(e, head, code[0]))
  }

  lemma StepApplies(e: Effect, stack: Stack, head: string, c: char)
    ensures Pushed(Nesting(Apply(e, stack), head), c)
         == Nesting(Apply(EffectStep(e, head, c), stack), HeadStep(head, c))
  {
    hide OpenedScope;
    if c == '{' {
      assert Apply(e, stack) + [OpenedScope(head + "{")] == Apply(EffectStep(e, head, c), stack);
    }
  }

  /** A line changes every nesting by its effect. */
  lemma {:induction false} NestApplies(code: string, head: string, e: Effect, stack: Stack)
    ensures Nest(code, Nesting(Apply(e, stack), head)).stack == Apply(EffectOf(code, head, e), stack)
    decreases code
  {
    hide OpenedScope, Apply, EffectStep, HeadStep, Pushed;
    if code != "" {
      StepApplies(e, stack, head, code[0]);
      NestApplies(code[1..], HeadStep(head, code[0]), EffectStep(e, head, code[0]), stack);
    }
  }

  // ----- what the pass does instead

  function Lift(context: seq<Scope>): (r: Stack)
    ensures |r| == |context| && forall i :: 0 <= i < |r| ==> r[i] == Some(context[i])
  {
    seq(|context|, i requires 0 <= i < |context| => Some(context[i]))
  }

  /** A header opens its scope, a line of one closing brace closes one; other lines do nothing. */
  function Seen(code: string): Effect {
    if OpenedScope(code).Some? then Effect(0, [OpenedScope(code)])
    else if ClosesScope(code) then Effect(1, [])
    else NOTHING
  }

  lemma SeenApplies(code: string, context: seq<Scope>)
    ensures Lift(ContextAfter(code, context)) == Apply(Seen(code), Lift(context))
  {
    hide OpenedScope, ClosesScope;
  }

  lemma {:induction false} MessagesAreEnclosing(context: seq<Scope>)
    ensures EnclosingMessages(Lift(context)) == MessageNames(context)
  {
    if context != [] {
      var n := |context| - 1;
      MessagesAreEnclosing(context[..n]);
      assert Lift(context)[..n] == Lift(context[..n]);
    }
  }

  // ----- exactly when they agree

  ghost predicate SameEffect(e: Effect, f: Effect) {
    forall context: seq<Scope> :: Apply(e, Lift(context)) == Apply(f, Lift(context))
  }

  lemma EffectsDiffer(e: Effect, f: Effect)
    ensures SameEffect(e, f) <==> e == f
  {
    if SameEffect(e, f) {
      assert Lift([]) == [];
      assert Apply(e, Lift([])) == Apply(f, Lift([])) && Apply(e, []) == e.pushes && Apply(f, []) == f.pushes;
      var n := e.pops + f.pops;
      var deep := seq(n, _ => Scope(MessageScope, ""));
      assert |Apply(e, Lift(deep))| == |Apply(f, Lift(deep))|;
    }
  }

  ghost predicate Tracks(code: string) {
    forall context: seq<Scope> ::
      Nest(code, Nesting(Lift(context), "")).stack == Lift(ContextAfter(code, context))
  }

  /**
   On a line that starts afresh, the pass keeps up with the braces, in whatever context,
   exactly if what it sees of the line is all the line does.
   */
  lemma LineTracksExactly(code: string)
    ensures Tracks(code) <==> EffectOf(code, "", NOTHING) == Seen(code)
  {
    hide Nest, Apply, EffectOf, Seen, ContextAfter;
    var e := EffectOf(code, "", NOTHING);
    forall context: seq<Scope>
      ensures Nest(code, Nesting(Lift(context), "")).stack == Apply(e, Lift(context))
      ensures Lift(ContextAfter(code, context)) == Apply(Seen(code), Lift(context))
    {
      NothingApplies(Lift(context));
      NestApplies(code, "", NOTHING, Lift(context));
      SeenApplies(code, context);
    }
    assert Tracks(code) <==> SameEffect(e, Seen(code));
    EffectsDiffer(e, Seen(code));
  }

  lemma NothingApplies(stack: Stack)
    ensures Apply(NOTHING, stack) == stack
  {
  }

  // ----- over a whole file

  /** Option brackets open in front of line `i`. */
  function DepthAt(lines: seq<string>, i: nat): int
    requires i <= |lines|
  {
    if i == 0 then 0 else DepthAt(lines, i - 1) + Net(CodeAt(lines, i - 1))
  }

  lemma {:induction false} DepthIsCarried(lines: seq<string>, i: nat, c: Constraints)
    requires i <= |lines| && RunLines(lines, i, c).Going?
    ensures DepthAt(lines, i) == Before(lines, i, c).depth
    decreases i
  {
    hide Net, CodeAt, LineStep, Scanned;
    if i > 0 {
      GoingAt(lines, i - 1, i, c);
      DepthIsCarried(lines, i - 1, c);
      hide RunLines, Before;
      DepthOfText(lines, i - 1, c);
    }
  }

  /** The braces of line `i`, behind the text before it, come to what the pass sees of the line. */
  predicate Tidy(lines: seq<string>, i: nat)
    requires i < |lines|
  {
    var code := CodeAt(lines, i);
    EffectOf(code + "\n", NestingAt(lines, i).head, NOTHING)
    == if DepthAt(lines, i) > 0 || AllSpace(code) then NOTHING else Seen(code)
  }

  lemma ContextStep(line: string, scan: CodeLine, st: Pass, c: Constraints)
    requires Sound(st) && ScanFits(line, scan) && LineStep(line, scan, st, c).Moved?
    ensures LineStep(line, scan, st, c).next.context
         == if st.depth > 0 || AllSpace(scan.code) then st.context else ContextAfter(scan.code, st.context)
  {
    hide FieldDemand, ContextAfter, BeforeSemicolon, IntoBracket;
  }

  /** On tidy lines the context of the pass is the nesting of the text, and its names are the enclosing messages. */
  lemma {:induction false} ContextIsNesting(lines: seq<string>, i: nat, c: Constraints)
    requires i <= |lines| && RunLines(lines, i, c).Going? && forall x :: 0 <= x < i ==> Tidy(lines, x)
    ensures NestingAt(lines, i).stack == Lift(Before(lines, i, c).context)
    ensures MessageNames(Before(lines, i, c).context) == EnclosingMessages(NestingAt(lines, i).stack)
    decreases i
  {
    hide LineStep, Scanned, Tidy, Nest, CodeAt, EnclosingMessages;
    if i > 0 {
      GoingAt(lines, i - 1, i, c);
      ContextIsNesting(lines, i - 1, c);
      hide RunLines, Before;
      assert Tidy(lines, i - 1);
      TidyStep(lines, i - 1, c);
    }
    MessagesAreEnclosing(Before(lines, i, c).context);
  }

  lemma TidyStep(lines: seq<string>, i: nat, c: Constraints)
    requires i < |lines| && RunLines(lines, i + 1, c).Going? && Tidy(lines, i)
    requires NestingAt(lines, i).stack == Lift(Before(lines, i, c).context)
    ensures NestingAt(lines, i + 1).stack == Lift(Before(lines, i + 1, c).context)
  {
    hide RunLines, Before, LineStep, ScanAt, Nest, CodeAt, Net, Sound, Apply, EffectOf, Seen, ContextAfter, AllSpace;
    var st := Before(lines, i, c);
    OneStep(lines, i, c);
    StepIsLineStep(lines, i, c);
    CodeOfScan(lines, i, c);
    ContextStep(lines[i], ScanAt(lines, i, c), st, c);
    DepthIsCarried(lines, i, c);
    SeenApplies(CodeAt(lines, i), st.context);
    NothingApplies(Lift(st.context));
    NestApplies(CodeAt(lines, i) + "\n", NestingAt(lines, i).head, NOTHING, Lift(st.context));
  }

  // ----- a message that is empty

  const EMPTY := "message E {}"

  lemma EmptyOpens()
    ensures OpenedScope(EMPTY) == Some(Scope(MessageScope, "E"))
  {
    var s := EMPTY;
    assert s[0..7] == "message" && s[7] == ' ' && s[8..9] == "E" && s[9] == ' ' && s[10] == '{';
    assert SkipSpace(s, 0) == 0 && SkipSpace(s, 8) == 8 && SkipSpace(s, 7) == 8;
    assert SkipWord(s, 9, false) == 9 && SkipWord(s, 8, false) == 9;
    assert SkipSpace(s, 10) == 10 && SkipSpace(s, 9) == 10;
    hide SkipSpace, SkipWord, IsSpace, WordChar;
    assert StartsAt(s, 0, "message");
  }

  lemma {:induction false} FlatEffect(code: string, head: string, e: Effect)
    requires forall k :: 0 <= k < |code| ==> code[k] != '{' && code[k] != '}'
    ensures forall tail :: EffectOf(code + tail, head, e) == EffectOf(tail, HeadOf(code, head), e)
    decreases code
  {
    if code == "" {
      forall tail ensures code + tail == tail {
      }
    } else {
      FlatEffect(code[1..], HeadStep(head, code[0]), e);
      forall tail ensures (code + tail)[1..] == code[1..] + tail && (code + tail)[0] == code[0] {
      }
    }
  }

  function HeadOf(code: string, head: string): string
    decreases code
  {
    if code == "" then head else HeadOf(code[1..], HeadStep(head, code[0]))
  }

  // A pair of braces with nothing in it.
  lemma PairOfBraces(head: string)
    ensures EffectOf("{}", head, NOTHING) == NOTHING
  {
    hide OpenedScope;
    assert "{}"[1..] == "}" && "}"[1..] == "";
  }

  lemma EmptyEffect()
    ensures EffectOf(EMPTY, "", NOTHING) == NOTHING
  {
    hide EffectOf, HeadOf, EffectStep;
    var head := "message E ";
    FlatEffect(head, "", NOTHING);
    assert EMPTY == head + "{}";
    PairOfBraces(HeadOf(head, ""));
  }

  /** An empty message on one line stays open for the pass: its name is taken for an enclosing one from then on. */
  lemma EmptyMessageStaysOpen(context: seq<Scope>)
    ensures Nest(EMPTY, Nesting(Lift(context), "")).stack == Lift(context)
    ensures ContextAfter(EMPTY, context) == context + [Scope(MessageScope, "E")]
    ensures !Tracks(EMPTY)
  {
    hide OpenedScope, Nest, Apply, EffectOf, Tracks;
    EmptyOpens();
    EmptyEffect();
    NothingApplies(Lift(context));
    NestApplies(EMPTY, "", NOTHING, Lift(context));
    LineTracksExactly(EMPTY);
  }
}
