/**
 What each field of the link tells about its history, over whole runs: when the stream is
 open and when it is gone, which events have been decided, what the flags stand for; and
 that an operation that has begun can be brought to its end.
 */
module LinkHistory {
  import opened LinkLifecycle
  import opened LinkRuns
  import opened Text

  // ----- one step, field by field

  /** A connect() that is let in: no close in progress, no live reader, and a stream to use. */
  predicate LetIn(s: State, step: Step) {
    step.ConnectEnter? && step.how != Fail && s.closer.None? && !ReaderAlive(s)
  }

  predicate Opens(s: State, step: Step) {
    LetIn(s, step) && step.how == Open
  }

  predicate Drops(step: Step) {
    step.CloseFinish? || step.ReaderClose? || step.DropStream?
  }

  /** A close() that is the one in progress from then on. */
  predicate TakesOver(s: State, step: Step) {
    step.CloseEnter? && s.closer.None?
  }

  lemma StreamAfter(s: State, step: Step)
    requires Enabled(s, step)
    ensures Apply(s, step).stream
         == if Opens(s, step) then Some(s.nextGen) else if Drops(step) then None else s.stream
    ensures Apply(s, step).nextGen == s.nextGen + if Opens(s, step) then 1 else 0
    ensures Apply(s, step).closer
         == if TakesOver(s, step) then Some(step.t) else if step.CloseFinish? then None else s.closer
  {
    hide Threads, NextPC, ReaderAlive;
  }

  lemma FlagsAfter(s: State, step: Step)
    requires Enabled(s, step)
    ensures Apply(s, step).wantExit <==> TakesOver(s, step) || (s.wantExit && !LetIn(s, step))
    ensures Apply(s, step).closing <==> step.CloseFlip? || (s.closing && !step.Prepare?)
    ensures Apply(s, step).connected <==> (step.ConnectedMark? && !s.closing) || (s.connected && !step.ReaderLost?)
  {
    hide Threads, NextPC, ReaderAlive;
  }

  lemma EstablishedAfter(s: State, step: Step)
    requires Enabled(s, step)
    ensures Apply(s, step).established == s.established + if step.ConnectedPublish? && !s.closing then 1 else 0
  {
    hide Threads, Enabled, Admitted;
  }

  lemma LostsAfter(s: State, step: Step)
    requires Enabled(s, step)
    ensures Apply(s, step).losts == s.losts + if step.ReaderLost? && s.connected then 1 else 0
  {
    hide Threads, Enabled, Admitted;
  }

  lemma SendsAfter(s: State, step: Step)
    requires Enabled(s, step)
    ensures Apply(s, step).inflight
         == s.inflight + (if (step.Heartbeat? || step.ConnectedBeat?) && !s.closing then 1 else 0)
            - (if step.HeartbeatDone? then 1 else 0)
  {
    hide Threads, NextPC, Admitted;
  }

  // ----- the stream over a run

  lemma {:induction false} StreamUnchanged(states: seq<State>, steps: seq<Step>, i: nat, j: nat)
    requires Run(states, steps) && i <= j < |states|
    requires forall k :: i <= k < j ==> !Opens(states[k], steps[k]) && !Drops(steps[k])
    ensures states[j].stream == states[i].stream
    decreases j
  {
    hide Apply, Enabled, Opens;
    if i < j {
      StreamUnchanged(states, steps, i, j - 1);
      assert Follows(states, steps, j - 1);
      StreamAfter(states[j - 1], steps[j - 1]);
    }
  }

  /** A connect() that opens a stream gives it a generation of its own. */
  lemma StreamOpens(states: seq<State>, steps: seq<Step>, i: nat, j: nat)
    requires Run(states, steps) && i < j < |states| && Opens(states[i], steps[i])
    requires forall k :: i < k < j ==> !Opens(states[k], steps[k]) && !Drops(steps[k])
    ensures states[j].stream == Some(states[i].nextGen)
  {
    assert Follows(states, steps, i);
    hide Apply, Enabled, Opens;
    StreamAfter(states[i], steps[i]);
    StreamUnchanged(states, steps, i + 1, j);
  }

  lemma {:induction false} GenerationsGrow(states: seq<State>, steps: seq<Step>, i: nat, j: nat)
    requires Run(states, steps) && i <= j < |states|
    ensures states[i].nextGen <= states[j].nextGen
    ensures (exists k :: i <= k < j && Opens(states[k], steps[k])) ==> states[i].nextGen < states[j].nextGen
    decreases j
  {
    hide Apply, Enabled, Opens;
    if i < j {
      GenerationsGrow(states, steps, i, j - 1);
      assert Follows(states, steps, j - 1);
      StreamAfter(states[j - 1], steps[j - 1]);
    }
  }

  /**
   When a close() or a reader's exit ends, there is no open stream, and there is none
   until a connect() opens one that was never open before.
   */
  lemma GoneUntilOpened(states: seq<State>, steps: seq<Step>, i: nat, j: nat)
    requires Run(states, steps) && i < j < |states| && (steps[i].CloseFinish? || steps[i].ReaderClose?)
    ensures states[i + 1].stream.None?
    ensures states[j].stream.Some? ==> exists k :: i < k < j && Opens(states[k], steps[k])
    ensures states[j].stream.Some? ==> states[j].stream.value >= states[i].nextGen
  {
    hide Apply, Enabled, ReaderAlive;
    assert Follows(states, steps, i);
    StreamAfter(states[i], steps[i]);
    StreamFrom(states, steps, i + 1, j);
    if states[j].stream.Some? {
      var k :| i + 1 <= k < j && Opens(states[k], steps[k]);
      assert i < k < j;
    }
  }

  // An open stream was open all along, or was opened in between.
  lemma {:induction false} StreamFrom(states: seq<State>, steps: seq<Step>, i: nat, j: nat)
    requires Run(states, steps) && i <= j < |states|
    ensures states[j].stream.Some? ==>
              || states[j].stream == states[i].stream
              || (states[j].stream.value >= states[i].nextGen && exists k :: i <= k < j && Opens(states[k], steps[k]))
    decreases j
  {
    hide Apply, Enabled, Opens;
    if i < j {
      StreamFrom(states, steps, i, j - 1);
      assert Follows(states, steps, j - 1);
      StreamAfter(states[j - 1], steps[j - 1]);
      GenerationsGrow(states, steps, i, j - 1);
    }
  }

  /** A close() that ends is the one that was in progress, and it leaves none. */
  lemma CloseEnds(states: seq<State>, steps: seq<Step>, i: nat)
    requires Run(states, steps) && i < |steps| && steps[i].CloseFinish?
    ensures states[i].closer == Some(steps[i].t)
    ensures states[i + 1].closer.None? && states[i + 1].stream.None? && states[i + 1].wantExit
  {
    assert Follows(states, steps, i);
    RunInv(states, steps, i);
    var s, t := states[i], steps[i].t;
    assert t in Class(s, Closer);
    StreamAfter(s, steps[i]);
    FlagsAfter(s, steps[i]);
  }

  // ----- the flags and counters over a run

  datatype What = Marked | Lost | LostWhileUp | Flipped | Preparing | TookOver | WasLetIn | Published

  /** What step `i` does. */
  ghost predicate Happens(states: seq<State>, steps: seq<Step>, i: int, what: What) {
    && 0 <= i < |steps| < |states|
    && match what
       case Marked => steps[i].ConnectedMark? && !states[i].closing
       case Lost => steps[i].ReaderLost?
       case LostWhileUp => steps[i].ReaderLost? && states[i].connected
       case Flipped => steps[i].CloseFlip?
       case Preparing => steps[i].Prepare?
       case TookOver => TakesOver(states[i], steps[i])
       case WasLetIn => LetIn(states[i], steps[i])
       case Published => steps[i].ConnectedPublish? && !states[i].closing
  }

  ghost predicate LastAt(states: seq<State>, steps: seq<Step>, i: int, n: nat, up: What, down: What) {
    0 <= i < n && Happens(states, steps, i, up) && forall k :: i < k < n ==> !Happens(states, steps, k, down)
  }

  /** It has happened before `n`, and the other has not since. */
  ghost predicate Since(states: seq<State>, steps: seq<Step>, n: nat, up: What, down: What) {
    exists i :: LastAt(states, steps, i, n, up, down)
  }

  lemma LastNext(states: seq<State>, steps: seq<Step>, i: int, n: nat, up: What, down: What)
    ensures LastAt(states, steps, i, n + 1, up, down) <==>
            if i == n then Happens(states, steps, n, up)
            else LastAt(states, steps, i, n, up, down) && !Happens(states, steps, n, down)
  {
    hide Happens;
  }

  lemma SinceNext(states: seq<State>, steps: seq<Step>, n: nat, up: What, down: What)
    ensures Since(states, steps, n + 1, up, down) <==>
            Happens(states, steps, n, up) || (Since(states, steps, n, up, down) && !Happens(states, steps, n, down))
  {
    hide Happens, LastAt;
    LastNext(states, steps, n, n, up, down);
    var m := n + 1;
    if i :| LastAt(states, steps, i, m, up, down) {
      LastNext(states, steps, i, n, up, down);
    }
    if i :| LastAt(states, steps, i, n, up, down) {
      LastNext(states, steps, i, n, up, down);
      assert i != n by { NotLastAt(states, steps, n, up, down); }
    }
  }

  lemma NotLastAt(states: seq<State>, steps: seq<Step>, n: nat, up: What, down: What)
    ensures !LastAt(states, steps, n, n, up, down)
  {
  }

  lemma FlagsNext(states: seq<State>, steps: seq<Step>, n: nat)
    requires Run(states, steps) && n < |steps|
    ensures states[n + 1].connected <==>
            Happens(states, steps, n, Marked) || (states[n].connected && !Happens(states, steps, n, Lost))
    ensures states[n + 1].closing <==>
            Happens(states, steps, n, Flipped) || (states[n].closing && !Happens(states, steps, n, Preparing))
    ensures states[n + 1].wantExit <==>
            Happens(states, steps, n, TookOver) || (states[n].wantExit && !Happens(states, steps, n, WasLetIn))
    ensures states[n + 1].established == states[n].established + if Happens(states, steps, n, Published) then 1 else 0
    ensures states[n + 1].losts == states[n].losts + if Happens(states, steps, n, LostWhileUp) then 1 else 0
  {
    hide Apply, Enabled, LetIn, TakesOver;
    assert Follows(states, steps, n);
    FlagsAfter(states[n], steps[n]);
    EstablishedAfter(states[n], steps[n]);
    LostsAfter(states[n], steps[n]);
  }

  /**
   Connected means marked so while not closing, and no connection lost since; closing, that
   some close() has flipped the flag and no connect() has prepared since; the exit flag, that
   some close() has taken over and no connect() has been let in since.
   */
  lemma {:induction false} FlagsSince(states: seq<State>, steps: seq<Step>, j: nat)
    requires Run(states, steps) && j < |states|
    ensures states[j].connected <==> Since(states, steps, j, Marked, Lost)
    ensures states[j].closing <==> Since(states, steps, j, Flipped, Preparing)
    ensures states[j].wantExit <==> Since(states, steps, j, TookOver, WasLetIn)
    decreases j
  {
    hide Happens, Follows;
    if j > 0 {
      FlagsSince(states, steps, j - 1);
      FlagsNext(states, steps, j - 1);
      SinceNext(states, steps, j - 1, Marked, Lost);
      SinceNext(states, steps, j - 1, Flipped, Preparing);
      SinceNext(states, steps, j - 1, TookOver, WasLetIn);
    }
  }

  ghost function Count(states: seq<State>, steps: seq<Step>, n: nat, what: What): nat {
    if n == 0 then 0 else Count(states, steps, n - 1, what) + if Happens(states, steps, n - 1, what) then 1 else 0
  }

  /** Established events are the publications decided while not closing; lost events the losses while connected. */
  lemma {:induction false} EventsCounted(states: seq<State>, steps: seq<Step>, j: nat)
    requires Run(states, steps) && j < |states|
    ensures states[j].established == Count(states, steps, j, Published)
    ensures states[j].losts == Count(states, steps, j, LostWhileUp)
    decreases j
  {
    hide Happens, Follows;
    if j > 0 {
      EventsCounted(states, steps, j - 1);
      FlagsNext(states, steps, j - 1);
    }
  }

  // ----- what has begun can end

  /** `s'` can be reached from `s`. */
  ghost predicate Reaches(s: State, steps: seq<Step>, s': State)
    decreases steps
  {
    if steps == [] then s == s'
    else Enabled(s, steps[0]) && Reaches(Apply(s, steps[0]), steps[1..], s')
  }

  function Rank(pc: PC): nat {
    match pc
    case CloseFlagged => 4
    case CloseWaiting => 3
    case CloseQuiet => 2
    case CloseFinishing => 1
    case _ => 0
  }

  lemma SomeSender(s: State) returns (u: Tid)
    requires InflightCounted(s) && s.inflight > 0
    ensures u in s.threads && s.threads[u].pc.Sending?
  {
    var senders := Class(s, InFlight);
    assert senders != {};
    u :| u in senders;
  }

  // A step towards the end of the close in progress: its own next one, or a heartbeat it waits for.
  lemma CloseProgress(s: State, t: Tid) returns (step: Step)
    requires Inv(s) && s.closer == Some(t)
    ensures Enabled(s, step) && t in s.threads && Rank(s.threads[t].pc) > 0
    ensures var s' := Apply(s, step);
            if step.CloseFinish? then s'.closer.None? && s'.stream.None?
            else s'.closer == Some(t) && t in s'.threads
                 && (Rank(s'.threads[t].pc) < Rank(s.threads[t].pc)
                     || (s'.threads[t].pc == s.threads[t].pc && s'.inflight < s.inflight))
  {
    assert t in Class(s, Closer);
    match s.threads[t].pc
    case CloseFlagged => step := CloseFlip(t);
    case CloseWaiting =>
      if s.inflight > 0 {
        var u := SomeSender(s);
        step := HeartbeatDone(u);
      } else {
        step := CloseWaited(t);
      }
    case CloseQuiet => step := CloseSent(t);
    case CloseFinishing => step := CloseFinish(t);
  }

  /** No close() gets stuck: from every state it can finish, without any new operation, and leaves no stream. */
  lemma {:induction false} CloseCanFinish(s: State, t: Tid) returns (steps: seq<Step>, s': State)
    requires Inv(s) && s.closer == Some(t)
    ensures Reaches(s, steps, s') && s'.closer.None? && s'.stream.None?
    decreases Rank(if t in s.threads then s.threads[t].pc else Idle), s.inflight
  {
    hide Inv, Enabled, Apply, Rank;
    var step := CloseProgress(s, t);
    var next := Apply(s, step);
    InvStep(s, step);
    if step.CloseFinish? {
      steps, s' := [step], next;
    } else {
      var more;
      more, s' := CloseCanFinish(next, t);
      steps := [step] + more;
    }
    assert steps[0] == step;
    assert Reaches(next, steps[1..], s');
  }

  /** An idle thread can connect whenever nothing stands in the way, and then all is set for its reader. */
  lemma ConnectCanComplete(s: State, t: Tid, reader: Tid) returns (steps: seq<Step>, s': State)
    requires Inv(s) && At(s, t, Idle) && s.connectLock.None? && s.closer.None? && !ReaderAlive(s)
    requires reader !in s.threads
    ensures Reaches(s, steps, s')
    ensures AliveReader(s', reader) && s'.rx == Some(reader) && s'.stream == Some(s.nextGen)
    ensures GenOf(s', reader) == s'.stream && s'.connectLock.None? && !s'.wantExit && !s'.closing
  {
    var a := Apply(s, ConnectEnter(t, Open));
    var b := Apply(a, Prepare(t));
    s' := Apply(b, StartReader(t, reader));
    steps := [ConnectEnter(t, Open), Prepare(t), StartReader(t, reader)];
    assert steps[1..] == [Prepare(t), StartReader(t, reader)] && steps[1..][1..] == [StartReader(t, reader)];
    assert Reaches(s', [], s');
    assert Reaches(b, [StartReader(t, reader)], s');
    assert Reaches(a, [Prepare(t), StartReader(t, reader)], s');
  }

  // A thread moves on, and the others stay where they are.
  lemma MovesOn(s: State, step: Step)
    requires Enabled(s, step) && !step.StartReader?
    ensures At(Apply(s, step), step.t, NextPC(s, step))
  {
    hide Enabled, NextPC, Shared;
  }

  /** What the thread of a first configuration does: mark, beat, publish, once. */
  lemma ConnectedCanPublish(s: State, t: Tid) returns (steps: seq<Step>, s': State)
    requires At(s, t, Idle) && !s.closing && !s.connected
    ensures Reaches(s, steps, s')
    ensures s'.connected && s'.established == s.established + 1 && s'.inflight == s.inflight && At(s', t, Idle)
  {
    hide Apply, Shared, Reaches;
    var mark, beat, done, publish := ConnectedMark(t), ConnectedBeat(t), HeartbeatDone(t), ConnectedPublish(t);
    var a := AfterStep(s, mark);
    var b := AfterStep(a, beat);
    var c := AfterStep(b, done);
    s' := AfterStep(c, publish);
    steps := [mark, beat, done, publish];
    ReachesFour(s, a, b, c, s', mark, beat, done, publish);
  }

  lemma AfterStep(s: State, step: Step) returns (s': State)
    requires Enabled(s, step) && !step.StartReader? && !step.ConnectEnter? && !step.CloseFlip? && !step.ReaderLost?
    ensures s' == Apply(s, step) && At(s', step.t, NextPC(s, step))
    ensures s'.closing ==> s.closing
    ensures s'.connected <==> (step.ConnectedMark? && !s.closing) || s.connected
    ensures s'.established == s.established + if step.ConnectedPublish? && !s.closing then 1 else 0
    ensures s'.inflight == s.inflight + (if (step.Heartbeat? || step.ConnectedBeat?) && !s.closing then 1 else 0)
            - (if step.HeartbeatDone? then 1 else 0)
  {
    hide Apply, Enabled, NextPC, Shared;
    s' := Apply(s, step);
    MovesOn(s, step);
    FlagsAfter(s, step);
    EstablishedAfter(s, step);
    SendsAfter(s, step);
  }

  lemma ReachesFour(s: State, a: State, b: State, c: State, d: State, w: Step, x: Step, y: Step, z: Step)
    requires Enabled(s, w) && a == Apply(s, w) && Enabled(a, x) && b == Apply(a, x)
    requires Enabled(b, y) && c == Apply(b, y) && Enabled(c, z) && d == Apply(c, z)
    ensures Reaches(s, [w, x, y, z], d)
  {
    hide Enabled, Apply;
    assert [w, x, y, z][1..] == [x, y, z] && [x, y, z][1..] == [y, z] && [y, z][1..] == [z] && [z][1..] == [];
    assert Reaches(d, [], d) && Reaches(c, [z], d) && Reaches(b, [y, z], d) && Reaches(a, [x, y, z], d);
  }

  /** A reader that loses its connection can leave, and takes its stream with it. */
  lemma ReaderCanLeave(s: State, t: Tid) returns (steps: seq<Step>, s': State)
    requires At(s, t, Idle) && s.threads[t].gen.Some? && s.connectLock.None?
    ensures Reaches(s, steps, s') && At(s', t, Dead) && s'.stream.None? && !s'.connected
  {
    var a := Apply(s, ReaderLost(t));
    s' := Apply(a, ReaderClose(t));
    steps := [ReaderLost(t), ReaderClose(t)];
    assert steps[1..] == [ReaderClose(t)] && steps[1..][1..] == [];
    assert Reaches(s', [], s') && Reaches(a, [ReaderClose(t)], s');
  }

  // ----- every connection is announced once, or found to be closing

  ghost predicate Announcing(pc: PC) {
    pc == Starting || pc == Sending(true) || pc == Publishing
  }

  lemma UpsAfter(s: State, step: Step)
    requires Enabled(s, step)
    ensures Apply(s, step).ups == s.ups + if step.ConnectedMark? && !s.closing && !s.connected then 1 else 0
  {
    hide Threads, Enabled, Admitted;
  }

  lemma AnnouncingStep(s: State, step: Step)
    requires Enabled(s, step)
    ensures var was := step.t in s.threads && Announcing(s.threads[step.t].pc);
            var next := Announcing(NextPC(s, step));
            && (next && !was <==> step.ConnectedMark? && !s.closing && !s.connected)
            && (was && !next <==> step.ConnectedPublish?)
  {
  }

  lemma AnnouncersAfter(s: State, step: Step)
    requires Enabled(s, step)
    ensures |Class(Apply(s, step), Announcing)|
         == |Class(s, Announcing)| + (if step.ConnectedMark? && !s.closing && !s.connected then 1 else 0)
            - (if step.ConnectedPublish? then 1 else 0)
  {
    hide Apply, NextPC, Enabled, Class, Announcing;
    assert !Announcing(Idle) by { IdleAnnouncesNothing(); }
    ClassStep(s, step, Announcing);
    AnnouncingStep(s, step);
    OneMore(Class(s, Announcing), step.t, Announcing(NextPC(s, step)));
  }

  lemma IdleAnnouncesNothing()
    ensures !Announcing(Idle)
  {
  }

  lemma OneMore(was: set<Tid>, t: Tid, now: bool)
    ensures |was - {t} + if now then {t} else {}|
         == |was| + (if now && t !in was then 1 else 0) - (if !now && t in was then 1 else 0)
  {
    if t in was {
      assert was - {t} + {t} == was;
    } else {
      assert was - {t} == was;
    }
  }

  /** Publications decided on, published or not. */
  ghost function Decisions(steps: seq<Step>, n: nat): nat
    requires n <= |steps|
  {
    if n == 0 then 0 else Decisions(steps, n - 1) + if steps[n - 1].ConnectedPublish? then 1 else 0
  }

  /** Every up-transition is decided on once, or its thread is still on the way to deciding. */
  lemma {:induction false} UpsAccounted(states: seq<State>, steps: seq<Step>, j: nat)
    requires Run(states, steps) && j < |states|
    ensures states[j].ups == Decisions(steps, j) + |Class(states[j], Announcing)|
    decreases j
  {
    hide Apply, Enabled, Class, Announcing;
    if j == 0 {
      NobodyAnnounces(states[0]);
    } else {
      UpsAccounted(states, steps, j - 1);
      assert Follows(states, steps, j - 1);
      UpsAfter(states[j - 1], steps[j - 1]);
      AnnouncersAfter(states[j - 1], steps[j - 1]);
    }
  }

  lemma NobodyAnnounces(s: State)
    requires Fresh(s)
    ensures Class(s, Announcing) == {} && s.ups == 0
  {
  }
}
