/**
 Whole executions of the link: what holds in every reachable state, and the
 guarantee close() gives about heartbeats.
 */
module LinkRuns {
  import opened LinkLifecycle
  import opened Text

  // ----- whole runs

  /** `states` and `steps` of an execution, from a fresh interface on. */
  ghost predicate Run(states: seq<State>, steps: seq<Step>) {
    && |states| == |steps| + 1
    && Fresh(states[0])
    && forall i :: 0 <= i < |steps| ==> Follows(states, steps, i)
  }

  ghost predicate Follows(states: seq<State>, steps: seq<Step>, i: nat)
    requires |states| == |steps| + 1 && i < |steps|
  {
    Enabled(states[i], steps[i]) && states[i + 1] == Apply(states[i], steps[i])
  }

  lemma {:induction false} RunInv(states: seq<State>, steps: seq<Step>, i: nat)
    requires Run(states, steps) && i < |states|
    ensures Inv(states[i])
  {
    hide Inv, Apply, Enabled;
    if i == 0 {
      InitialInv(states[0]);
    } else {
      RunInv(states, steps, i - 1);
      assert Follows(states, steps, i - 1);
      InvStep(states[i - 1], steps[i - 1]);
    }
  }

  // ----- what holds in every reachable state

  /** Lost events balance the connections: one for each that went up, but the current one. */
  lemma LostBalance(states: seq<State>, steps: seq<Step>, i: nat)
    requires Run(states, steps) && i < |states|
    ensures states[i].ups == states[i].losts + (if states[i].connected then 1 else 0)
  {
    RunInv(states, steps, i);
  }

  /** No two live reader threads, ever. */
  lemma OneReader(states: seq<State>, steps: seq<Step>, i: nat, t: Tid, u: Tid)
    requires Run(states, steps) && i < |states|
    requires AliveReader(states[i], t) && AliveReader(states[i], u)
    ensures t == u
  {
    RunInv(states, steps, i);
  }

  /** What a reader closes on its way out is the stream it was started for, or nothing. */
  lemma ReaderClosesOwnStream(states: seq<State>, steps: seq<Step>, i: nat)
    requires Run(states, steps) && i < |steps| && steps[i].ReaderClose?
    requires states[i].stream.Some?
    ensures GenOf(states[i], steps[i].t) == states[i].stream
  {
    RunInv(states, steps, i);
    assert Follows(states, steps, i);
    assert AliveReader(states[i], steps[i].t);
  }

  /** While close() is in progress the exit flag stays up and no stream is opened. */
  lemma CloseHolds(states: seq<State>, steps: seq<Step>, i: nat)
    requires Run(states, steps) && i < |steps| && states[i].closer.Some?
    ensures states[i].wantExit
    ensures states[i + 1].wantExit
    ensures states[i + 1].stream == states[i].stream || states[i + 1].stream.None?
    ensures !steps[i].Prepare? && !steps[i].StartReader?
  {
    RunInv(states, steps, i);
    assert Follows(states, steps, i);
    var s, step := states[i], steps[i];
    assert step.Prepare? || step.StartReader? ==> step.t in Class(s, Connector);
  }

  // ----- heartbeat quiescence

  ghost predicate Quiet(s: State) {
    s.closing && s.inflight == 0 && Class(s, InFlight) == {}
  }

  lemma QuietStep(s: State, step: Step)
    requires Quiet(s) && Enabled(s, step) && !step.Prepare?
    ensures Quiet(Apply(s, step))
  {
    ClassStep(s, step, InFlight);
    hide Class;
  }

  lemma WaitedIsQuiet(s: State, step: Step)
    requires Inv(s) && Enabled(s, step) && step.CloseWaited?
    ensures Quiet(Apply(s, step)) && Apply(s, step).closer == Some(step.t)
  {
    assert step.t in Class(s, Stopping) && step.t in Class(s, Closer);
    ClassStep(s, step, InFlight);
  }

  /**
   Once a close() has passed its wait, no heartbeat is in flight and none can start,
   whatever the other threads do, until some connect() resets the closing flag.
   */
  lemma {:induction false} HeartbeatQuiescence(states: seq<State>, steps: seq<Step>, i: nat, j: nat)
    requires Run(states, steps) && i < |steps| && steps[i].CloseWaited?
    requires i < j < |states| && forall k :: i < k < j ==> !steps[k].Prepare?
    ensures Quiet(states[j])
    decreases j
  {
    hide Quiet, Apply, Enabled, Inv;
    assert Follows(states, steps, j - 1);
    if j == i + 1 {
      RunInv(states, steps, i);
      WaitedIsQuiet(states[i], steps[i]);
    } else {
      HeartbeatQuiescence(states, steps, i, j - 1);
      QuietStep(states[j - 1], steps[j - 1]);
    }
  }

  lemma CloserStep(s: State, step: Step, t: Tid)
    requires CloseExclusive(s) && Enabled(s, step)
    requires s.closer == Some(t) && step != CloseFinish(t)
    ensures Apply(s, step).closer == Some(t)
  {
    hide Threads, NextPC;
    assert step.CloseFinish? ==> step.t in Class(s, Closer);
  }

  lemma {:induction false} CloserStays(states: seq<State>, steps: seq<Step>, i: nat, k: nat, t: Tid)
    requires Run(states, steps) && i <= k < |states| && states[i].closer == Some(t)
    requires forall m :: i <= m < k ==> steps[m] != CloseFinish(t)
    ensures states[k].closer == Some(t)
    decreases k
  {
    hide Apply, Enabled, CloseExclusive;
    if i < k {
      CloserStays(states, steps, i, k - 1, t);
      RunInv(states, steps, k - 1);
      assert Follows(states, steps, k - 1);
      CloserStep(states[k - 1], steps[k - 1], t);
    }
  }

  lemma EnterStep(s: State, step: Step, u: Tid)
    requires Enabled(s, step) && At(Apply(s, step), u, Connecting)
    ensures At(s, u, Connecting) || (step.ConnectEnter? && step.t == u)
  {
    hide Shared;
  }

  lemma {:induction false} EnteredBetween(states: seq<State>, steps: seq<Step>, a: nat, k: nat, u: Tid) returns (n: nat)
    requires Run(states, steps) && a <= k < |states|
    requires !At(states[a], u, Connecting) && At(states[k], u, Connecting)
    ensures a <= n < k && steps[n].ConnectEnter? && steps[n].t == u
    decreases k
  {
    hide Apply, Enabled, At;
    assert Follows(states, steps, k - 1);
    EnterStep(states[k - 1], steps[k - 1], u);
    if At(states[k - 1], u, Connecting) {
      n := EnteredBetween(states, steps, a, k - 1, u);
    } else {
      n := k - 1;
    }
  }

  // Outside the lock nobody is inside connect().
  lemma NotConnecting(s: State, u: Tid)
    requires LockHeld(s) && s.connectLock.None?
    ensures !At(s, u, Connecting)
  {
    assert At(s, u, Connecting) ==> u in Class(s, Connector);
  }

  lemma PrepareNotClosing(s: State, step: Step)
    requires LockHeld(s) && CloseExclusive(s) && Enabled(s, step) && step.Prepare?
    ensures s.closer.None? && At(s, step.t, Connecting)
  {
    assert step.t in Class(s, Connector);
  }

  /**
   The connect() that ends the quiet entered after that close() had finished: nothing
   can reset the closing flag under a close in progress.
   */
  lemma QuietUntilLaterConnect(states: seq<State>, steps: seq<Step>, i: nat, k: nat) returns (m: nat, n: nat)
    requires Run(states, steps) && i < k < |steps|
    requires steps[i].CloseWaited? && steps[k].Prepare?
    ensures i < m < n < k && steps[m] == CloseFinish(steps[i].t)
    ensures steps[n].ConnectEnter? && steps[n].t == steps[k].t
  {
    hide Apply, Enabled, Inv, Quiet;
    var t, u := steps[i].t, steps[k].t;
    RunInv(states, steps, i);
    RunInv(states, steps, k);
    assert Follows(states, steps, i) && Follows(states, steps, k);
    WaitedIsQuiet(states[i], steps[i]);
    InvParts(states[k]);
    PrepareNotClosing(states[k], steps[k]);
    if forall x :: i + 1 <= x < k ==> steps[x] != CloseFinish(t) {
      CloserStays(states, steps, i + 1, k, t);
    }
    m :| i + 1 <= m < k && steps[m] == CloseFinish(t);
    RunInv(states, steps, m);
    assert Follows(states, steps, m);
    InvParts(states[m]);
    FinishUnlocked(states[m], steps[m]);
    NotConnecting(states[m], u);
    n := EnteredBetween(states, steps, m, k, u);
  }

  lemma InvParts(s: State)
    requires Inv(s)
    ensures LockHeld(s) && CloseExclusive(s)
  {
  }

  lemma FinishUnlocked(s: State, step: Step)
    requires Enabled(s, step) && step.CloseFinish?
    ensures s.connectLock.None?
  {
  }

  /** A close() returns in the quiet, unless since the last connect() some wait was cut short. */
  lemma CloseReturnsQuiet(states: seq<State>, steps: seq<Step>, i: nat)
    requires Run(states, steps) && i < |steps| && steps[i].CloseFinish?
    requires !states[i].interrupted
    ensures Quiet(states[i + 1])
  {
    RunInv(states, steps, i);
    assert Follows(states, steps, i);
    var s, t := states[i], steps[i].t;
    assert t in Class(s, Finishing) && t in Class(s, Closer);
    WaitingIsCloser(s);
    SendersCounted(s);
    QuietStep(s, steps[i]);
  }

  lemma WaitingIsCloser(s: State)
    ensures forall t :: t in Class(s, Waiting) ==> t in Class(s, Closer) && t !in Class(s, Finishing)
  {
  }

  lemma SendersCounted(s: State)
    requires InflightCounted(s) && s.inflight == 0
    ensures Class(s, InFlight) == {}
  {
  }

  // ----- what is not guaranteed

  predicate Leads(s: State, step: Step, s': State) {
    Enabled(s, step) && Apply(s, step) == s'
  }

  lemma {:induction false} ExtendRun(states: seq<State>, steps: seq<Step>, step: Step, s': State)
    requires Run(states, steps) && Leads(states[|steps|], step, s')
    ensures Run(states + [s'], steps + [step])
  {
    hide Enabled, Apply;
    var more, longer := states + [s'], steps + [step];
    forall i | 0 <= i < |longer| ensures Follows(more, longer, i) {
      assert i < |steps| ==> Follows(states, steps, i);
    }
  }

  const UP: State := INITIAL.(threads := map[0 := Thread(Idle, None), 1 := Thread(Idle, Some(0))],
                              stream := Some(0), nextGen := 1, rx := Some(1))

  // One client connects and a reader starts.
  lemma ConnectRun() returns (states: seq<State>, steps: seq<Step>)
    ensures Run(states, steps) && states[|steps|] == UP
  {
    var s1 := INITIAL.(threads := map[0 := Thread(Idle, None)]);
    var s2 := s1.(threads := map[0 := Thread(Connecting, None)], connectLock := Some(0), stream := Some(0),
        nextGen := 1);
    var s3 := s2.(threads := map[0 := Thread(Prepared, None)]);
    states, steps := [INITIAL], [];
    assert Leads(INITIAL, Spawn(0), s1);
    ExtendRun(states, steps, Spawn(0), s1);
    states, steps := states + [s1], steps + [Spawn(0)];
    assert Leads(s1, ConnectEnter(0, Open), s2);
    ExtendRun(states, steps, ConnectEnter(0, Open), s2);
    states, steps := states + [s2], steps + [ConnectEnter(0, Open)];
    assert Leads(s2, Prepare(0), s3);
    ExtendRun(states, steps, Prepare(0), s3);
    states, steps := states + [s3], steps + [Prepare(0)];
    assert Leads(s3, StartReader(0, 1), UP);
    ExtendRun(states, steps, StartReader(0, 1), UP);
    states, steps := states + [UP], steps + [StartReader(0, 1)];
  }

  const BEATING: State := UP.(threads := map[0 := Thread(Idle, None), 1 := Thread(Sending(false), Some(0)),
      2 := Thread(Idle, None)],
                              inflight := 1)

  const STOPPING: State := BEATING.(threads := map[0 := Thread(CloseWaiting, None),
      1 := Thread(Sending(false), Some(0)), 2 := Thread(Idle, None)],
                                    closer := Some(0), wantExit := true, closing := true)

  // The reader's heartbeat is in flight when the client closes.
  lemma BeatRun() returns (states: seq<State>, steps: seq<Step>)
    ensures Run(states, steps) && states[|steps|] == BEATING
  {
    states, steps := ConnectRun();
    var s1 := UP.(threads := map[0 := Thread(Idle, None), 1 := Thread(Idle, Some(0)), 2 := Thread(Idle, None)]);
    assert Leads(UP, Spawn(2), s1);
    ExtendRun(states, steps, Spawn(2), s1);
    states, steps := states + [s1], steps + [Spawn(2)];
    assert Leads(s1, Heartbeat(1), BEATING);
    ExtendRun(states, steps, Heartbeat(1), BEATING);
    states, steps := states + [BEATING], steps + [Heartbeat(1)];
  }

  lemma StopRun() returns (states: seq<State>, steps: seq<Step>)
    ensures Run(states, steps) && states[|steps|] == STOPPING
  {
    states, steps := BeatRun();
    var s1 := STOPPING.(threads := map[0 := Thread(CloseFlagged, None), 1 := Thread(Sending(false), Some(0)),
        2 := Thread(Idle, None)],
                        closing := false);
    assert Leads(BEATING, CloseEnter(0), s1);
    ExtendRun(states, steps, CloseEnter(0), s1);
    states, steps := states + [s1], steps + [CloseEnter(0)];
    assert Leads(s1, CloseFlip(0), STOPPING);
    ExtendRun(states, steps, CloseFlip(0), STOPPING);
    states, steps := states + [STOPPING], steps + [CloseFlip(0)];
  }

  // A second close() that finds one in progress returns at once, even while that one
  // still waits for a heartbeat to finish.
  lemma SecondCloseReturnsEarly() returns (states: seq<State>, steps: seq<Step>)
    ensures Run(states, steps) && |steps| > 0
    ensures var i := |steps| - 1;
            && steps[i] == CloseEnter(2) && states[i + 1] == states[i]
            && At(states[i + 1], 2, Idle) && states[i + 1].inflight == 1
  {
    states, steps := StopRun();
    assert Leads(STOPPING, CloseEnter(2), STOPPING);
    ExtendRun(states, steps, CloseEnter(2), STOPPING);
    states, steps := states + [STOPPING], steps + [CloseEnter(2)];
  }
}
