/**
 The lifecycle of a stream link: connect(), close(), the reader thread and the
 heartbeat callbacks, interleaved in any order.

 Every critical section is one atomic step.  connect() holds the connect lock over
 several of them, so heartbeat-lock sections of other threads may come in between.
 Any thread, the reader included, may start any operation when it is idle.
 */
module LinkLifecycle {
  import opened Text

  type Tid = nat

  /** Where a thread stands, between two atomic steps. */
  datatype PC =
    | Idle                    // outside; for the reader thread: in its read loop
    | Connecting              // connect(): lock taken, checks passed, stream ensured
    | Prepared                // connect(): heartbeat state reset, wake bytes being sent
    | CloseFlagged            // close(): shutdown intent recorded
    | CloseWaiting            // close(): closing flag flipped, waiting for in-flight sends
    | CloseQuiet              // close(): the wait is over
    | CloseFinishing          // close(): in the final section's queue
    | Starting                // _connected(): marked, first heartbeat not yet begun
    | Sending(first: bool)    // a heartbeat send in flight
    | Publishing              // _connected(): deciding whether to publish
    | Exiting                 // reader: disconnect recorded, stream not yet closed
    | Dead

  /** `gen` is the stream generation a reader thread was started for. */
  datatype Thread = Thread(pc: PC, gen: Option<nat>)

  datatype State = State(
    threads: map<Tid, Thread>,
    connectLock: Option<Tid>,
    closer: Option<Tid>,        // _stream_close_in_progress, and who set it
    wantExit: bool,             // _wantExit
    stream: Option<nat>,        // generation of the open stream
    nextGen: nat,
    rx: Option<Tid>,            // _rxThread, once started
    closing: bool,              // _closing
    inflight: nat,              // _heartbeat_inflight
    connected: bool,            // isConnected
    ups: nat,                   // disconnected -> connected transitions
    losts: nat,                 // connection.lost publications decided
    established: nat,           // connection.established publications decided
    interrupted: bool)          // since the last connect(), a close() left its wait by an exception

  datatype Opening = Keep | Open | Fail

  datatype Step =
    | Spawn(t: Tid)
    | ConnectEnter(t: Tid, how: Opening)
    | Prepare(t: Tid)
    | WakeFailed(t: Tid)
    | StartReader(t: Tid, reader: Tid)
    | DropStream(t: Tid)
    | CloseEnter(t: Tid)
    | CloseFlip(t: Tid)
    | CloseWaited(t: Tid)
    | CloseInterrupted(t: Tid)
    | CloseSent(t: Tid)
    | CloseFinish(t: Tid)
    | Heartbeat(t: Tid)
    | HeartbeatDone(t: Tid)
    | ConnectedMark(t: Tid)
    | ConnectedBeat(t: Tid)
    | ConnectedPublish(t: Tid)
    | ReaderLost(t: Tid)
    | ReaderClose(t: Tid)

  const INITIAL: State := State(map[], None, None, false, None, 0, None, false, 0, false, 0, 0, 0, false)

  /** A new interface: without a stream, or with the one its constructor opened. */
  predicate Fresh(s: State) {
    s == INITIAL || s == INITIAL.(stream := Some(0), nextGen := 1)
  }

  // ----- the steps

  predicate At(s: State, t: Tid, pc: PC) {
    t in s.threads && s.threads[t].pc == pc
  }

  predicate AliveReader(s: State, t: Tid) {
    t in s.threads && s.threads[t].gen.Some? && s.threads[t].pc != Dead
  }

  predicate ReaderAlive(s: State) {
    s.rx.Some? && AliveReader(s, s.rx.value)
  }

  predicate Enabled(s: State, step: Step) {
    match step
    case Spawn(t) => t !in s.threads
    case ConnectEnter(t, how) => At(s, t, Idle) && s.connectLock.None? && (how == Keep ==> s.stream.Some?)
    case Prepare(t) => At(s, t, Connecting)
    case WakeFailed(t) => At(s, t, Prepared)
    case StartReader(t, reader) => At(s, t, Prepared) && reader !in s.threads && s.stream.Some?
    case DropStream(t) => At(s, t, Idle) && s.connectLock.None?
    case CloseEnter(t) => At(s, t, Idle) && s.connectLock.None?
    case CloseFlip(t) => At(s, t, CloseFlagged)
    case CloseWaited(t) => At(s, t, CloseWaiting) && s.inflight == 0
    case CloseInterrupted(t) => At(s, t, CloseWaiting)
    case CloseSent(t) => At(s, t, CloseQuiet)
    case CloseFinish(t) => At(s, t, CloseFinishing) && s.connectLock.None?
    case Heartbeat(t) => At(s, t, Idle)
    case HeartbeatDone(t) => t in s.threads && s.threads[t].pc.Sending? && s.inflight > 0
    case ConnectedMark(t) => At(s, t, Idle)
    case ConnectedBeat(t) => At(s, t, Starting)
    case ConnectedPublish(t) => At(s, t, Publishing)
    case ReaderLost(t) => At(s, t, Idle) && s.threads[t].gen.Some?
    case ReaderClose(t) => At(s, t, Exiting) && s.connectLock.None?
  }

  // A connect() that is turned away, or whose stream cannot be opened, changes nothing.
  predicate Admitted(s: State, how: Opening) {
    s.closer.None? && !ReaderAlive(s) && how != Fail
  }

  /** Where the acting thread goes. */
  function NextPC(s: State, step: Step): PC
    requires Enabled(s, step)
  {
    match step
    case Spawn(t) => Idle
    case ConnectEnter(t, how) => if Admitted(s, how) then Connecting else Idle
    case Prepare(t) => Prepared
    case WakeFailed(t) => Idle
    case StartReader(t, reader) => Idle
    case DropStream(t) => Idle
    case CloseEnter(t) => if s.closer.Some? then Idle else CloseFlagged
    case CloseFlip(t) => if s.closing then CloseFinishing else CloseWaiting
    case CloseWaited(t) => CloseQuiet
    case CloseInterrupted(t) => CloseFinishing
    case CloseSent(t) => CloseFinishing
    case CloseFinish(t) => Idle
    case Heartbeat(t) => if s.closing then Idle else Sending(false)
    case HeartbeatDone(t) => if s.threads[t].pc.first then Publishing else Idle
    case ConnectedMark(t) => if s.closing || s.connected then Idle else Starting
    case ConnectedBeat(t) => if s.closing then Publishing else Sending(true)
    case ConnectedPublish(t) => Idle
    case ReaderLost(t) => Exiting
    case ReaderClose(t) => Dead
  }

  /** What the critical section does to the shared fields. */
  function Shared(s: State, step: Step): State
    requires Enabled(s, step)
  {
    match step
    case ConnectEnter(t, how) =>
      if !Admitted(s, how) then s
      else if how == Open then
        s.(connectLock := Some(t), wantExit := false, stream := Some(s.nextGen), nextGen := s.nextGen + 1)
      else s.(connectLock := Some(t), wantExit := false)
    case Prepare(t) => s.(closing := false, interrupted := false)
    case WakeFailed(t) => s.(connectLock := None)
    case StartReader(t, reader) => s.(rx := Some(reader), connectLock := None)
    case DropStream(t) => s.(stream := None)
    case CloseEnter(t) => if s.closer.Some? then s else s.(closer := Some(t), wantExit := true)
    case CloseFlip(t) => s.(closing := true)
    case CloseInterrupted(t) => s.(interrupted := true)
    case CloseFinish(t) => s.(stream := None, closer := None)
    case Heartbeat(t) => if s.closing then s else s.(inflight := s.inflight + 1)
    case HeartbeatDone(t) => s.(inflight := s.inflight - 1)
    case ConnectedMark(t) => if s.closing || s.connected then s else s.(connected := true, ups := s.ups + 1)
    case ConnectedBeat(t) => if s.closing then s else s.(inflight := s.inflight + 1)
    case ConnectedPublish(t) => if s.closing then s else s.(established := s.established + 1)
    case ReaderLost(t) => s.(connected := false, losts := if s.connected then s.losts + 1 else s.losts)
    case ReaderClose(t) => s.(stream := None)
    case _ => s
  }

  function GenOf(s: State, t: Tid): Option<nat> {
    if t in s.threads then s.threads[t].gen else None
  }

  function Threads(s: State, step: Step): map<Tid, Thread>
    requires Enabled(s, step)
  {
    var moved := s.threads[step.t := Thread(NextPC(s, step), GenOf(s, step.t))];
    if step.StartReader? then moved[step.reader := Thread(Idle, s.stream)] else moved
  }

  function Apply(s: State, step: Step): State
    requires Enabled(s, step)
  {
    Shared(s, step).(threads := Threads(s, step))
  }

  // ----- threads by what they are doing

  ghost function Class(s: State, p: PC -> bool): set<Tid> {
    set t | t in s.threads && p(s.threads[t].pc)
  }

  ghost predicate Connector(pc: PC) {
    pc == Connecting || pc == Prepared
  }

  ghost predicate Closer(pc: PC) {
    pc == CloseFlagged || pc == CloseWaiting || pc == CloseQuiet || pc == CloseFinishing
  }

  ghost predicate InFlight(pc: PC) {
    pc.Sending?
  }

  ghost predicate Waiting(pc: PC) {
    pc == CloseWaiting
  }

  ghost predicate Quieted(pc: PC) {
    pc == CloseQuiet
  }

  ghost predicate Finishing(pc: PC) {
    pc == CloseFinishing
  }

  ghost predicate Stopping(pc: PC) {
    pc == CloseWaiting || pc == CloseQuiet
  }

  function One<T>(x: Option<T>): set<T> {
    match x case None => {} case Some(v) => {v}
  }

  lemma ClassStep(s: State, step: Step, p: PC -> bool)
    requires Enabled(s, step) && !p(Idle)
    ensures Class(Apply(s, step), p) == Class(s, p) - {step.t} + if p(NextPC(s, step)) then {step.t} else {}
    ensures step.t in Class(s, p) <==> step.t in s.threads && p(s.threads[step.t].pc)
  {
    hide NextPC, Shared;
  }

  lemma IdleIsNothing()
    ensures !Connector(Idle) && !Closer(Idle) && !InFlight(Idle) && !Waiting(Idle) && !Quieted(Idle)
    ensures !Finishing(Idle) && !Stopping(Idle)
  {
  }

  // ----- the invariant, one conjunct a concern

  // The lock is held exactly by the thread inside connect().
  ghost predicate LockHeld(s: State) {
    Class(s, Connector) == One(s.connectLock)
  }

  // One close at a time, never together with a connect, and the exit flag stays up.
  ghost predicate CloseExclusive(s: State) {
    && Class(s, Closer) == One(s.closer)
    && (s.closer.Some? ==> s.connectLock.None? && s.wantExit)
  }

  // At most one reader is alive, and the stream is its own or gone.
  ghost predicate ReaderOwnsStream(s: State) {
    && (forall t: Tid :: AliveReader(s, t) ==> s.rx == Some(t))
    && (ReaderAlive(s) ==> s.stream.None? || s.stream == s.threads[s.rx.value].gen)
    && (s.connectLock.Some? ==> !ReaderAlive(s) && s.stream.Some?)
  }

  // Only reader threads go through the reader's exit.
  ghost predicate ExitsAreReaders(s: State) {
    forall t: Tid :: At(s, t, Exiting) ==> s.threads[t].gen.Some?
  }

  ghost predicate InflightCounted(s: State) {
    s.inflight == |Class(s, InFlight)|
  }

  ghost predicate WaitersClosing(s: State) {
    && (Class(s, Stopping) != {} ==> s.closing)
    && (Class(s, Quieted) != {} ==> s.inflight == 0)
  }

  // Unless a wait was cut short, sends outlive the closing flag only while close() waits for them.
  ghost predicate FinishersQuiet(s: State) {
    !s.interrupted ==>
      && (s.closing && s.inflight > 0 ==> Class(s, Waiting) != {})
      && (Class(s, Finishing) != {} ==> s.closing)
  }

  predicate LostCounted(s: State) {
    s.ups == s.losts + (if s.connected then 1 else 0)
  }

  ghost predicate Inv(s: State) {
    && LockHeld(s) && CloseExclusive(s) && ReaderOwnsStream(s) && ExitsAreReaders(s)
    && InflightCounted(s) && WaitersClosing(s) && FinishersQuiet(s) && LostCounted(s)
  }

  lemma InitialInv(s: State)
    requires Fresh(s)
    ensures Inv(s)
  {
  }

  ghost predicate Was(s: State, t: Tid, p: PC -> bool) {
    t in s.threads && p(s.threads[t].pc)
  }

  // The lock goes with the thread that enters or leaves connect().
  lemma LockTaken(s: State, step: Step)
    requires Enabled(s, step) && !Was(s, step.t, Connector)
    ensures var s', next := Apply(s, step), Connector(NextPC(s, step));
            if next then s.connectLock.None? && s'.connectLock == Some(step.t) else s'.connectLock == s.connectLock
  {
    hide Threads, ReaderAlive;
  }

  lemma LockReleased(s: State, step: Step)
    requires Enabled(s, step) && Was(s, step.t, Connector)
    ensures var s', next := Apply(s, step), Connector(NextPC(s, step));
            s'.connectLock == if next then s.connectLock else None
  {
    hide Threads, Admitted;
  }

  lemma LockHeldStep(s: State, step: Step)
    requires LockHeld(s) && Enabled(s, step)
    ensures LockHeld(Apply(s, step))
  {
    hide Class, Apply, Enabled, NextPC, Connector;
    IdleIsNothing();
    ClassStep(s, step, Connector);
    if Was(s, step.t, Connector) {
      LockReleased(s, step);
    } else {
      LockTaken(s, step);
    }
  }

  // So does the close in progress; while there is one, the exit flag is not lowered
  // and nobody enters connect().
  lemma CloseEffect(s: State, step: Step)
    requires Enabled(s, step)
    ensures var s', was, next := Apply(s, step), Was(s, step.t, Closer), Closer(NextPC(s, step));
            && (was && !next ==> s'.closer.None?)
            && (was == next ==> s'.closer == s.closer)
  {
    hide Threads;
  }

  lemma CloseEntry(s: State, step: Step)
    requires Enabled(s, step) && !Was(s, step.t, Closer) && Closer(NextPC(s, step))
    ensures s.closer.None? && s.connectLock.None?
    ensures Apply(s, step).closer == Some(step.t) && Apply(s, step).wantExit
  {
    hide Threads;
  }

  lemma CloseGuard(s: State, step: Step)
    requires Enabled(s, step)
    ensures var s' := Apply(s, step);
            && (s.closer.Some? && s.wantExit ==> s'.wantExit)
            && ((s.closer.Some? || s'.closer.Some?) && s.connectLock.None? ==> s'.connectLock.None?)
  {
    hide Threads;
  }

  lemma CloseExclusiveStep(s: State, step: Step)
    requires CloseExclusive(s) && Enabled(s, step)
    ensures CloseExclusive(Apply(s, step))
  {
    hide Class, Apply, Enabled, NextPC, Closer;
    IdleIsNothing();
    ClassStep(s, step, Closer);
    CloseEffect(s, step);
    CloseGuard(s, step);
    if !Was(s, step.t, Closer) && Closer(NextPC(s, step)) {
      CloseEntry(s, step);
    }
  }

  // Which reader threads are alive afterwards, and what they were started for.
  lemma ReaderStep(s: State, step: Step, t: Tid)
    requires Enabled(s, step)
    ensures AliveReader(Apply(s, step), t) <==>
              || (AliveReader(s, t) && !(step.ReaderClose? && t == step.t))
              || (step.StartReader? && t == step.reader && s.stream.Some?)
    ensures AliveReader(s, t) ==> Apply(s, step).threads[t].gen == s.threads[t].gen
    ensures step.StartReader? ==> Apply(s, step).threads[step.reader].gen == s.stream
  {
    hide Shared;
  }

  lemma StreamEffect(s: State, step: Step)
    requires Enabled(s, step)
    ensures var s' := Apply(s, step);
            && s'.rx == (if step.StartReader? then Some(step.reader) else s.rx)
            && (step.StartReader? ==>
                Was(s, step.t, Connector) && s.stream.Some? && s'.stream == s.stream && s'.connectLock.None?)
            && (s'.stream == s.stream || (s'.stream.None? && s'.connectLock.None?)
                || (!ReaderAlive(s) && s'.stream.Some?))
            && (s'.connectLock.Some? && s.connectLock.None? ==> !ReaderAlive(s) && s'.stream.Some?)
  {
    hide Threads, ReaderAlive;
  }

  lemma {:induction false} ReaderOwnsStreamStep(s: State, step: Step)
    requires LockHeld(s) && ReaderOwnsStream(s) && Enabled(s, step)
    ensures ReaderOwnsStream(Apply(s, step))
  {
    var s' := Apply(s, step);
    StreamEffect(s, step);
    assert Was(s, step.t, Connector) ==> step.t in Class(s, Connector);
    forall t: Tid
      ensures AliveReader(s', t) <==>
                || (AliveReader(s, t) && !(step.ReaderClose? && t == step.t))
                || (step.StartReader? && t == step.reader && s.stream.Some?)
      ensures AliveReader(s, t) ==> s'.threads[t].gen == s.threads[t].gen
      ensures step.StartReader? ==> s'.threads[step.reader].gen == s.stream
    {
      ReaderStep(s, step, t);
    }
    hide AliveReader, Class, Apply, Enabled, Connector;
  }

  lemma ExitsAreReadersStep(s: State, step: Step)
    requires ExitsAreReaders(s) && Enabled(s, step)
    ensures ExitsAreReaders(Apply(s, step))
  {
    hide Shared;
  }

  lemma MemberCount(before: set<Tid>, t: Tid, leaves: bool, enters: bool)
    requires leaves == (t in before)
    ensures |before - {t} + if enters then {t} else {}|
         == |before| - (if leaves then 1 else 0) + (if enters then 1 else 0)
  {
    if !leaves {
      assert before - {t} == before;
    }
  }

  lemma InflightEffect(s: State, step: Step)
    requires Enabled(s, step)
    ensures Apply(s, step).inflight
         == s.inflight - (if Was(s, step.t, InFlight) then 1 else 0) + (if InFlight(NextPC(s, step)) then 1 else 0)
    ensures Apply(s, step).inflight > s.inflight ==> !Apply(s, step).closing
  {
    hide Threads;
  }

  lemma InflightCountedStep(s: State, step: Step)
    requires InflightCounted(s) && Enabled(s, step)
    ensures InflightCounted(Apply(s, step))
  {
    ClassStep(s, step, InFlight);
    InflightEffect(s, step);
    MemberCount(Class(s, InFlight), step.t, Was(s, step.t, InFlight), InFlight(NextPC(s, step)));
    hide Class, Apply, Enabled, NextPC, InFlight;
  }

  lemma ClassWithin(s: State, p: PC -> bool, q: PC -> bool)
    requires forall pc :: p(pc) ==> q(pc)
    ensures Class(s, p) <= Class(s, q)
  {
  }

  // Only connect() lowers the closing flag; only a close() whose wait begins raises it.
  lemma ClosingEffect(s: State, step: Step)
    requires Enabled(s, step)
    ensures var s', next := Apply(s, step), NextPC(s, step);
            && (s.closing && !s'.closing ==> Was(s, step.t, Connector))
            && (!s.closing && s'.closing ==> Waiting(next))
  {
    hide Threads;
  }

  lemma StoppingEffect(s: State, step: Step)
    requires Enabled(s, step)
    ensures var s', next := Apply(s, step), NextPC(s, step);
            && (Stopping(next) && !Was(s, step.t, Stopping) ==> s'.closing)
            && (Quieted(next) ==> s'.inflight == 0)
  {
    hide Threads;
  }

  // A close() leaves its wait when nothing is in flight, or by an exception.
  lemma LeavingEffect(s: State, step: Step)
    requires Enabled(s, step)
    ensures var s', next := Apply(s, step), NextPC(s, step);
            && (s.interrupted && !s'.interrupted ==> Was(s, step.t, Connector) && !s'.closing)
            && (Was(s, step.t, Waiting) && !Waiting(next) ==> s'.interrupted || s'.inflight == 0)
            && (Finishing(next) ==> s'.interrupted || s.closing || Was(s, step.t, Quieted))
  {
    hide Threads;
  }

  // With a connect() inside the lock, no close() is anywhere.
  lemma NoneClosing(s: State, t: Tid)
    requires LockHeld(s) && CloseExclusive(s) && Was(s, t, Connector)
    ensures Class(s, Stopping) == {} && Class(s, Quieted) == {} && Class(s, Finishing) == {}
  {
    assert t in Class(s, Connector);
    ClassWithin(s, Stopping, Closer);
    ClassWithin(s, Quieted, Closer);
    ClassWithin(s, Finishing, Closer);
  }

  lemma {:induction false} WaitersClosingStep(s: State, step: Step)
    requires LockHeld(s) && CloseExclusive(s) && WaitersClosing(s) && Enabled(s, step)
    ensures WaitersClosing(Apply(s, step))
  {
    ClassStep(s, step, Stopping);
    ClassStep(s, step, Quieted);
    ClassWithin(s, Quieted, Stopping);
    ClosingEffect(s, step);
    StoppingEffect(s, step);
    InflightEffect(s, step);
    if Was(s, step.t, Connector) {
      NoneClosing(s, step.t);
    }
    hide Class, Apply, Enabled, NextPC, CloseExclusive, LockHeld;
  }

  lemma FinishersQuietStep(s: State, step: Step)
    requires LockHeld(s) && CloseExclusive(s) && WaitersClosing(s) && FinishersQuiet(s) && Enabled(s, step)
    ensures FinishersQuiet(Apply(s, step))
  {
    ClassStep(s, step, Waiting);
    ClassStep(s, step, Finishing);
    ClassWithin(s, Quieted, Stopping);
    ClosingEffect(s, step);
    LeavingEffect(s, step);
    InflightEffect(s, step);
    if Was(s, step.t, Connector) {
      NoneClosing(s, step.t);
    }
    assert Was(s, step.t, Quieted) ==> step.t in Class(s, Quieted);
    hide Class, Apply, Enabled, NextPC, CloseExclusive, LockHeld;
  }

  lemma LostCountedStep(s: State, step: Step)
    requires LostCounted(s) && Enabled(s, step)
    ensures LostCounted(Apply(s, step))
  {
    hide Threads;
  }

  lemma InvStep(s: State, step: Step)
    requires Inv(s) && Enabled(s, step)
    ensures Inv(Apply(s, step))
  {
    hide Apply, Enabled, LockHeld, CloseExclusive, ReaderOwnsStream, ExitsAreReaders;
    hide InflightCounted, WaitersClosing, FinishersQuiet, LostCounted;
    LockHeldStep(s, step);
    CloseExclusiveStep(s, step);
    ReaderOwnsStreamStep(s, step);
    ExitsAreReadersStep(s, step);
    InflightCountedStep(s, step);
    WaitersClosingStep(s, step);
    FinishersQuietStep(s, step);
    LostCountedStep(s, step);
  }
}
