/**
 Bounded retries: the retry window, the serial connect loop that plans its delays by
 it, and the interruptible sleep.  Times are real numbers from one monotonic clock.
 */
module ConnectRetry {
  import opened Text

  // ----- the retry window

  datatype Decision = Retry(delay: real) | Exhausted

  function Max(a: real, b: real): real {
    if a < b then b else a
  }

  function Min(a: real, b: real): real {
    if a < b then a else b
  }

  datatype Window = Window(deadline: Option<real>, maxAttempts: nat) {
    static function Start(now: real, duration: Option<real>, maxAttempts: nat): Window {
      Window(match duration case None => None case Some(d) => Some(now + Max(0.0, d)), maxAttempts)
    }

    function AfterFailure(attempt: nat, retryDelay: real, now: real): Decision {
      var spent := deadline.Some? && deadline.value - now <= 0.0;
      if attempt >= maxAttempts || spent then Exhausted
      else
        var delay := Max(0.0, retryDelay);
        Retry(if deadline.Some? then Min(delay, deadline.value - now) else delay)
    }

    // A planned retry never reaches past the deadline.
    lemma PlanWithinDeadline(attempt: nat, retryDelay: real, now: real)
      requires AfterFailure(attempt, retryDelay, now).Retry?
      ensures attempt < maxAttempts && AfterFailure(attempt, retryDelay, now).delay >= 0.0
      ensures deadline.Some? ==> now + AfterFailure(attempt, retryDelay, now).delay <= deadline.value
    {
    }
  }

  // ----- the clock

  class Clock {
    var time: real
    ghost var sleeps: seq<real>  // what was asked of each sleep

    constructor ()
      ensures time == 0.0 && sleeps == []
    {
      time, sleeps := 0.0, [];
    }

    // Time only moves forward, by any amount.
    method Now() returns (t: real)
      modifies this`time
      ensures t == time >= old(time)
    {
      var passed: real := *;
      if passed > 0.0 {
        time := time + passed;
      }
      return time;
    }

    // A sleep takes at least as long as it was asked to.
    method Sleep(delay: real)
      modifies this
      ensures time >= old(time) + Max(0.0, delay) && sleeps == old(sleeps) + [delay]
    {
      var late: real := *;
      sleeps := sleeps + [delay];
      time := time + Max(0.0, delay) + Max(0.0, late);
    }
  }

  // ----- the serial connect loop

  const MAX_ATTEMPTS: nat := 12
  const RETRY_DELAY: real := 1.5
  const STREAM_CLOSED_RETRY_DELAY: real := 0.25

  /** What one connect attempt can end in; it is ignored, and returns, while a close is in progress. */
  datatype Attempt = Connected | Ignored | Cancelled | Fatal | Transient(streamClosed: bool)

  datatype Outcome = Success | Raised

  function Sum(delays: seq<real>): real {
    if delays == [] then 0.0 else Sum(delays[..|delays| - 1]) + delays[|delays| - 1]
  }

  lemma SumNone()
    ensures Sum([]) == 0.0
  {
  }

  lemma SumSnoc(delays: seq<real>, delay: real)
    ensures Sum(delays + [delay]) == Sum(delays) + delay
  {
    assert (delays + [delay])[..|delays|] == delays;
  }

  /** The stream and the device path the loop holds, and a record of what it did. */
  class Connector {
    var hasStream: bool
    var hasPath: bool
    const autoDetected: bool
    ghost var results: seq<Attempt>  // one per attempt
    ghost var failedAt: seq<real>    // when each transient failure was judged
    ghost var delays: seq<real>      // the delays planned, one per retry
    ghost var deadline: real
    var cancelled: bool              // a wait between attempts was cancelled

    // Every retry followed a transient failure before the deadline and waits no longer than is left.
    ghost predicate Planned()
      reads this
    {
      && |delays| <= |failedAt| <= |results|
      && forall i :: 0 <= i < |delays| ==>
           && results[i].Transient? && failedAt[i] < deadline
           && delays[i] == Min(if results[i] == Transient(true) then 0.25 else 1.5, deadline - failedAt[i])
    }

    constructor (autoDetected: bool)
      ensures results == [] && failedAt == [] && delays == [] && !cancelled && this.autoDetected == autoDetected
    {
      hasStream, hasPath, this.autoDetected := true, true, autoDetected;
      results, failedAt, delays, deadline, cancelled := [], [], [], 0.0, false;
    }

    // A base-class connect(): it opens a stream if there is none, unless it is turned away, and ends somehow.
    method TryConnect(clock: Clock) returns (result: Attempt)
      modifies this`hasStream, this`hasPath, this`results, clock
      ensures clock.time >= old(clock.time) && clock.sleeps == old(clock.sleeps)
      ensures results == old(results) + [result]
      ensures result == Connected ==> hasStream
      ensures result == Ignored ==> hasStream == old(hasStream) && hasPath == old(hasPath)
    {
      var t := clock.Now();
      result := *;
      results := results + [result];
      if result != Ignored {
        hasStream, hasPath := result == Connected, true;
      }
    }

    // The wait before a retry; a cancelled one does not sleep.
    method Wait(clock: Clock, delay: real)
      modifies this`cancelled, clock
      ensures clock.time >= old(clock.time) + if cancelled then 0.0 else Max(0.0, delay)
      ensures clock.sleeps == old(clock.sleeps) + if cancelled then [] else [delay]
    {
      cancelled := *;
      if !cancelled {
        clock.Sleep(delay);
      }
    }

    // After a transient failure: judge the window, and before a retry drop the stream and a guessed path.
    method PlanRetry(clock: Clock, window: Window, attempt: nat, streamClosed: bool) returns (decision: Decision)
      requires Planned() && results != [] && results[|results| - 1] == Transient(streamClosed)
      requires |delays| == |failedAt| == |results| - 1 && attempt == |results|
      requires window == Window(Some(deadline), MAX_ATTEMPTS)
      modifies this`failedAt, this`delays, this`hasStream, this`hasPath, clock
      ensures Planned() && |failedAt| == |results| && clock.time >= old(clock.time) && clock.sleeps == old(clock.sleeps)
      ensures decision.Exhausted? ==>
                delays == old(delays) && (|results| >= MAX_ATTEMPTS || clock.time >= deadline)
      ensures decision.Retry? ==>
                && |results| < MAX_ATTEMPTS && delays == old(delays) + [decision.delay]
                && decision.delay >= 0.0 && clock.time + decision.delay <= deadline
                && !hasStream && (autoDetected ==> !hasPath)
    {
      var base := if streamClosed then STREAM_CLOSED_RETRY_DELAY else RETRY_DELAY;
      var now := clock.Now();
      failedAt := failedAt + [now];
      decision := window.AfterFailure(attempt, base, now);
      if decision.Retry? {
        window.PlanWithinDeadline(attempt, base, now);
        hasStream := false;
        if autoDetected {
          hasPath := false;
        }
        delays := delays + [decision.delay];
      }
    }

    // Plan the retry and wait for it; without attempts or time left, or cancelled, there is none.
    method RetryAfter(clock: Clock, window: Window, attempt: nat, streamClosed: bool) returns (again: bool)
      requires Planned() && results != [] && results[|results| - 1] == Transient(streamClosed) && !cancelled
      requires |delays| == |failedAt| == |results| - 1 && attempt == |results|
      requires window == Window(Some(deadline), MAX_ATTEMPTS)
      modifies this`failedAt, this`delays, this`hasStream, this`hasPath, this`cancelled, clock
      ensures Planned() && |failedAt| == |results| && clock.time >= old(clock.time)
      ensures again ==>
                && !cancelled && |results| < MAX_ATTEMPTS && |delays| == |results|
                && old(delays) == delays[..|delays| - 1]
                && delays[|delays| - 1] >= 0.0 && clock.time >= old(clock.time) + delays[|delays| - 1]
                && clock.sleeps == old(clock.sleeps) + [delays[|delays| - 1]]
                && Sum(delays) == Sum(old(delays)) + delays[|delays| - 1]
      ensures again ==> old(clock.time) + delays[|delays| - 1] <= deadline
      ensures !again ==> clock.sleeps == old(clock.sleeps)
      ensures !again ==>
                if cancelled then
                  && |delays| == |results| && old(delays) == delays[..|delays| - 1]
                  && Sum(delays) == Sum(old(delays)) + delays[|delays| - 1]
                  && old(clock.time) + delays[|delays| - 1] <= deadline
                  && !hasStream && (autoDetected ==> !hasPath)
                else delays == old(delays) && (|results| >= MAX_ATTEMPTS || clock.time >= deadline)
    {
      hide Sum, Min;
      ghost var before := delays;
      var decision := PlanRetry(clock, window, attempt, streamClosed);
      if decision.Exhausted? {
        return false;
      }
      SumSnoc(before, decision.delay);
      Wait(clock, decision.delay);
      assert delays == before + [decision.delay] && delays[..|delays| - 1] == before;
      return !cancelled;
    }

    /**
     At most 12 attempts, planned delays within the budget, and an exit only by success, or
     by raising: a failure not worth a retry, no attempt or time left, or a cancelled wait.
     */
    method Connect(clock: Clock, retryBudget: real) returns (outcome: Outcome)
      requires results == [] && failedAt == [] && delays == [] && !cancelled
      modifies this, clock
      ensures Planned() && deadline >= old(clock.time) + Max(0.0, retryBudget)
      ensures 1 <= |results| <= 12
      ensures clock.sleeps == old(clock.sleeps) + if cancelled && delays != [] then delays[..|delays| - 1] else delays
      ensures forall i :: 0 <= i < |results| - 1 ==> results[i].Transient?
      ensures Sum(delays) <= Max(0.0, retryBudget)
      ensures outcome == Success ==> |delays| == |results| - 1 && !cancelled
      ensures outcome == Success ==>
                results[|results| - 1] == Ignored || (results[|results| - 1] == Connected && hasStream)
      ensures outcome == Raised ==>
                match results[|results| - 1]
                case Connected => false
                case Ignored => false
                case Cancelled => |delays| == |results| - 1
                case Fatal => |delays| == |results| - 1
                case Transient(_) =>
                  if cancelled then |delays| == |results| && !hasStream && (autoDetected ==> !hasPath)
                  else |delays| == |results| - 1 && (|results| == 12 || clock.time >= deadline)
    {
      hide Sum, Min;
      assert Sum(delays) == 0.0 by { SumNone(); }
      var start := clock.Now();
      var window := Window.Start(start, Some(retryBudget), MAX_ATTEMPTS);
      deadline := window.deadline.value;
      for attempt := 1 to MAX_ATTEMPTS + 1
        invariant |results| == |failedAt| == |delays| == attempt - 1 && !cancelled
        invariant clock.sleeps == old(clock.sleeps) + delays && clock.time >= start
        invariant forall i :: 0 <= i < |results| ==> results[i].Transient?
        invariant attempt > 1 ==> attempt <= MAX_ATTEMPTS
        invariant deadline == window.deadline.value == start + Max(0.0, retryBudget)
        invariant Planned() && start + Sum(delays) <= clock.time && Sum(delays) <= Max(0.0, retryBudget)
      {
        var result := TryConnect(clock);
        match result {
          case Connected => return Success;
          case Ignored => return Success;
          case Cancelled => return Raised;
          case Fatal => return Raised;
          case Transient(streamClosed) =>
            var again := RetryAfter(clock, window, attempt, streamClosed);
            if !again {
              return Raised;
            }
        }
      }
      assert false;
    }
  }

  // ----- the interruptible sleep

  datatype Slept = Elapsed | Aborted | BadSlice

  /**
   `aborts` holds what the abort predicate answers each time it is asked.  It is asked before
   every sleep and once more at the end, the first true answer stops the sleep, and no sleep
   is longer than a slice.
   */
  method SleepInterruptibly(clock: Clock, delay: real, slice: real, aborts: seq<bool>) returns (r: Slept, asked: nat)
    modifies clock
    ensures r == BadSlice <==> slice <= 0.0
    ensures r == BadSlice ==> asked == 0 && clock.sleeps == old(clock.sleeps)
    ensures r != BadSlice ==> asked > 0 && |clock.sleeps| == |old(clock.sleeps)| + asked - 1
    ensures old(clock.sleeps) <= clock.sleeps
    ensures forall i :: |old(clock.sleeps)| <= i < |clock.sleeps| ==> 0.0 < clock.sleeps[i] <= slice
    ensures forall i :: 0 <= i < asked - 1 && i < |aborts| ==> !aborts[i]
    ensures r == Aborted <==> 0 < asked <= |aborts| && aborts[asked - 1]
    ensures r == Elapsed ==> clock.time >= old(clock.time) + Max(0.0, delay)
  {
    asked := 0;
    if slice <= 0.0 {
      return BadSlice, asked;
    }
    var first := clock.Now();
    var deadline := first + Max(0.0, delay);
    while true
      invariant clock.time >= first && asked >= 0 && |clock.sleeps| == |old(clock.sleeps)| + asked
      invariant old(clock.sleeps) <= clock.sleeps
      invariant forall i :: |old(clock.sleeps)| <= i < |clock.sleeps| ==> 0.0 < clock.sleeps[i] <= slice
      invariant forall i :: 0 <= i < asked && i < |aborts| ==> !aborts[i]
      decreases Steps(deadline - clock.time, slice)
    {
      ghost var before := clock.time;
      asked := asked + 1;
      if asked <= |aborts| && aborts[asked - 1] {
        return Aborted, asked;
      }
      var now := clock.Now();
      var remaining := deadline - now;
      if remaining <= 0.0 {
        return Elapsed, asked;
      }
      clock.Sleep(Min(slice, remaining));
      StepsShrink(deadline - before, deadline - clock.time, slice);
    }
  }

  // How many slices fit into the time left.
  ghost function Steps(left: real, slice: real): nat
    requires slice > 0.0
  {
    if left <= 0.0 then 0 else (left / slice).Floor + 1
  }

  lemma StepsShrink(before: real, after: real, slice: real)
    requires slice > 0.0 && before > 0.0
    requires after <= before - slice || after <= 0.0
    ensures Steps(after, slice) < Steps(before, slice)
  {
    var q, r := before / slice, after / slice;
    assert q * slice == before && r * slice == after;
    assert q > 0.0;
    if after > 0.0 {
      assert (q - 1.0) * slice == before - slice;
      QuotientOrder(r, q - 1.0, slice);
    }
  }

  lemma QuotientOrder(x: real, y: real, slice: real)
    requires slice > 0.0 && x * slice <= y * slice
    ensures x <= y
  {
    assert (x - y) * slice == x * slice - y * slice;
    ProductSign(x - y, slice);
  }

  lemma ProductSign(d: real, slice: real)
    requires slice > 0.0
    ensures d > 0.0 ==> d * slice > 0.0
  {
  }
}
