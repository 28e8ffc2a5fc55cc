/**
 The resettable deadline of a win32File (deadlineHandler in file.go), as a transition system of
 `set` calls, timer callbacks and operations that capture the current channel.

 Calls of `set` exclude each other by setLock, so at most one of them is past its first line;
 the callbacks take no lock and race with it.
 */
module Deadline {
  import opened Wrappers

  /** Where the `set` call that holds setLock is. */
  datatype Setter =
    | Free          // nobody holds setLock
    | Locked        // about to look at the old timer
    | Draining      // Stop returned false: receives from the channel
    | Clearing      // about to forget the old timer
    | Resetting     // about to clear timedout
    | Renewing      // about to replace the channel if it is closed
    | Arming        // about to start a timer, or none, or to time out at once
    | Marking       // past deadline: about to set timedout
    | Closing       // past deadline: about to close the channel

  /** A timer and its callback. */
  datatype Timer =
    | Armed
    | Stopped
    | Firing        // callback started, timedout not yet set
    | Marked        // timedout set, channel not yet closed
    | Spent         // callback done

  /** Channels are numbered; `closings` counts how often each has been closed. */
  datatype State = State(
    setter: Setter, timers: seq<Timer>, timer: Option<nat>, timedout: bool,
    channel: nat, closings: map<nat, nat>, captured: set<nat>)

  datatype Step =
    | Lock | Stop | NoTimer | Drain | Clear | Reset | Renew
    | ArmNever | ArmFuture | ArmPast | MarkNow | CloseNow
    | Fire(i: nat) | CallbackMark(i: nat) | CallbackClose(i: nat)
    | Capture

  function Closings(closings: map<nat, nat>, c: nat): nat {
    if c in closings then closings[c] else 0
  }

  predicate IsClosed(s: State, c: nat) {
    Closings(s.closings, c) > 0
  }

  /** close(d.channel): whatever channel is current at that moment. */
  function CloseCurrent(s: State): State {
    s.(closings := s.closings[s.channel := Closings(s.closings, s.channel) + 1])
  }

  ghost predicate Enabled(s: State, st: Step) {
    match st
    case Lock => s.setter == Free
    case Stop => s.setter == Locked && s.timer.Some? && s.timer.value < |s.timers|
    case NoTimer => s.setter == Locked && s.timer.None?
    case Drain => s.setter == Draining && IsClosed(s, s.channel)
    case Clear => s.setter == Clearing
    case Reset => s.setter == Resetting
    case Renew => s.setter == Renewing
    case ArmNever => s.setter == Arming
    case ArmFuture => s.setter == Arming
    case ArmPast => s.setter == Arming
    case MarkNow => s.setter == Marking
    case CloseNow => s.setter == Closing
    case Fire(i) => i < |s.timers| && s.timers[i] == Armed
    case CallbackMark(i) => i < |s.timers| && s.timers[i] == Firing
    case CallbackClose(i) => i < |s.timers| && s.timers[i] == Marked
    case Capture => true
  }

  function Do(s: State, st: Step): State {
    match st
    case Lock => s.(setter := Locked)
    case Stop =>
      if !(s.timer.Some? && s.timer.value < |s.timers|) then s
      else if s.timers[s.timer.value] == Armed then s.(setter := Clearing, timers := s.timers[s.timer.value := Stopped])
      else s.(setter := Draining)
    case NoTimer => s.(setter := Resetting)
    case Drain => s.(setter := Clearing)
    case Clear => s.(setter := Resetting, timer := None)
    case Reset => s.(setter := Renewing, timedout := false)
    case Renew => s.(setter := Arming, channel := if IsClosed(s, s.channel) then s.channel + 1 else s.channel)
    case ArmNever => s.(setter := Free)
    case ArmFuture => s.(setter := Free, timers := s.timers + [Armed], timer := Some(|s.timers|))
    case ArmPast => s.(setter := Marking)
    case MarkNow => s.(setter := Closing, timedout := true)
    case CloseNow => CloseCurrent(s).(setter := Free)
    case Fire(i) => if i < |s.timers| then s.(timers := s.timers[i := Firing]) else s
    case CallbackMark(i) => if i < |s.timers| then s.(timers := s.timers[i := Marked], timedout := true) else s
    case CallbackClose(i) => if i < |s.timers| then CloseCurrent(s).(timers := s.timers[i := Spent]) else s
    case Capture => s.(captured := s.captured + {s.channel})
  }

  ghost predicate Init(s: State) {
    s == State(Free, [], None, false, 0, map[], {})
  }

  ghost predicate Runs(s: State, run: seq<Step>, t: State)
    decreases |run|
  {
    if run == [] then s == t
    else Enabled(s, run[0]) && Runs(Do(s, run[0]), run[1..], t)
  }

  ghost predicate Reachable(t: State) {
    exists s, run :: Init(s) && Runs(s, run, t)
  }

  predicate Live(t: Timer) {
    t == Armed || t == Firing || t == Marked
  }

  // ---------------------------------------------------------------- the invariant

  /** How far the current timer has brought `timedout` and the channel. */
  ghost predicate TimerAgrees(t: Timer, timedout: bool, closed: bool) {
    match t
    case Armed => !timedout && !closed
    case Stopped => !timedout && !closed
    case Firing => !timedout && !closed
    case Marked => timedout && !closed
    case Spent => timedout && closed
  }

  ghost predicate SetterInv(s: State)
    requires s.timer.Some? ==> s.timer.value < |s.timers|
  {
    var closed := IsClosed(s, s.channel);
    match s.setter
    case Free => if s.timer.Some? then s.timers[s.timer.value] != Stopped else s.timedout == closed
    case Locked => if s.timer.Some? then s.timers[s.timer.value] != Stopped else s.timedout == closed
    case Draining => s.timer.Some? && s.timers[s.timer.value] != Stopped && s.timers[s.timer.value] != Armed
    case Clearing => s.timer.Some? && !Live(s.timers[s.timer.value])
    case Resetting => s.timer.None? && s.timedout == closed
    case Renewing => s.timer.None? && !s.timedout
    case Arming => s.timer.None? && !s.timedout && !closed
    case Marking => s.timer.None? && !s.timedout && !closed
    case Closing => s.timer.None? && s.timedout && !closed
  }

  ghost predicate Inv(s: State)
  {
    && (s.timer.Some? ==> s.timer.value < |s.timers|)
    && (forall i :: 0 <= i < |s.timers| && Live(s.timers[i]) ==> s.timer == Some(i))
    && (forall c: nat :: c < s.channel ==> Closings(s.closings, c) == 1)
    && Closings(s.closings, s.channel) <= 1
    && (forall c: nat :: c > s.channel ==> Closings(s.closings, c) == 0)
    && (forall c :: c in s.captured ==> c <= s.channel)
    && (s.timer.Some? ==> TimerAgrees(s.timers[s.timer.value], s.timedout, IsClosed(s, s.channel)))
    && SetterInv(s)
  }

  lemma InitInv(s: State)
    requires Init(s)
    ensures Inv(s)
  {
  }

  predicate TimerStep(st: Step) {
    st.Fire? || st.CallbackMark? || st.CallbackClose? || st.Capture?
  }

  /** One more closing of the current channel, none of any other. */
  lemma CloseCounts(s: State)
    ensures forall c: nat ::
              Closings(CloseCurrent(s).closings, c) == Closings(s.closings, c) + if c == s.channel then 1 else 0
  {
  }

  lemma {:induction false} TimerStepKeeps(s: State, st: Step)
    requires Inv(s) && Enabled(s, st) && TimerStep(st)
    ensures Inv(Do(s, st))
  {
    hide Closings;
    CloseCounts(s);
  }

  /** A `set` call up to the choice of its new deadline. */
  lemma {:induction false} EarlySetterKeeps(s: State, st: Step)
    requires Inv(s) && Enabled(s, st) && (st.Lock? || st.Stop? || st.NoTimer? || st.Drain? || st.Clear? || st.Reset?)
    ensures Inv(Do(s, st))
  {
    hide Closings;
  }

  lemma {:induction false} LateSetterKeeps(s: State, st: Step)
    requires Inv(s) && Enabled(s, st)
    requires st.Renew? || st.ArmNever? || st.ArmFuture? || st.ArmPast? || st.MarkNow? || st.CloseNow?
    ensures Inv(Do(s, st))
  {
    hide Closings;
    CloseCounts(s);
  }

  /** Every step keeps the invariant. */
  lemma {:induction false} StepKeeps(s: State, st: Step)
    requires Inv(s) && Enabled(s, st)
    ensures Inv(Do(s, st))
  {
    hide Inv, Enabled, Do;
    if TimerStep(st) {
      TimerStepKeeps(s, st);
    } else if st.Lock? || st.Stop? || st.NoTimer? || st.Drain? || st.Clear? || st.Reset? {
      EarlySetterKeeps(s, st);
    } else {
      LateSetterKeeps(s, st);
    }
  }

  lemma {:induction false} RunKeeps(s: State, run: seq<Step>, t: State)
    requires Inv(s) && Runs(s, run, t)
    ensures Inv(t)
    decreases |run|
  {
    hide Inv, Enabled, Do;
    if run != [] {
      StepKeeps(s, run[0]);
      RunKeeps(Do(s, run[0]), run[1..], t);
    }
  }

  lemma ReachableInv(t: State)
    requires Reachable(t)
    ensures Inv(t)
  {
    var s, run :| Init(s) && Runs(s, run, t);
    InitInv(s);
    RunKeeps(s, run, t);
  }

  // ---------------------------------------------------------------- what it promises

  /** No channel is ever closed twice: closing a closed channel would panic. */
  lemma NeverClosedTwice(t: State, c: nat)
    requires Reachable(t)
    ensures Closings(t.closings, c) <= 1
  {
    ReachableInv(t);
  }

  /** At most one timer can still fire. */
  lemma OneLiveTimer(t: State, i: nat, j: nat)
    requires Reachable(t) && i < |t.timers| && j < |t.timers| && Live(t.timers[i]) && Live(t.timers[j])
    ensures i == j && t.timer == Some(i)
  {
    ReachableInv(t);
  }

  /** An operation waits on a channel that has been closed, or on the one that will be. */
  lemma CapturedIsCurrentOrClosed(t: State, c: nat)
    requires Reachable(t) && c in t.captured
    ensures c == t.channel || IsClosed(t, c)
  {
    ReachableInv(t);
  }

  /** With setLock free and no callback half-way, `timedout` says whether the current channel is closed. */
  lemma TimedOutMeansClosed(t: State)
    requires Reachable(t) && t.setter == Free
    requires forall i :: 0 <= i < |t.timers| ==> t.timers[i] != Marked
    ensures t.timedout <==> IsClosed(t, t.channel)
  {
    ReachableInv(t);
  }

  /** A `set` call that waits for the old callback waits for one that is on its way, so setLock is always given back. */
  lemma SetNeverHangs(t: State)
    requires Reachable(t) && t.setter != Free
    ensures exists st ::
              && Enabled(t, st) && !st.Capture? && !st.Fire?
              && (t.setter == Draining && !IsClosed(t, t.channel) ==> st.CallbackMark? || st.CallbackClose?)
  {
    ReachableInv(t);
    var st :=
      match t.setter
      case Free => Lock
      case Locked => if t.timer.Some? then Stop else NoTimer
      case Draining =>
        if IsClosed(t, t.channel) then Drain
        else if t.timers[t.timer.value] == Firing then CallbackMark(t.timer.value) else CallbackClose(t.timer.value)
      case Clearing => Clear
      case Resetting => Reset
      case Renewing => Renew
      case Arming => ArmNever
      case Marking => MarkNow
      case Closing => CloseNow;
    assert Enabled(t, st);
  }

  // ---------------------------------------------------------------- deadlines take effect

  /** No other `set` call begins. */
  ghost predicate NoLock(run: seq<Step>) {
    forall i :: 0 <= i < |run| ==> run[i] != Lock
  }

  ghost predicate AllCapturedClosed(s: State) {
    forall c :: c in s.captured ==> IsClosed(s, c)
  }

  /** After a past deadline: on the way to time out, or timed out for as long as nobody sets another. */
  ghost predicate PastPhase(s: State) {
    && s.timer == None
    && (s.setter == Marking || s.setter == Closing || (s.setter == Free && s.timedout && IsClosed(s, s.channel)))
  }

  lemma {:induction false} PastStep(s: State, st: Step)
    requires Inv(s) && PastPhase(s) && Enabled(s, st) && st != Lock
    ensures PastPhase(Do(s, st))
  {
    hide Closings;
    CloseCounts(s);
  }

  lemma {:induction false} PastRun(s: State, run: seq<Step>, t: State)
    requires Inv(s) && PastPhase(s) && Runs(s, run, t) && NoLock(run)
    ensures Inv(t) && PastPhase(t)
    decreases |run|
  {
    hide Inv, Enabled, Do, PastPhase;
    if run != [] {
      PastStep(s, run[0]);
      StepKeeps(s, run[0]);
      PastRun(Do(s, run[0]), run[1..], t);
    }
  }

  /** In a state with the current channel closed every captured channel is. */
  lemma CapturedClosed(s: State)
    requires Inv(s) && IsClosed(s, s.channel)
    ensures AllCapturedClosed(s)
  {
  }

  /**
   A deadline in the past takes effect before `set` returns: operations time out, and every one that
   waits is woken, until another `set` call.
   */
  lemma {:induction false} PastDeadlineTimesOut(s: State, run: seq<Step>, t: State)
    requires Reachable(s) && Enabled(s, ArmPast) && Runs(Do(s, ArmPast), run, t) && NoLock(run) && t.setter == Free
    ensures t.timedout && IsClosed(t, t.channel) && AllCapturedClosed(t)
  {
    ReachableInv(s);
    StepKeeps(s, ArmPast);
    PastRun(Do(s, ArmPast), run, t);
    CapturedClosed(t);
  }

  /** After `set` with a time to come: its timer is the current one, and `timedout` and channel are as it left them. */
  ghost predicate FuturePhase(s: State, i: nat) {
    s.setter == Free && s.timer == Some(i) && i < |s.timers| && s.timers[i] != Stopped
  }

  lemma {:induction false} FutureRun(s: State, run: seq<Step>, t: State, i: nat)
    requires Inv(s) && FuturePhase(s, i) && Runs(s, run, t) && NoLock(run)
    ensures Inv(t) && FuturePhase(t, i)
    decreases |run|
  {
    hide Inv, Enabled, Do;
    if run != [] {
      StepKeeps(s, run[0]);
      FutureStep(s, run[0], i);
      FutureRun(Do(s, run[0]), run[1..], t, i);
    }
  }

  lemma {:induction false} FutureStep(s: State, st: Step, i: nat)
    requires Inv(s) && FuturePhase(s, i) && Enabled(s, st) && st != Lock
    ensures FuturePhase(Do(s, st), i)
  {
    hide Closings;
  }

  /**
   A deadline in the future takes effect exactly when its timer does: before, nothing times out and
   the current channel is open; afterwards operations time out and every one that waits is woken.
   */
  lemma {:induction false} FutureDeadlineTimesOut(s: State, run: seq<Step>, t: State)
    requires Reachable(s) && Enabled(s, ArmFuture) && Runs(Do(s, ArmFuture), run, t) && NoLock(run)
    ensures |t.timers| > |s.timers| && t.timer == Some(|s.timers|) && t.timers[|s.timers|] != Stopped
    ensures t.timers[|s.timers|] == Spent ==> t.timedout && IsClosed(t, t.channel) && AllCapturedClosed(t)
    ensures t.timers[|s.timers|] == Armed || t.timers[|s.timers|] == Firing ==> !t.timedout && !IsClosed(t, t.channel)
  {
    ReachableInv(s);
    StepKeeps(s, ArmFuture);
    FutureRun(Do(s, ArmFuture), run, t, |s.timers|);
    if IsClosed(t, t.channel) {
      CapturedClosed(t);
    }
  }

  /** The timer that was armed fires: its callback is enabled, step by step, until it is done. */
  lemma {:induction false} ArmedTimerFires(s: State, i: nat)
    requires Inv(s) && FuturePhase(s, i)
    ensures s.timers[i] == Armed ==> Enabled(s, Fire(i)) && Do(s, Fire(i)).timers[i] == Firing
    ensures s.timers[i] == Firing ==> Enabled(s, CallbackMark(i)) && Do(s, CallbackMark(i)).timers[i] == Marked
    ensures s.timers[i] == Marked ==> Enabled(s, CallbackClose(i)) && Do(s, CallbackClose(i)).timers[i] == Spent
  {
  }

  ghost predicate NeverPhase(s: State) {
    s.setter == Free && s.timer == None && !s.timedout && !IsClosed(s, s.channel)
  }

  lemma {:induction false} NeverRun(s: State, run: seq<Step>, t: State)
    requires Inv(s) && NeverPhase(s) && Runs(s, run, t) && NoLock(run)
    ensures NeverPhase(t)
    decreases |run|
  {
    hide Inv, Enabled, Do, NeverPhase;
    if run != [] {
      StepKeeps(s, run[0]);
      NeverStep(s, run[0]);
      NeverRun(Do(s, run[0]), run[1..], t);
    }
  }

  lemma {:induction false} NeverStep(s: State, st: Step)
    requires Inv(s) && NeverPhase(s) && Enabled(s, st) && st != Lock
    ensures NeverPhase(Do(s, st))
  {
  }

  /** Without a deadline nothing times out, whatever was set before, until another `set` call. */
  lemma {:induction false} NoDeadlineNoTimeout(s: State, run: seq<Step>, t: State)
    requires Reachable(s) && Enabled(s, ArmNever) && Runs(Do(s, ArmNever), run, t) && NoLock(run)
    ensures !t.timedout && !IsClosed(t, t.channel)
  {
    ReachableInv(s);
    StepKeeps(s, ArmNever);
    NeverRun(Do(s, ArmNever), run, t);
  }

  /** An operation that captured the channel waits on it for good. */
  lemma {:induction false} CapturedStays(s: State, run: seq<Step>, t: State, c: nat)
    requires Runs(s, run, t) && c in s.captured
    ensures c in t.captured
    decreases |run|
  {
    if run != [] {
      CapturedStays(Do(s, run[0]), run[1..], t, c);
    }
  }

  /** Whoever captured the channel before or after a past deadline finds it closed when `set` has returned. */
  lemma {:induction false} PastDeadlineWakes(s: State, before: seq<Step>, u: State, run: seq<Step>, t: State)
    requires Reachable(s) && Runs(Do(s, Capture), before, u) && Enabled(u, ArmPast)
    requires Runs(Do(u, ArmPast), run, t) && NoLock(run) && t.setter == Free
    ensures IsClosed(t, s.channel)
  {
    hide Inv, Runs;
    ReachableInv(s);
    StepKeeps(s, Capture);
    RunKeeps(Do(s, Capture), before, u);
    CapturedStays(Do(s, Capture), before, u, s.channel);
    CapturedStays(Do(u, ArmPast), run, t, s.channel);
    StepKeeps(u, ArmPast);
    PastBegins(u);
    PastRun(Do(u, ArmPast), run, t);
    CapturedClosed(t);
  }

  lemma PastBegins(u: State)
    requires Inv(u) && Enabled(u, ArmPast)
    ensures PastPhase(Do(u, ArmPast))
  {
  }
}
