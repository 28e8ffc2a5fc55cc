/**
 Asynchronous I/O and closing of a win32File (file.go), as a transition system.

 Any number of operations and of Close calls run concurrently with the completion processor and
 the kernel. One step is one lock section, atomic operation, system call or channel
 rendezvous of the source. Of the kernel only this is known: an operation that went pending
 completes exactly once, and no other operation posts a completion.
 */
module FileClose {
  import opened Wrappers

  /** What an operation returns; `Completed` is any outcome the kernel decided, end of file included. */
  datatype Result = Completed | FileClosed | Timeout | Aborted

  /** Where an operation is in Read or Write, prepareIO and asyncIO. */
  datatype Pc =
    | Idle                      // before prepareIO
    | Entered                   // counted in wg, system call not made
    | Submitted                 // the call returned ERROR_IO_PENDING, closing not yet looked at
    | SawClosing                // found closing set, about to cancel itself
    | Selecting                 // in the select
    | TimedOut                  // took the timeout branch, about to cancel itself
    | AwaitResult               // waits for the completion after the timeout
    | Received(aborted: bool)   // has a completion from the first branch, about to look at closing
    | Returning(res: Result)    // result decided, wg.Done still to come
    | Finished(res: Result)

  /** An operation as the kernel sees it. */
  datatype Kernel =
    | NotIssued
    | Pending(cancelled: bool)
    | Queued(aborted: bool)     // its completion is in the port
    | Dequeued(aborted: bool)   // the processor holds its completion
    | Delivered

  datatype Op = Op(pc: Pc, kernel: Kernel, received: nat)

  /** Where a closer is in closeHandle. */
  datatype Closer = Start | Won | Waiting | Ready | HandleClosed | Done | Lost

  datatype Handle = Open | Closed | Zero

  datatype State = State(
    ops: seq<Op>, closers: seq<Closer>, wg: int, closing: bool,
    handle: Handle, closes: nat, processor: Option<nat>)

  datatype Step =
    | Prepare(o: nat) | EarlyTimeout(o: nat) | IssueSync(o: nat) | IssuePending(o: nat)
    | CheckClosing(o: nat) | CancelOne(o: nat) | ChooseTimeout(o: nat) | CancelTimeout(o: nat)
    | Complete(o: nat, abort: bool) | Dequeue(o: nat) | Deliver(o: nat) | Conclude(o: nat) | WgDone(o: nat)
    | Swap(k: nat) | CancelAll(k: nat) | WaitDone(k: nat) | CloseHandle(k: nat) | ZeroHandle(k: nat)

  predicate OpStep(st: Step) {
    !(st.Swap? || st.CancelAll? || st.WaitDone? || st.CloseHandle? || st.ZeroHandle?)
  }

  /** Operation `st.o`, standing where it does, can take the step. */
  ghost predicate CanAdvance(op: Op, st: Step, processor: Option<nat>)
    requires OpStep(st)
  {
    match st
    case Prepare(_) => op.pc == Idle
    case EarlyTimeout(_) => op.pc == Entered
    case IssueSync(_) => op.pc == Entered
    case IssuePending(_) => op.pc == Entered
    case CheckClosing(_) => op.pc == Submitted
    case CancelOne(_) => op.pc == SawClosing
    case ChooseTimeout(_) => op.pc == Selecting
    case CancelTimeout(_) => op.pc == TimedOut
    case Complete(_, _) => op.kernel.Pending?
    case Dequeue(_) => op.kernel.Queued? && processor == None
    case Deliver(o) => processor == Some(o) && op.kernel.Dequeued? && (op.pc == Selecting || op.pc == AwaitResult)
    case Conclude(_) => op.pc.Received?
    case WgDone(_) => op.pc.Returning?
  }

  ghost predicate CanClose(c: Closer, st: Step, wg: int)
    requires !OpStep(st)
  {
    match st
    case Swap(_) => c == Start
    case CancelAll(_) => c == Won
    case WaitDone(_) => c == Waiting && wg == 0
    case CloseHandle(_) => c == Ready
    case ZeroHandle(_) => c == HandleClosed
  }

  ghost predicate Enabled(s: State, st: Step) {
    if OpStep(st) then st.o < |s.ops| && CanAdvance(s.ops[st.o], st, s.processor)
    else st.k < |s.closers| && CanClose(s.closers[st.k], st, s.wg)
  }

  function Cancel(op: Op): Op {
    if op.kernel.Pending? then op.(kernel := Pending(true)) else op
  }

  /** What a step does to its operation. */
  function Advance(op: Op, st: Step, closing: bool): Op {
    match st
    case Prepare(_) => op.(pc := if closing then Finished(FileClosed) else Entered)
    case EarlyTimeout(_) => op.(pc := Returning(Timeout))
    case IssueSync(_) => op.(pc := Returning(Completed))
    case IssuePending(_) => op.(pc := Submitted, kernel := Pending(false))
    case CheckClosing(_) => op.(pc := if closing then SawClosing else Selecting)
    case CancelOne(_) => Cancel(op).(pc := Selecting)
    case ChooseTimeout(_) => op.(pc := TimedOut)
    case CancelTimeout(_) => Cancel(op).(pc := AwaitResult)
    case Complete(_, abort) => op.(kernel := Queued(abort))
    case Dequeue(_) => if op.kernel.Queued? then op.(kernel := Dequeued(op.kernel.aborted)) else op
    case Deliver(_) =>
      var abort := op.kernel.Dequeued? && op.kernel.aborted;
      Op(if op.pc == Selecting then Received(abort) else Returning(if abort then Timeout else Completed),
         Delivered, op.received + 1)
    case Conclude(_) =>
      op.(pc := Returning(
        if !(op.pc.Received? && op.pc.aborted) then Completed else if closing then FileClosed else Aborted))
    case WgDone(_) => op.(pc := Finished(if op.pc.Returning? then op.pc.res else Completed))
    case _ => op
  }

  function Do(s: State, st: Step): State {
    if OpStep(st) then
      if st.o < |s.ops| then
        s.(ops := s.ops[st.o := Advance(s.ops[st.o], st, s.closing)],
           wg := if st.Prepare? && !s.closing then s.wg + 1 else if st.WgDone? then s.wg - 1 else s.wg,
           processor := if st.Dequeue? then Some(st.o) else if st.Deliver? then None else s.processor)
      else s
    else if st.k < |s.closers| then
      match st
      case Swap(k) => s.(closing := true, closers := s.closers[k := if s.closing then Lost else Won])
      case CancelAll(k) =>
        s.(ops := seq(|s.ops|, i requires 0 <= i < |s.ops| => Cancel(s.ops[i])), closers := s.closers[k := Waiting])
      case WaitDone(k) => s.(closers := s.closers[k := Ready])
      case CloseHandle(k) => s.(handle := Closed, closes := s.closes + 1, closers := s.closers[k := HandleClosed])
      case ZeroHandle(k) => s.(handle := Zero, closers := s.closers[k := Done])
      case _ => s
    else s
  }

  ghost predicate Init(s: State) {
    && (forall o :: 0 <= o < |s.ops| ==> s.ops[o] == Op(Idle, NotIssued, 0))
    && (forall k :: 0 <= k < |s.closers| ==> s.closers[k] == Start)
    && s.wg == 0 && !s.closing && s.handle == Open && s.closes == 0 && s.processor == None
  }

  /** `run` can be taken from `s`, one step after the other, and ends in `t`. */
  ghost predicate Runs(s: State, run: seq<Step>, t: State)
    decreases |run|
  {
    if run == [] then s == t
    else Enabled(s, run[0]) && Runs(Do(s, run[0]), run[1..], t)
  }

  // ---------------------------------------------------------------- counting

  /** Between prepareIO and wg.Done. */
  predicate Active(op: Op) {
    op.pc != Idle && !op.pc.Finished?
  }

  function ActiveCount(ops: seq<Op>): nat {
    if ops == [] then 0 else ActiveCount(ops[..|ops| - 1]) + if Active(ops[|ops| - 1]) then 1 else 0
  }

  predicate Winner(c: Closer) {
    c != Start && c != Lost
  }

  function WinnerCount(cs: seq<Closer>): nat {
    if cs == [] then 0 else WinnerCount(cs[..|cs| - 1]) + if Winner(cs[|cs| - 1]) then 1 else 0
  }

  lemma {:induction false} ActiveUpdate(ops: seq<Op>, o: nat, op: Op)
    requires o < |ops|
    ensures ActiveCount(ops[o := op]) ==
              ActiveCount(ops) - (if Active(ops[o]) then 1 else 0) + if Active(op) then 1 else 0
  {
    var n := |ops| - 1;
    if o == n {
      assert ops[o := op][..n] == ops[..n];
    } else {
      ActiveUpdate(ops[..n], o, op);
      assert ops[o := op][..n] == ops[..n][o := op];
    }
  }

  lemma {:induction false} WinnerUpdate(cs: seq<Closer>, k: nat, c: Closer)
    requires k < |cs|
    ensures WinnerCount(cs[k := c]) == WinnerCount(cs) - (if Winner(cs[k]) then 1 else 0) + if Winner(c) then 1 else 0
  {
    var n := |cs| - 1;
    if k == n {
      assert cs[k := c][..n] == cs[..n];
    } else {
      WinnerUpdate(cs[..n], k, c);
      assert cs[k := c][..n] == cs[..n][k := c];
    }
  }

  lemma {:induction false} ActiveCancel(ops: seq<Op>, ops': seq<Op>)
    requires |ops| == |ops'| && forall i :: 0 <= i < |ops| ==> ops'[i] == Cancel(ops[i])
    ensures ActiveCount(ops') == ActiveCount(ops)
  {
    if ops != [] {
      ActiveCancel(ops[..|ops| - 1], ops'[..|ops| - 1]);
    }
  }

  lemma {:induction false} NoneActive(ops: seq<Op>, o: nat)
    requires o < |ops| && ActiveCount(ops) == 0
    ensures !Active(ops[o])
  {
    if o < |ops| - 1 {
      NoneActive(ops[..|ops| - 1], o);
    }
  }

  lemma {:induction false} AllQuiet(ops: seq<Op>)
    requires forall o :: 0 <= o < |ops| ==> !Active(ops[o])
    ensures ActiveCount(ops) == 0
  {
    if ops != [] {
      AllQuiet(ops[..|ops| - 1]);
    }
  }

  lemma {:induction false} OneWinner(cs: seq<Closer>, j: nat, k: nat)
    requires j < |cs| && k < |cs| && Winner(cs[j]) && Winner(cs[k]) && WinnerCount(cs) <= 1
    ensures j == k
  {
    var n := |cs| - 1;
    if j < n && k < n {
      OneWinner(cs[..n], j, k);
    } else if j < n || k < n {
      SomeWinner(cs[..n], if j < n then j else k);
    }
  }

  lemma {:induction false} SomeWinner(cs: seq<Closer>, j: nat)
    requires j < |cs| && Winner(cs[j])
    ensures WinnerCount(cs) >= 1
  {
    if j < |cs| - 1 {
      SomeWinner(cs[..|cs| - 1], j);
    }
  }

  lemma {:induction false} FindWinner(cs: seq<Closer>) returns (j: nat)
    requires WinnerCount(cs) >= 1
    ensures j < |cs| && Winner(cs[j])
  {
    if Winner(cs[|cs| - 1]) {
      j := |cs| - 1;
    } else {
      j := FindWinner(cs[..|cs| - 1]);
    }
  }

  // ---------------------------------------------------------------- the invariant

  ghost predicate OpInv(op: Op, closing: bool, held: bool) {
    && (match op.pc
        case Idle => op.kernel == NotIssued && op.received == 0
        case Entered => op.kernel == NotIssued && op.received == 0
        case Received(_) => op.kernel == Delivered && op.received == 1
        case Returning(_) => op.kernel == (if op.received == 0 then NotIssued else Delivered) && op.received <= 1
        case Finished(_) => op.kernel == (if op.received == 0 then NotIssued else Delivered) && op.received <= 1
        case _ => op.kernel != NotIssued && op.kernel != Delivered && op.received == 0)
    && (held <==> op.kernel.Dequeued?)
    && (op.pc == SawClosing ==> closing)
    && ((op.pc.Returning? || op.pc.Finished?) && op.pc.res == FileClosed ==> closing)
    && (op.pc == AwaitResult ==> op.kernel != Pending(false))
  }

  /** A pending operation nobody has cancelled has yet to look at `closing`, or has just seen it set. */
  ghost predicate WillCancel(op: Op) {
    op.kernel == Pending(false) ==> op.pc == Submitted || op.pc == SawClosing
  }

  ghost predicate CloserInv(s: State, c: Closer) {
    && (c == Won || c == Waiting || c == Ready ==> s.handle == Open && s.closes == 0)
    && (c == Lost ==> s.closing)
    && (c == HandleClosed ==> s.handle == Closed && s.closes == 1)
    && (c == Done ==> s.handle == Zero && s.closes == 1)
    && (c == Ready || c == HandleClosed || c == Done ==> s.wg == 0)
    && (c == Waiting || c == Ready || c == HandleClosed || c == Done ==>
          forall o :: 0 <= o < |s.ops| ==> WillCancel(s.ops[o]))
  }

  ghost predicate Inv(s: State) {
    && (forall o :: 0 <= o < |s.ops| ==> OpInv(s.ops[o], s.closing, s.processor == Some(o)))
    && (s.processor.Some? ==> s.processor.value < |s.ops|)
    && s.wg == ActiveCount(s.ops)
    && WinnerCount(s.closers) == (if s.closing then 1 else 0)
    && (forall k :: 0 <= k < |s.closers| ==> CloserInv(s, s.closers[k]))
    && (!s.closing ==> s.handle == Open && s.closes == 0)
  }

  lemma {:induction false} InitInv(s: State)
    requires Init(s)
    ensures Inv(s)
  {
    AllQuiet(s.ops);
    NoWinners(s.closers);
  }

  lemma {:induction false} NoWinners(cs: seq<Closer>)
    requires forall k :: 0 <= k < |cs| ==> !Winner(cs[k])
    ensures WinnerCount(cs) == 0
  {
    if cs != [] {
      NoWinners(cs[..|cs| - 1]);
    }
  }

  lemma AdvanceKeeps(op: Op, st: Step, closing: bool, processor: Option<nat>)
    requires OpStep(st) && OpInv(op, closing, processor == Some(st.o)) && CanAdvance(op, st, processor)
    ensures OpInv(Advance(op, st, closing), closing, st.Dequeue? || (!st.Deliver? && processor == Some(st.o)))
    ensures WillCancel(op) && closing ==> WillCancel(Advance(op, st, closing))
    ensures Active(Advance(op, st, closing)) ==
              if st.Prepare? then !closing else if st.WgDone? then false else Active(op)
    ensures st.WgDone? ==> Active(op)
    ensures st.Prepare? ==> !Active(op)
  {
  }

  lemma {:induction false} OpStepKeeps(s: State, st: Step)
    requires Inv(s) && Enabled(s, st) && OpStep(st)
    ensures Inv(Do(s, st))
  {
    hide OpInv, Advance, CanAdvance, WillCancel, Active;
    var o, t := st.o, Do(s, st);
    AdvanceKeeps(s.ops[o], st, s.closing, s.processor);
    ActiveUpdate(s.ops, o, Advance(s.ops[o], st, s.closing));
    HolderAlone(s, st);
    forall k | 0 <= k < |t.closers|
      ensures CloserInv(t, t.closers[k])
    {
      assert CloserInv(s, s.closers[k]);
      if Winner(s.closers[k]) {
        SomeWinner(s.closers, k);
        if s.wg == 0 {
          NoneActive(s.ops, o);
        }
      }
    }
  }

  /** The processor takes up one completion at a time and gives it to its own operation. */
  lemma HolderAlone(s: State, st: Step)
    requires Inv(s) && Enabled(s, st) && OpStep(st)
    ensures st.Dequeue? ==> s.processor == None
    ensures st.Deliver? ==> s.processor == Some(st.o)
  {
  }

  lemma {:induction false} CloserStepKeeps(s: State, st: Step)
    requires Inv(s) && Enabled(s, st) && !OpStep(st)
    ensures Inv(Do(s, st))
  {
    hide OpInv, Active, CloserInv;
    var k, t := st.k, Do(s, st);
    WinnerUpdate(s.closers, k, t.closers[k]);
    CloserStepOps(s, st);
    CloserStepClosers(s, st);
    if Winner(s.closers[k]) {
      SomeWinner(s.closers, k);
    }
    if st.CancelAll? {
      ActiveCancel(s.ops, t.ops);
    }
  }

  /** A closer's step keeps what is known of every closer: only one of them is past the swap. */
  lemma {:induction false} CloserStepClosers(s: State, st: Step)
    requires Inv(s) && Enabled(s, st) && !OpStep(st)
    ensures var t := Do(s, st); forall j :: 0 <= j < |t.closers| ==> CloserInv(t, t.closers[j])
  {
    hide OpInv, Active, ActiveCount, WinnerCount;
    var k, t := st.k, Do(s, st);
    forall j | 0 <= j < |t.closers|
      ensures CloserInv(t, t.closers[j])
    {
      assert CloserInv(s, s.closers[j]) && CloserInv(s, s.closers[k]);
      if j != k && Winner(s.closers[j]) {
        SomeWinner(s.closers, j);
        if Winner(s.closers[k]) {
          OneWinner(s.closers, j, k);
        }
      }
    }
  }

  /** A closer's step leaves every operation's own invariant alone. */
  lemma {:induction false} CloserStepOps(s: State, st: Step)
    requires Inv(s) && Enabled(s, st) && !OpStep(st)
    ensures var t := Do(s, st);
            forall o :: 0 <= o < |t.ops| ==> OpInv(t.ops[o], t.closing, t.processor == Some(o))
  {
    var t := Do(s, st);
    forall o | 0 <= o < |t.ops|
      ensures OpInv(t.ops[o], t.closing, t.processor == Some(o))
    {
      assert OpInv(s.ops[o], s.closing, s.processor == Some(o));
    }
  }

  /** Every step keeps the invariant. */
  lemma {:induction false} StepKeeps(s: State, st: Step)
    requires Inv(s) && Enabled(s, st)
    ensures Inv(Do(s, st))
  {
    hide Inv, Enabled, Do;
    if OpStep(st) {
      OpStepKeeps(s, st);
    } else {
      CloserStepKeeps(s, st);
    }
  }

  lemma {:induction false} RunKeeps(s: State, run: seq<Step>, t: State)
    requires Inv(s) && Runs(s, run, t)
    ensures Inv(t)
    decreases |run|
  {
    hide Inv, Enabled, Do;
    if run != [] {
      StepKeeps(s, run[0]);
      RunKeeps(Do(s, run[0]), run[1..], t);
    }
  }

  /** Some run from an initial state ends in `t`. */
  ghost predicate Reachable(t: State) {
    exists s, run :: Init(s) && Runs(s, run, t)
  }

  lemma {:induction false} ReachableInv(t: State)
    requires Reachable(t)
    ensures Inv(t)
  {
    var s, run :| Init(s) && Runs(s, run, t);
    InitInv(s);
    RunKeeps(s, run, t);
  }

  // ---------------------------------------------------------------- safety

  /** The handle is closed at most once, by one closer, and never while an operation is under way. */
  lemma {:induction false} ClosedOnceAndQuietly(t: State)
    requires Reachable(t)
    ensures t.closes <= 1
    ensures t.handle == Open <==> t.closes == 0
    ensures t.closes == 1 ==> t.closing && t.wg == 0 && forall o :: 0 <= o < |t.ops| ==> !Active(t.ops[o])
    ensures forall k :: 0 <= k < |t.closers| && t.closers[k] == Ready ==>
              t.handle == Open && forall o :: 0 <= o < |t.ops| ==> !Active(t.ops[o])
  {
    ReachableInv(t);
    forall o | 0 <= o < |t.ops| && t.wg == 0
      ensures !Active(t.ops[o])
    {
      NoneActive(t.ops, o);
    }
    if t.closing {
      var j := FindWinner(t.closers);
      assert CloserInv(t, t.closers[j]);
    }
  }

  /** The steps that hand the handle to the kernel. */
  predicate UsesHandle(st: Step) {
    || st.IssueSync? || st.IssuePending? || st.CancelOne? || st.CancelTimeout?
    || st.Conclude? || st.CancelAll? || st.CloseHandle?
  }

  /** The handle is open whenever it is used. */
  lemma {:induction false} HandleOpenWhenUsed(t: State, st: Step)
    requires Reachable(t) && Enabled(t, st) && UsesHandle(st)
    ensures t.handle == Open
  {
    ClosedOnceAndQuietly(t);
    ReachableInv(t);
    if !OpStep(st) {
      assert CloserInv(t, t.closers[st.k]);
    }
  }

  /** Once closing is set no further operation gets in. */
  lemma {:induction false} NoEntryAfterClosing(s: State, run: seq<Step>, t: State, o: nat)
    requires s.closing && Runs(s, run, t) && o < |s.ops| && !Active(s.ops[o])
    ensures t.closing && |t.ops| == |s.ops| && !Active(t.ops[o])
    decreases |run|
  {
    if run != [] {
      NoEntryAfterClosing(Do(s, run[0]), run[1..], t, o);
    }
  }

  /** No cancellation is lost while a closer waits. */
  lemma {:induction false} NoCancellationLost(t: State, k: nat, o: nat)
    requires Reachable(t) && k < |t.closers| && t.closers[k] == Waiting && o < |t.ops| && t.ops[o].kernel.Pending?
    ensures t.ops[o].kernel.cancelled || t.ops[o].pc == Submitted || t.ops[o].pc == SawClosing
  {
    ReachableInv(t);
    assert CloserInv(t, t.closers[k]);
    assert WillCancel(t.ops[o]);
  }

  /** ErrFileClosed only after closing began; a cancelled wait after a timeout is always cancelled in the kernel too. */
  lemma {:induction false} FileClosedMeansClosing(t: State, o: nat)
    requires Reachable(t) && o < |t.ops|
    ensures t.ops[o].pc == Finished(FileClosed) ==> t.closing
    ensures t.ops[o].pc == AwaitResult && t.ops[o].kernel.Pending? ==> t.ops[o].kernel.cancelled
  {
    ReachableInv(t);
    assert OpInv(t.ops[o], t.closing, t.processor == Some(o));
  }

  // ---------------------------------------------------------------- exactly one completion

  /** How often a step was taken. */
  function Times(run: seq<Step>, st: Step): nat {
    if run == [] then 0 else (if run[0] == st then 1 else 0) + Times(run[1..], st)
  }

  lemma {:induction false} StepCounts(s: State, st: Step, o: nat)
    requires Inv(s) && Enabled(s, st) && o < |s.ops|
    ensures Inv(Do(s, st)) && |Do(s, st).ops| == |s.ops|
    ensures Do(s, st).ops[o].received == s.ops[o].received + if st == Deliver(o) then 1 else 0
    ensures Do(s, st).ops[o].kernel.NotIssued? <==> s.ops[o].kernel.NotIssued? && st != IssuePending(o)
    ensures st == IssuePending(o) ==> s.ops[o].kernel.NotIssued?
  {
    if OpStep(st) {
      OpStepKeeps(s, st);
      assert OpInv(s.ops[st.o], s.closing, s.processor == Some(st.o));
    } else {
      CloserStepKeeps(s, st);
    }
  }

  lemma {:induction false} CompletionsCounted(s: State, run: seq<Step>, t: State, o: nat)
    requires Inv(s) && Runs(s, run, t) && o < |s.ops|
    ensures |t.ops| == |s.ops|
    ensures t.ops[o].received == s.ops[o].received + Times(run, Deliver(o))
    ensures (if t.ops[o].kernel.NotIssued? then 0 else 1) ==
              (if s.ops[o].kernel.NotIssued? then 0 else 1) + Times(run, IssuePending(o))
    decreases |run|
  {
    hide Inv, Enabled, Do;
    if run != [] {
      StepCounts(s, run[0], o);
      CompletionsCounted(Do(s, run[0]), run[1..], t, o);
    }
  }

  lemma InvAt(s: State, o: nat)
    requires Inv(s) && o < |s.ops|
    ensures OpInv(s.ops[o], s.closing, s.processor == Some(o))
  {
  }

  /** An operation that is done received one completion if it went pending, and none otherwise. */
  lemma {:induction false} OneCompletionEach(s: State, run: seq<Step>, t: State, o: nat)
    requires Init(s) && Runs(s, run, t) && o < |s.ops|
    ensures |t.ops| == |s.ops|
    ensures t.ops[o].pc.Returning? || t.ops[o].pc.Finished? ==>
              Times(run, Deliver(o)) == Times(run, IssuePending(o)) <= 1
  {
    hide Runs, Inv;
    InitInv(s);
    CompletionsCounted(s, run, t, o);
    RunKeeps(s, run, t);
    InvAt(t, o);
    assert OpInv(t.ops[o], t.closing, t.processor == Some(o));
  }

  // ---------------------------------------------------------------- what an operation returns

  /** Some closer had won before `e` was taken. */
  ghost predicate SwapBefore(run: seq<Step>, e: Step) {
    exists i, j :: 0 <= i < j < |run| && run[i].Swap? && run[j] == e
  }

  ghost predicate Swapped(run: seq<Step>) {
    exists i :: 0 <= i < |run| && run[i].Swap?
  }

  /** It found closing set on entry, or was cut short in the select with closing set by then. */
  ghost predicate ClosedIn(run: seq<Step>, o: nat) {
    || SwapBefore(run, Prepare(o))
    || (Complete(o, true) in run && ChooseTimeout(o) !in run && SwapBefore(run, Conclude(o)))
  }

  /** Its deadline had passed on entry, or passed in the select and the completion was then cut short. */
  ghost predicate TimedOutIn(run: seq<Step>, o: nat) {
    EarlyTimeout(o) in run || (ChooseTimeout(o) in run && Complete(o, true) in run)
  }

  /** The system call decided at once, or the completion was not cut short. */
  ghost predicate CompletedIn(run: seq<Step>, o: nat) {
    IssueSync(o) in run || Complete(o, false) in run
  }

  /** It was cut short in the select with closing not set. */
  ghost predicate AbortedIn(run: seq<Step>, o: nat) {
    Complete(o, true) in run && ChooseTimeout(o) !in run && !SwapBefore(run, Conclude(o))
  }

  ghost predicate DecidedBy(run: seq<Step>, o: nat, res: Result) {
    && (res == FileClosed <==> ClosedIn(run, o))
    && (res == Timeout <==> TimedOutIn(run, o))
    && (res == Completed <==> CompletedIn(run, o))
    && (res == Aborted <==> AbortedIn(run, o))
  }

  /** Nothing in the run has decided yet. */
  ghost predicate Undecided(run: seq<Step>, o: nat) {
    !SwapBefore(run, Prepare(o)) && EarlyTimeout(o) !in run && IssueSync(o) !in run && Conclude(o) !in run
  }

  /** The one completion there was says whether it was cut short. */
  ghost predicate CompletedAs(run: seq<Step>, o: nat, aborted: bool) {
    Complete(o, aborted) in run && Complete(o, !aborted) !in run
  }

  ghost predicate NotCompleted(run: seq<Step>, o: nat) {
    Complete(o, true) !in run && Complete(o, false) !in run
  }

  /** The run so far tells where operation `o` is. */
  ghost predicate Tells(run: seq<Step>, op: Op, o: nat) {
    && (op.kernel.NotIssued? || op.kernel.Pending? ==> NotCompleted(run, o))
    && (op.kernel.Queued? ==> CompletedAs(run, o, op.kernel.aborted))
    && (op.kernel.Dequeued? ==> CompletedAs(run, o, op.kernel.aborted))
    && match op.pc
       case Idle => Undecided(run, o) && Prepare(o) !in run && ChooseTimeout(o) !in run
       case TimedOut => Undecided(run, o) && ChooseTimeout(o) in run
       case AwaitResult => Undecided(run, o) && ChooseTimeout(o) in run
       case Received(aborted) => Undecided(run, o) && ChooseTimeout(o) !in run && CompletedAs(run, o, aborted)
       case Returning(res) => DecidedBy(run, o, res)
       case Finished(res) => DecidedBy(run, o, res)
       case _ => Undecided(run, o) && ChooseTimeout(o) !in run
  }

  lemma {:induction false} SwapBeforeSnoc(run: seq<Step>, st: Step, e: Step)
    ensures SwapBefore(run + [st], e) <==> SwapBefore(run, e) || (st == e && Swapped(run))
    ensures SwapBefore(run, e) ==> e in run
  {
    var more := run + [st];
    if SwapBefore(more, e) {
      var i, j :| 0 <= i < j < |more| && more[i].Swap? && more[j] == e;
      assert run[i].Swap?;
      assert j < |run| ==> run[j] == e;
    }
    if SwapBefore(run, e) {
      var i, j :| 0 <= i < j < |run| && run[i].Swap? && run[j] == e;
      assert more[i].Swap? && more[j] == e;
    }
    if st == e && Swapped(run) {
      var i :| 0 <= i < |run| && run[i].Swap?;
      assert more[i].Swap? && more[|run|] == e;
    }
  }

  lemma {:induction false} SwappedSnoc(run: seq<Step>, st: Step)
    ensures Swapped(run + [st]) <==> Swapped(run) || st.Swap?
  {
    var more := run + [st];
    if Swapped(run) {
      var i :| 0 <= i < |run| && run[i].Swap?;
      assert more[i].Swap?;
    }
    if st.Swap? {
      assert more[|run|].Swap?;
    }
  }

  /** A step that is not the operation's own tells nothing new about it. */
  lemma {:induction false} OtherTells(run: seq<Step>, st: Step, op: Op, op': Op, o: nat)
    requires Tells(run, op, o) && (OpStep(st) ==> st.o != o) && (op' == op || op' == Cancel(op))
    ensures Tells(run + [st], op', o)
  {
    SwapBeforeSnoc(run, st, Prepare(o));
    SwapBeforeSnoc(run, st, Conclude(o));
  }

  lemma {:induction false} OwnTells(run: seq<Step>, st: Step, op: Op, closing: bool, processor: Option<nat>, o: nat)
    requires OpStep(st) && st.o == o && CanAdvance(op, st, processor) && OpInv(op, closing, processor == Some(o))
    requires Tells(run, op, o) && (closing <==> Swapped(run))
    ensures Tells(run + [st], Advance(op, st, closing), o)
  {
    hide SwapBefore, Swapped;
    SwapBeforeSnoc(run, st, Prepare(o));
    SwapBeforeSnoc(run, st, Conclude(o));
  }

  lemma {:induction false} StepTells(run: seq<Step>, s: State, st: Step, o: nat)
    requires Inv(s) && Enabled(s, st) && o < |s.ops| && Tells(run, s.ops[o], o) && (s.closing <==> Swapped(run))
    ensures |Do(s, st).ops| == |s.ops| && Tells(run + [st], Do(s, st).ops[o], o)
    ensures Do(s, st).closing <==> Swapped(run + [st])
  {
    hide Tells, Swapped, OpInv, Advance, CanAdvance, CloserInv, ActiveCount, WinnerCount;
    SwappedSnoc(run, st);
    if OpStep(st) && st.o == o {
      OwnTells(run, st, s.ops[o], s.closing, s.processor, o);
    } else {
      OtherTells(run, st, s.ops[o], Do(s, st).ops[o], o);
    }
  }

  /** The last step of a run. */
  lemma {:induction false} RunsLast(s: State, run: seq<Step>, t: State) returns (u: State)
    requires run != [] && Runs(s, run, t)
    ensures Runs(s, run[..|run| - 1], u) && Enabled(u, run[|run| - 1]) && t == Do(u, run[|run| - 1])
    decreases |run|
  {
    hide Enabled, Do;
    if |run| == 1 {
      u := s;
    } else {
      u := RunsLast(Do(s, run[0]), run[1..], t);
      assert run[1..][..|run| - 2] == run[..|run| - 1][1..];
    }
  }

  lemma {:induction false} RunTells(s: State, run: seq<Step>, t: State, o: nat)
    requires Init(s) && Runs(s, run, t) && o < |s.ops|
    ensures |t.ops| == |s.ops| && Tells(run, t.ops[o], o) && (t.closing <==> Swapped(run))
    decreases |run|
  {
    hide Inv, Enabled, Do;
    if run != [] {
      var u := RunsLast(s, run, t);
      var before := run[..|run| - 1];
      RunTells(s, before, u, o);
      InitInv(s);
      RunKeeps(s, before, u);
      StepTells(before, u, run[|run| - 1], o);
      assert before + [run[|run| - 1]] == run;
    }
  }

  /**
   What an operation returns is decided by the run, in one way: ErrFileClosed, ErrTimeout, the
   kernel's outcome, or an abort that neither a deadline nor Close asked for.
   */
  lemma {:induction false} ResultDecided(s: State, run: seq<Step>, t: State, o: nat)
    requires Init(s) && Runs(s, run, t) && o < |s.ops|
    ensures |t.ops| == |s.ops|
    ensures t.ops[o].pc.Finished? ==> DecidedBy(run, o, t.ops[o].pc.res)
  {
    hide Runs, DecidedBy;
    RunTells(s, run, t, o);
  }

  /** The state in which a step of a run was taken. */
  lemma {:induction false} RunsUpTo(s: State, run: seq<Step>, t: State, i: nat) returns (u: State)
    requires Runs(s, run, t) && i < |run|
    ensures Runs(s, run[..i], u) && Enabled(u, run[i])
    decreases |run|
  {
    hide Enabled, Do;
    if i == 0 {
      u := s;
    } else {
      u := RunsUpTo(Do(s, run[0]), run[1..], t, i - 1);
      assert run[1..][..i - 1] == run[..i][1..];
    }
  }

  /** An operation that Close cancelled, or that cancelled itself because of Close, does not return a bare abort. */
  lemma {:induction false} CloseIsNoBareAbort(s: State, run: seq<Step>, t: State, o: nat, i: nat, j: nat)
    requires Init(s) && Runs(s, run, t) && o < |s.ops|
    requires i < j < |run| && (run[i].CancelAll? || run[i] == CancelOne(o)) && run[j] == Conclude(o)
    ensures |t.ops| == |s.ops|
    ensures t.ops[o].pc != Finished(Aborted)
  {
    hide Runs, Tells;
    ResultDecided(s, run, t, o);
    var u := RunsUpTo(s, run, t, i);
    RunTells(s, run[..i], u, o);
    InitInv(s);
    RunKeeps(s, run[..i], u);
    CancelMeansClosing(u, run[i]);
    var h :| 0 <= h < |run[..i]| && run[..i][h].Swap?;
    assert run[h].Swap?;
    assert SwapBefore(run, Conclude(o));
  }

  lemma {:induction false} CancelMeansClosing(u: State, st: Step)
    requires Inv(u) && Enabled(u, st) && (st.CancelAll? || st.CancelOne?)
    ensures u.closing
  {
    if st.CancelAll? {
      SomeWinner(u.closers, st.k);
    } else {
      InvAt(u, st.o);
    }
  }
  // ---------------------------------------------------------------- Close returns

  function PcRank(pc: Pc): nat {
    match pc
    case Idle => 10
    case Entered => 9
    case Submitted => 8
    case SawClosing => 7
    case Selecting => 6
    case TimedOut => 5
    case AwaitResult => 4
    case Received(_) => 3
    case Returning(_) => 2
    case Finished(_) => 0
  }

  function KernelRank(k: Kernel): nat {
    match k
    case NotIssued => 4
    case Pending(_) => 3
    case Queued(_) => 2
    case Dequeued(_) => 1
    case Delivered => 0
  }

  function CloserRank(c: Closer): nat {
    match c
    case Start => 5
    case Won => 4
    case Waiting => 3
    case Ready => 2
    case HandleClosed => 1
    case Done => 0
    case Lost => 0
  }

  function OpsRank(ops: seq<Op>): nat {
    if ops == [] then 0
    else OpsRank(ops[..|ops| - 1]) + PcRank(ops[|ops| - 1].pc) + KernelRank(ops[|ops| - 1].kernel)
  }

  function ClosersRank(cs: seq<Closer>): nat {
    if cs == [] then 0 else ClosersRank(cs[..|cs| - 1]) + CloserRank(cs[|cs| - 1])
  }

  lemma {:induction false} OpsRankUpdate(ops: seq<Op>, o: nat, op: Op)
    requires o < |ops|
    ensures OpsRank(ops[o := op]) + PcRank(ops[o].pc) + KernelRank(ops[o].kernel)
         == OpsRank(ops) + PcRank(op.pc) + KernelRank(op.kernel)
  {
    var n := |ops| - 1;
    if o == n {
      assert ops[o := op][..n] == ops[..n];
    } else {
      OpsRankUpdate(ops[..n], o, op);
      assert ops[o := op][..n] == ops[..n][o := op];
    }
  }

  lemma {:induction false} ClosersRankUpdate(cs: seq<Closer>, k: nat, c: Closer)
    requires k < |cs|
    ensures ClosersRank(cs[k := c]) + CloserRank(cs[k]) == ClosersRank(cs) + CloserRank(c)
  {
    var n := |cs| - 1;
    if k == n {
      assert cs[k := c][..n] == cs[..n];
    } else {
      ClosersRankUpdate(cs[..n], k, c);
      assert cs[k := c][..n] == cs[..n][k := c];
    }
  }

  lemma {:induction false} OpsRankCancel(ops: seq<Op>, ops': seq<Op>)
    requires |ops| == |ops'| && forall i :: 0 <= i < |ops| ==> ops'[i] == Cancel(ops[i])
    ensures OpsRank(ops') == OpsRank(ops)
  {
    if ops != [] {
      OpsRankCancel(ops[..|ops| - 1], ops'[..|ops| - 1]);
    }
  }

  function Rank(s: State): nat {
    OpsRank(s.ops) + ClosersRank(s.closers)
  }

  lemma {:induction false} RankDrops(s: State, st: Step)
    requires Inv(s) && Enabled(s, st)
    ensures Rank(Do(s, st)) < Rank(s)
  {
    hide OpsRank, ClosersRank, Inv;
    if OpStep(st) {
      InvAt(s, st.o);
      var op' := Advance(s.ops[st.o], st, s.closing);
      OpsRankUpdate(s.ops, st.o, op');
    } else {
      ClosersRankUpdate(s.closers, st.k, Do(s, st).closers[st.k]);
      if st.CancelAll? {
        OpsRankCancel(s.ops, Do(s, st).ops);
      }
    }
  }

  /** Every run is finite: it is no longer than the rank of the state it starts from. */
  lemma {:induction false} RunsEnd(s: State, run: seq<Step>, t: State)
    requires Inv(s) && Runs(s, run, t)
    ensures |run| + Rank(t) <= Rank(s)
    decreases |run|
  {
    hide Inv, Enabled, Do, Rank;
    if run != [] {
      StepKeeps(s, run[0]);
      RankDrops(s, run[0]);
      RunsEnd(Do(s, run[0]), run[1..], t);
    }
  }

  /** Steps that may never come: a deadline passing, the kernel completing what nobody cancelled. */
  ghost predicate MayNeverCome(s: State, st: Step) {
    st.ChooseTimeout? || (st.Complete? && st.o < |s.ops| && s.ops[st.o].kernel == Pending(false))
  }

  /** Nothing more is bound to happen. */
  ghost predicate Stuck(s: State) {
    forall st :: Enabled(s, st) ==> MayNeverCome(s, st)
  }

  lemma {:induction false} StuckPc(s: State, o: nat)
    requires Inv(s) && Stuck(s) && o < |s.ops|
    ensures s.ops[o].pc.Finished? || s.ops[o].pc == Selecting || s.ops[o].pc == AwaitResult
  {
    assert !Enabled(s, Prepare(o)) && !Enabled(s, IssueSync(o));
    assert !Enabled(s, CheckClosing(o)) && !Enabled(s, CancelOne(o));
    assert !Enabled(s, CancelTimeout(o)) && !Enabled(s, Conclude(o)) && !Enabled(s, WgDone(o));
  }

  lemma {:induction false} StuckProcessor(s: State)
    requires Inv(s) && Stuck(s)
    ensures s.processor == None
  {
    if s.processor.Some? {
      var p := s.processor.value;
      StuckPc(s, p);
      assert OpInv(s.ops[p], s.closing, s.processor == Some(p));
      assert Enabled(s, Deliver(p));
      assert false;
    }
  }

  /** An operation that cannot move is finished, or waits for a completion nobody asked to cut short. */
  lemma {:induction false} StuckOp(s: State, o: nat)
    requires Inv(s) && Stuck(s) && o < |s.ops|
    ensures var op := s.ops[o];
            op.pc.Finished? || (op.kernel == Pending(false) && (op.pc == Selecting || op.pc == AwaitResult))
  {
    StuckPc(s, o);
    StuckProcessor(s);
    assert OpInv(s.ops[o], s.closing, s.processor == Some(o));
    assert !Enabled(s, Dequeue(o));
    assert Enabled(s, Complete(o, true)) ==> MayNeverCome(s, Complete(o, true));
  }

  /**
   Close returns: when nothing more is bound to happen and somebody closed, every operation has
   returned and the handle is gone.
   */
  lemma {:induction false} CloseReturns(s: State)
    requires Inv(s) && Stuck(s) && |s.closers| > 0
    ensures forall o :: 0 <= o < |s.ops| ==> s.ops[o].pc.Finished?
    ensures forall k :: 0 <= k < |s.closers| ==> s.closers[k] == Done || s.closers[k] == Lost
    ensures s.handle == Zero && s.closes == 1
  {
    forall k | 0 <= k < |s.closers|
      ensures s.closers[k] != Start && s.closers[k] != Won && s.closers[k] != Ready && s.closers[k] != HandleClosed
    {
      assert !Enabled(s, Swap(k)) && !Enabled(s, CancelAll(k));
      assert !Enabled(s, CloseHandle(k)) && !Enabled(s, ZeroHandle(k));
    }
    assert s.closing by {
      assert CloserInv(s, s.closers[0]);
      if Winner(s.closers[0]) {
        SomeWinner(s.closers, 0);
      }
    }
    var j := FindWinner(s.closers);
    assert CloserInv(s, s.closers[j]);
    forall o | 0 <= o < |s.ops|
      ensures s.ops[o].pc.Finished?
    {
      StuckOp(s, o);
      assert WillCancel(s.ops[o]);
    }
    AllQuiet(s.ops);
    assert !Enabled(s, WaitDone(j));
    forall k | 0 <= k < |s.closers|
      ensures s.closers[k] == Done || s.closers[k] == Lost
    {
      if Winner(s.closers[k]) {
        OneWinner(s.closers, j, k);
      }
    }
  }
}
