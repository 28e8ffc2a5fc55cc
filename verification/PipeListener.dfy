/**
 The named-pipe listener (win32PipeListener in pipe.go) as a transition system: any number of
 Accept and Close calls, the listener routine, and one connect goroutine per server pipe. One
 step is one channel rendezvous, one system call, or the completion of one connect.
 */
module PipeListener {
  import opened Wrappers

  /** What connectPipe returns. */
  datatype Connect = Connected | FileClosed | NoData | OtherError

  /** A connect goroutine: at work, blocked on its channel with a result, or received. */
  datatype Goroutine = Running | Blocked(r: Connect) | Gone

  datatype Owner = Routine | Handed(a: nat) | Closed

  /** A server pipe: who is responsible for it, and how often it was closed. */
  datatype Pipe = Pipe(owner: Owner, goroutine: Goroutine, closes: nat)

  datatype Response = Conn(p: nat) | ListenerClosed | Failure

  datatype Acceptor = Calling | Waiting | Got(p: nat) | Failed | Refused

  datatype Closer = Closing | AwaitDone | Returned

  /** Where listenerRoutine is. */
  datatype Routine =
    | Select                              // at the select, closed is false
    | Trying(a: nat)                      // about to make a server pipe for request `a`
    | Connecting(a: nat, p: nat)          // waits for a client, or for Close
    | Aborting(a: nat, p: nat)            // took a Close, about to close the pipe
    | Aborted(a: nat, p: nat)             // closed it, waits for the goroutine's result
    | Responding(a: nat, resp: Response)  // about to answer request `a`
    | Exiting                             // left the loop, first handle still open
    | Notifying                           // first handle closed, doneCh still open
    | Ended

  datatype State = State(
    routine: Routine, acceptors: seq<Acceptor>, closers: seq<Closer>, pipes: seq<Pipe>,
    firstCloses: nat, done: bool, abortFailed: bool)

  datatype Step =
    | TakeAccept(a: nat) | TakeClose(c: nat) | MakeFails | Make | Finish(p: nat, r: Connect)
    | ReceiveResult | AbortFor(c: nat) | ClosePipe | ReceiveAborted | Respond(a: nat)
    | CloseFirst | CloseDone | AcceptRefused(a: nat) | CloserReturns(c: nat)

  ghost predicate Enabled(s: State, st: Step) {
    match st
    case TakeAccept(a) => s.routine == Select && a < |s.acceptors| && s.acceptors[a] == Calling
    case TakeClose(c) => s.routine == Select && c < |s.closers| && s.closers[c] == Closing
    case MakeFails => s.routine.Trying?
    case Make => s.routine.Trying?
    case Finish(p, _) => p < |s.pipes| && s.pipes[p].goroutine == Running
    case ReceiveResult => s.routine.Connecting? && s.routine.p < |s.pipes| && s.pipes[s.routine.p].goroutine.Blocked?
    case AbortFor(c) => s.routine.Connecting? && c < |s.closers| && s.closers[c] == Closing
    case ClosePipe => s.routine.Aborting? && s.routine.p < |s.pipes|
    case ReceiveAborted => s.routine.Aborted? && s.routine.p < |s.pipes| && s.pipes[s.routine.p].goroutine.Blocked?
    case Respond(a) => s.routine.Responding? && s.routine.a == a && a < |s.acceptors| && s.acceptors[a] == Waiting
    case CloseFirst => s.routine == Exiting
    case CloseDone => s.routine == Notifying
    case AcceptRefused(a) => s.done && a < |s.acceptors| && s.acceptors[a] == Calling
    case CloserReturns(c) => s.done && c < |s.closers| && s.closers[c] != Returned
  }

  function ClosedPipe(p: Pipe): Pipe {
    Pipe(Closed, p.goroutine, p.closes + 1)
  }

  /** First branch of the select in makeConnectedServerPipe, and what listenerRoutine makes of it. */
  function AfterResult(s: State, a: nat, p: nat): State
    requires p < |s.pipes| && s.pipes[p].goroutine.Blocked?
  {
    var r, got := s.pipes[p].goroutine.r, s.pipes[p].(goroutine := Gone);
    match r
    case Connected => s.(pipes := s.pipes[p := got], routine := Responding(a, Conn(p)))
    case NoData => s.(pipes := s.pipes[p := ClosedPipe(got)], routine := Trying(a))
    case _ => s.(pipes := s.pipes[p := ClosedPipe(got)], routine := Responding(a, Failure))
  }

  /** Second branch: only success and ErrFileClosed become ErrPipeListenerClosed. */
  function AfterAbort(s: State, a: nat, p: nat): State
    requires p < |s.pipes| && s.pipes[p].goroutine.Blocked?
  {
    var r := s.pipes[p].goroutine.r;
    var s1 := s.(pipes := s.pipes[p := s.pipes[p].(goroutine := Gone)]);
    match r
    case Connected => s1.(routine := Responding(a, ListenerClosed))
    case FileClosed => s1.(routine := Responding(a, ListenerClosed))
    case NoData => s1.(routine := Trying(a), abortFailed := true)
    case OtherError => s1.(routine := Responding(a, Failure), abortFailed := true)
  }

  function AfterRespond(s: State, a: nat, resp: Response): State
    requires a < |s.acceptors|
  {
    match resp
    case Conn(p) =>
      s.(acceptors := s.acceptors[a := Got(p)], routine := Select,
         pipes := if p < |s.pipes| then s.pipes[p := s.pipes[p].(owner := Handed(a))] else s.pipes)
    case ListenerClosed => s.(acceptors := s.acceptors[a := Failed], routine := Exiting)
    case Failure => s.(acceptors := s.acceptors[a := Failed], routine := Select)
  }

  ghost function Do(s: State, st: Step): State
    requires Enabled(s, st)
  {
    match st
    case TakeAccept(a) => s.(routine := Trying(a), acceptors := s.acceptors[a := Waiting])
    case TakeClose(c) => s.(routine := Exiting, closers := s.closers[c := AwaitDone])
    case MakeFails => s.(routine := Responding(s.routine.a, Failure))
    case Make => s.(routine := Connecting(s.routine.a, |s.pipes|), pipes := s.pipes + [Pipe(Owner.Routine, Running, 0)])
    case Finish(p, r) => s.(pipes := s.pipes[p := s.pipes[p].(goroutine := Blocked(r))])
    case ReceiveResult => AfterResult(s, s.routine.a, s.routine.p)
    case AbortFor(c) => s.(routine := Aborting(s.routine.a, s.routine.p), closers := s.closers[c := AwaitDone])
    case ClosePipe =>
      s.(routine := Aborted(s.routine.a, s.routine.p),
         pipes := s.pipes[s.routine.p := ClosedPipe(s.pipes[s.routine.p])])
    case ReceiveAborted => AfterAbort(s, s.routine.a, s.routine.p)
    case Respond(a) => AfterRespond(s, a, s.routine.resp)
    case CloseFirst => s.(routine := Notifying, firstCloses := s.firstCloses + 1)
    case CloseDone => s.(routine := Ended, done := true)
    case AcceptRefused(a) => s.(acceptors := s.acceptors[a := Refused])
    case CloserReturns(c) => s.(closers := s.closers[c := Returned])
  }

  ghost predicate Init(s: State) {
    && s.routine == Select && s.pipes == [] && s.firstCloses == 0 && !s.done && !s.abortFailed
    && (forall a :: 0 <= a < |s.acceptors| ==> s.acceptors[a] == Calling)
    && (forall c :: 0 <= c < |s.closers| ==> s.closers[c] == Closing)
  }

  ghost predicate Runs(s: State, run: seq<Step>, t: State)
    decreases |run|
  {
    if run == [] then s == t
    else Enabled(s, run[0]) && Runs(Do(s, run[0]), run[1..], t)
  }

  ghost predicate Reachable(t: State) {
    exists s, run :: Init(s) && Runs(s, run, t)
  }

  // ---------------------------------------------------------------- the invariant

  /** The request being served. */
  predicate Serves(r: Routine, a: nat) {
    match r
    case Trying(b) => a == b
    case Connecting(b, _) => a == b
    case Aborting(b, _) => a == b
    case Aborted(b, _) => a == b
    case Responding(b, _) => a == b
    case _ => false
  }

  /** The pipe the routine still has to hand on or close. */
  predicate Holds(r: Routine, p: nat) {
    match r
    case Connecting(_, q) => p == q
    case Aborting(_, q) => p == q
    case Responding(_, Conn(q)) => p == q
    case _ => false
  }

  /** The pipe whose goroutine the routine still has to hear from. */
  predicate Hears(r: Routine, p: nat) {
    match r
    case Connecting(_, q) => p == q
    case Aborting(_, q) => p == q
    case Aborted(_, q) => p == q
    case _ => false
  }

  ghost predicate PipeInv(s: State, p: nat)
    requires p < |s.pipes|
  {
    var pipe := s.pipes[p];
    && (pipe.owner == Owner.Routine <==> Holds(s.routine, p))
    && (pipe.goroutine != Gone <==> Hears(s.routine, p))
    && pipe.closes == (if pipe.owner == Closed then 1 else 0)
    && (pipe.owner.Handed? ==> pipe.owner.a < |s.acceptors| && s.acceptors[pipe.owner.a] == Got(p))
  }

  ghost predicate AcceptorInv(s: State, a: nat)
    requires a < |s.acceptors|
  {
    && (s.acceptors[a] == Waiting <==> Serves(s.routine, a))
    && (s.acceptors[a].Got? ==> s.acceptors[a].p < |s.pipes| && s.pipes[s.acceptors[a].p].owner == Handed(a))
    && (s.acceptors[a] == Refused ==> s.done)
  }

  ghost predicate RoutineInv(s: State) {
    && ((s.routine.Trying? || s.routine.Connecting? || s.routine.Aborting? || s.routine.Aborted?
         || s.routine.Responding?) ==>
          s.routine.a < |s.acceptors|)
    && (s.routine.Connecting? || s.routine.Aborting? || s.routine.Aborted? ==> s.routine.p < |s.pipes|)
    && (s.routine.Responding? && s.routine.resp.Conn? ==> s.routine.resp.p < |s.pipes|)
    && s.firstCloses == (if s.routine == Notifying || s.routine == Ended then 1 else 0)
    && (s.done <==> s.routine == Ended)
  }

  /** The routine has committed to closing the listener. */
  predicate Committed(r: Routine) {
    || r.Aborting? || r.Aborted? || (r.Responding? && r.resp == ListenerClosed)
    || r == Exiting || r == Notifying || r == Ended
  }

  ghost predicate CloserInv(s: State, c: Closer) {
    && (c == AwaitDone && !s.abortFailed ==> Committed(s.routine))
    && (c == Returned ==> s.done)
  }

  ghost predicate Inv(s: State) {
    && RoutineInv(s)
    && (forall p :: 0 <= p < |s.pipes| ==> PipeInv(s, p))
    && (forall a :: 0 <= a < |s.acceptors| ==> AcceptorInv(s, a))
    && (forall c :: 0 <= c < |s.closers| ==> CloserInv(s, s.closers[c]))
  }

  lemma InitInv(s: State)
    requires Init(s)
    ensures Inv(s)
  {
  }

  /** Steps in which something comes back from a connect goroutine. */
  predicate Hearing(st: Step) {
    st.Finish? || st.ReceiveResult? || st.ReceiveAborted?
  }

  lemma {:induction false} HearingKeepsPipe(s: State, st: Step, p: nat)
    requires Inv(s) && Enabled(s, st) && p < |Do(s, st).pipes| && Hearing(st)
    ensures PipeInv(Do(s, st), p)
  {
    hide Inv;
    InvRoutine(s);
    PipeAt(s, p);
    if s.pipes[p].owner.Handed? {
      InvAt(s, s.pipes[p].owner.a);
    }
  }

  lemma {:induction false} OtherKeepsPipe(s: State, st: Step, p: nat)
    requires Inv(s) && Enabled(s, st) && p < |Do(s, st).pipes| && !Hearing(st)
    ensures PipeInv(Do(s, st), p)
  {
    hide Inv;
    InvRoutine(s);
    if p < |s.pipes| {
      PipeAt(s, p);
      if s.pipes[p].owner.Handed? {
        InvAt(s, s.pipes[p].owner.a);
      }
    }
  }

  lemma {:induction false} StepKeepsPipe(s: State, st: Step, p: nat)
    requires Inv(s) && Enabled(s, st) && p < |Do(s, st).pipes|
    ensures PipeInv(Do(s, st), p)
  {
    hide Inv, Enabled, Do, PipeInv;
    if Hearing(st) {
      HearingKeepsPipe(s, st, p);
    } else {
      OtherKeepsPipe(s, st, p);
    }
  }

  lemma InvRoutine(s: State)
    requires Inv(s)
    ensures RoutineInv(s)
  {
  }

  lemma {:induction false} StepKeepsAcceptor(s: State, st: Step, a: nat)
    requires Inv(s) && Enabled(s, st) && a < |Do(s, st).acceptors|
    ensures AcceptorInv(Do(s, st), a)
  {
    assert AcceptorInv(s, a);
    if s.acceptors[a].Got? {
      assert PipeInv(s, s.acceptors[a].p);
    }
    if s.routine.Connecting? || s.routine.Aborting? || s.routine.Aborted? {
      assert PipeInv(s, s.routine.p);
    }
    if s.routine.Responding? && s.routine.resp.Conn? {
      assert PipeInv(s, s.routine.resp.p);
    }
  }

  lemma {:induction false} StepKeepsCloser(s: State, st: Step, c: nat)
    requires Inv(s) && Enabled(s, st) && c < |Do(s, st).closers|
    ensures CloserInv(Do(s, st), Do(s, st).closers[c])
  {
    assert CloserInv(s, s.closers[c]);
  }

  /** Every step keeps the invariant. */
  lemma {:induction false} StepKeeps(s: State, st: Step)
    requires Inv(s) && Enabled(s, st)
    ensures Inv(Do(s, st))
  {
    var t := Do(s, st);
    forall p | 0 <= p < |t.pipes|
      ensures PipeInv(t, p)
    {
      StepKeepsPipe(s, st, p);
    }
    forall a | 0 <= a < |t.acceptors|
      ensures AcceptorInv(t, a)
    {
      StepKeepsAcceptor(s, st, a);
    }
    forall c | 0 <= c < |t.closers|
      ensures CloserInv(t, t.closers[c])
    {
      StepKeepsCloser(s, st, c);
    }
    StepKeepsRoutine(s, st);
  }

  lemma {:induction false} StepKeepsRoutine(s: State, st: Step)
    requires Inv(s) && Enabled(s, st)
    ensures RoutineInv(Do(s, st))
  {
  }

  lemma {:induction false} RunKeeps(s: State, run: seq<Step>, t: State)
    requires Inv(s) && Runs(s, run, t)
    ensures Inv(t)
    decreases |run|
  {
    hide Inv, Enabled, Do;
    if run != [] {
      StepKeeps(s, run[0]);
      RunKeeps(Do(s, run[0]), run[1..], t);
    }
  }

  lemma ReachableInv(t: State)
    requires Reachable(t)
    ensures Inv(t)
  {
    var s, run :| Init(s) && Runs(s, run, t);
    InitInv(s);
    RunKeeps(s, run, t);
  }

  // ---------------------------------------------------------------- requests and responses

  function Times(run: seq<Step>, st: Step): nat {
    if run == [] then 0 else (if run[0] == st then 1 else 0) + Times(run[1..], st)
  }

  /** 1 while request `a` waits for its answer. */
  function Owed(s: State, a: nat): nat
    requires a < |s.acceptors|
  {
    if s.acceptors[a] == Waiting then 1 else 0
  }

  /** 1 once request `a` was taken. */
  function Taken(s: State, a: nat): nat
    requires a < |s.acceptors|
  {
    if s.acceptors[a] == Calling || s.acceptors[a] == Refused then 0 else 1
  }

  lemma {:induction false} StepOwes(s: State, st: Step, a: nat)
    requires Inv(s) && Enabled(s, st) && a < |s.acceptors|
    ensures |Do(s, st).acceptors| == |s.acceptors|
    ensures Owed(Do(s, st), a) + (if st == Respond(a) then 1 else 0) ==
              Owed(s, a) + if st == TakeAccept(a) then 1 else 0
    ensures Taken(Do(s, st), a) == Taken(s, a) + if st == TakeAccept(a) then 1 else 0
  {
    assert AcceptorInv(s, a);
  }

  lemma {:induction false} RunOwes(s: State, run: seq<Step>, t: State, a: nat)
    requires Inv(s) && Runs(s, run, t) && a < |s.acceptors|
    ensures |t.acceptors| == |s.acceptors|
    ensures Owed(t, a) + Times(run, Respond(a)) == Owed(s, a) + Times(run, TakeAccept(a))
    ensures Taken(t, a) == Taken(s, a) + Times(run, TakeAccept(a))
    decreases |run|
  {
    hide Inv, Enabled, Do, Owed, Taken;
    if run != [] {
      StepKeeps(s, run[0]);
      StepOwes(s, run[0], a);
      RunOwes(Do(s, run[0]), run[1..], t, a);
    }
  }

  /** A request is taken at most once and answered exactly once, except while it is being served. */
  lemma {:induction false} OneResponseEach(s: State, run: seq<Step>, t: State, a: nat)
    requires Init(s) && Runs(s, run, t) && a < |s.acceptors|
    ensures |t.acceptors| == |s.acceptors|
    ensures Times(run, TakeAccept(a)) <= 1
    ensures Times(run, Respond(a)) == Times(run, TakeAccept(a)) - if Serves(t.routine, a) then 1 else 0
  {
    InitInv(s);
    RunOwes(s, run, t, a);
    RunKeeps(s, run, t);
    assert AcceptorInv(t, a);
  }

  // ---------------------------------------------------------------- pipes

  /** Every server pipe is in the routine's hands, or was handed to exactly one Accept, or was closed once. */
  lemma {:induction false} PipeFate(t: State, p: nat)
    requires Reachable(t) && p < |t.pipes|
    ensures t.pipes[p].closes <= 1
    ensures t.pipes[p].closes == 0 && !Holds(t.routine, p) ==>
              exists a :: 0 <= a < |t.acceptors| && t.acceptors[a] == Got(p)
    ensures forall a :: 0 <= a < |t.acceptors| && t.acceptors[a] == Got(p) ==>
              t.pipes[p].closes == 0 && !Holds(t.routine, p)
    ensures forall a, b ::
              0 <= a < |t.acceptors| && 0 <= b < |t.acceptors| && t.acceptors[a] == t.acceptors[b] == Got(p) ==> a == b
  {
    ReachableInv(t);
    assert PipeInv(t, p);
    forall a | 0 <= a < |t.acceptors| && t.acceptors[a] == Got(p)
      ensures t.pipes[p].owner == Handed(a)
    {
      assert AcceptorInv(t, a);
    }
  }

  /** When the routine has ended no pipe, no connect goroutine and no request is left behind. */
  lemma {:induction false} NothingLeftBehind(t: State)
    requires Reachable(t) && t.routine == Ended
    ensures forall p :: 0 <= p < |t.pipes| ==>
              t.pipes[p].goroutine == Gone && (t.pipes[p].owner == Closed || t.pipes[p].owner.Handed?)
    ensures forall a :: 0 <= a < |t.acceptors| ==> t.acceptors[a] != Waiting
  {
    ReachableInv(t);
    forall p | 0 <= p < |t.pipes|
      ensures t.pipes[p].goroutine == Gone && (t.pipes[p].owner == Closed || t.pipes[p].owner.Handed?)
    {
      assert PipeInv(t, p);
    }
    forall a | 0 <= a < |t.acceptors|
      ensures t.acceptors[a] != Waiting
    {
      assert AcceptorInv(t, a);
    }
  }

  // ---------------------------------------------------------------- what Accept returns

  /** The answer to request `a` is decided: it is on its way, or has been given. */
  ghost predicate Decided(s: State, a: nat, resp: Response) {
    && a < |s.acceptors|
    && (|| (s.routine == Responding(a, resp) && s.acceptors[a] == Waiting)
        || (!Serves(s.routine, a) && s.acceptors[a] == (if resp.Conn? then Got(resp.p) else Failed)))
    && (resp.Conn? ==> resp.p < |s.pipes| && s.pipes[resp.p].closes == 0 && s.pipes[resp.p].owner != Closed)
  }

  lemma {:induction false} DecidedStep(s: State, st: Step, a: nat, resp: Response)
    requires Inv(s) && Enabled(s, st) && Decided(s, a, resp)
    ensures Decided(Do(s, st), a, resp)
  {
    hide Inv;
    InvAt(s, a);
    StepKeeps(s, st);
    InvAt(Do(s, st), a);
    if resp.Conn? {
      PipeAt(s, resp.p);
      PipeAt(Do(s, st), resp.p);
    }
  }

  lemma InvAt(s: State, a: nat)
    requires Inv(s) && a < |s.acceptors|
    ensures AcceptorInv(s, a) && RoutineInv(s)
  {
  }

  lemma PipeAt(s: State, p: nat)
    requires Inv(s) && p < |s.pipes|
    ensures PipeInv(s, p)
  {
  }

  /** Once decided, an answer is not changed, and the pipe it hands over stays open. */
  lemma {:induction false} DecidedStays(s: State, run: seq<Step>, t: State, a: nat, resp: Response)
    requires Inv(s) && Runs(s, run, t) && Decided(s, a, resp)
    ensures Decided(t, a, resp)
    decreases |run|
  {
    hide Inv, Enabled, Do, Decided;
    if run != [] {
      StepKeeps(s, run[0]);
      DecidedStep(s, run[0], a, resp);
      DecidedStays(Do(s, run[0]), run[1..], t, a, resp);
    }
  }

  /**
   What connectPipe returned decides what Accept returns. A connected pipe is handed over, open; a
   client that went away leaves the request waiting and a new pipe is tried; any other
   error is Accept's, and the listener goes on.
   */
  lemma {:induction false} ConnectDecides(s: State, run: seq<Step>, t: State, a: nat, p: nat, r: Connect)
    requires Reachable(s) && s.routine == Connecting(a, p) && p < |s.pipes| && s.pipes[p].goroutine == Blocked(r)
    requires Runs(Do(s, ReceiveResult), run, t)
    ensures a < |s.acceptors| == |t.acceptors|
    ensures r == Connected ==> Decided(t, a, Conn(p)) && (t.acceptors[a] == Waiting || t.acceptors[a] == Got(p))
    ensures r == NoData ==>
              var u := Do(s, ReceiveResult);
              u.routine == Trying(a) && u.acceptors[a] == Waiting && u.pipes[p].owner == Closed
    ensures r == FileClosed || r == OtherError ==>
              && Decided(t, a, Failure) && Do(s, ReceiveResult).pipes[p].owner == Closed
              && (t.acceptors[a] == Waiting || t.acceptors[a] == Failed)
  {
    ReachableInv(s);
    assert AcceptorInv(s, a) && PipeInv(s, p);
    StepKeeps(s, ReceiveResult);
    var u := Do(s, ReceiveResult);
    SameAcceptors(u, run, t);
    if r == Connected {
      DecidedStays(u, run, t, a, Conn(p));
    } else if r != NoData {
      DecidedStays(u, run, t, a, Failure);
    }
  }

  /** A pipe that cannot be made is Accept's failure. */
  lemma {:induction false} MakeDecides(s: State, run: seq<Step>, t: State, a: nat)
    requires Reachable(s) && s.routine == Trying(a) && Runs(Do(s, MakeFails), run, t)
    ensures a < |s.acceptors| == |t.acceptors| && Decided(t, a, Failure)
  {
    ReachableInv(s);
    assert AcceptorInv(s, a);
    StepKeeps(s, MakeFails);
    var u := Do(s, MakeFails);
    SameAcceptors(u, run, t);
    DecidedStays(u, run, t, a, Failure);
  }

  /**
   What connectPipe returns on a pipe that Close took away: success and ErrFileClosed end the
   listener, and Accept reports it closed; a client that went away leaves the request waiting; any
   other error is Accept's.
   */
  lemma {:induction false} AbortDecides(s: State, run: seq<Step>, t: State, a: nat, p: nat, r: Connect)
    requires Reachable(s) && s.routine == Aborted(a, p) && p < |s.pipes| && s.pipes[p].goroutine == Blocked(r)
    requires Runs(Do(s, ReceiveAborted), run, t)
    ensures a < |s.acceptors| == |t.acceptors|
    ensures r == Connected || r == FileClosed ==> Decided(t, a, ListenerClosed)
    ensures r == NoData ==> Do(s, ReceiveAborted).routine == Trying(a) && Do(s, ReceiveAborted).acceptors[a] == Waiting
    ensures r == OtherError ==> Decided(t, a, Failure)
  {
    ReachableInv(s);
    assert AcceptorInv(s, a) && PipeInv(s, p);
    StepKeeps(s, ReceiveAborted);
    var u := Do(s, ReceiveAborted);
    SameAcceptors(u, run, t);
    if r == Connected || r == FileClosed {
      DecidedStays(u, run, t, a, ListenerClosed);
    } else if r == OtherError {
      DecidedStays(u, run, t, a, Failure);
    }
  }

  lemma {:induction false} SameAcceptors(s: State, run: seq<Step>, t: State)
    requires Runs(s, run, t)
    ensures |t.acceptors| == |s.acceptors| && |t.closers| == |s.closers|
    decreases |run|
  {
    if run != [] {
      SameAcceptors(Do(s, run[0]), run[1..], t);
    }
  }

  /** After an answer the routine takes further requests, unless the answer was that the listener is closed. */
  lemma {:induction false} AfterAnswer(s: State, a: nat)
    requires Reachable(s) && s.routine.Responding? && s.routine.a == a
    ensures Enabled(s, Respond(a))
    ensures var t := Do(s, Respond(a));
            && (s.routine.resp == ListenerClosed ==> t.routine == Exiting && t.acceptors[a] == Failed)
            && (s.routine.resp == Failure ==> t.routine == Select && t.acceptors[a] == Failed)
            && (s.routine.resp.Conn? ==> t.routine == Select && t.acceptors[a] == Got(s.routine.resp.p))
            && (t.routine == Select ==>
                  forall b :: 0 <= b < |t.acceptors| && t.acceptors[b] == Calling ==> Enabled(t, TakeAccept(b)))
  {
    ReachableInv(s);
    assert AcceptorInv(s, a);
  }

  ghost predicate SomeCloseTaken(s: State) {
    exists c :: 0 <= c < |s.closers| && s.closers[c] != Closing
  }

  lemma {:induction false} CloseTakenStep(s: State, st: Step)
    requires Inv(s) && Enabled(s, st) && (Committed(s.routine) ==> SomeCloseTaken(s))
    ensures Committed(Do(s, st).routine) ==> SomeCloseTaken(Do(s, st))
  {
    var t := Do(s, st);
    if st.TakeClose? || st.AbortFor? {
      assert t.closers[st.c] != Closing;
    } else if SomeCloseTaken(s) {
      var c :| 0 <= c < |s.closers| && s.closers[c] != Closing;
      assert t.closers[c] != Closing;
    }
  }

  lemma {:induction false} CloseTakenRun(s: State, run: seq<Step>, t: State)
    requires Inv(s) && Runs(s, run, t) && (Committed(s.routine) ==> SomeCloseTaken(s))
    ensures Committed(t.routine) ==> SomeCloseTaken(t)
    decreases |run|
  {
    hide Inv, Enabled, Do, Committed;
    if run != [] {
      StepKeeps(s, run[0]);
      CloseTakenStep(s, run[0]);
      CloseTakenRun(Do(s, run[0]), run[1..], t);
    }
  }

  /** The routine ends, and reports the listener closed, only after a Close call. */
  lemma {:induction false} ClosedOnlyByClose(t: State)
    requires Reachable(t)
    ensures Committed(t.routine) ==> SomeCloseTaken(t)
    ensures t.routine.Responding? && t.routine.resp == ListenerClosed ==> SomeCloseTaken(t)
    ensures t.done ==> SomeCloseTaken(t)
  {
    var s, run :| Init(s) && Runs(s, run, t);
    InitInv(s);
    CloseTakenRun(s, run, t);
    ReachableInv(t);
  }

  /** What a run has told about pipe `p`: its goroutine's result, and that only a connected pipe is handed over. */
  ghost predicate Tells(run: seq<Step>, s: State, p: nat) {
    p < |s.pipes| ==>
      && (s.pipes[p].goroutine.Blocked? ==> Finish(p, s.pipes[p].goroutine.r) in run)
      && ((s.pipes[p].owner.Handed? || (s.routine.Responding? && s.routine.resp == Conn(p))) ==>
            Finish(p, Connected) in run)
  }

  lemma {:induction false} StepTells(run: seq<Step>, s: State, st: Step, p: nat)
    requires Inv(s) && Enabled(s, st) && Tells(run, s, p)
    ensures Tells(run + [st], Do(s, st), p)
  {
    if p < |s.pipes| {
      assert PipeInv(s, p);
    }
  }

  lemma {:induction false} RunTells(told: seq<Step>, s: State, run: seq<Step>, t: State, p: nat)
    requires Inv(s) && Runs(s, run, t) && Tells(told, s, p)
    ensures Tells(told + run, t, p)
    decreases |run|
  {
    hide Inv, Enabled, Do, Tells;
    if run == [] {
      assert told + run == told;
    } else {
      StepKeeps(s, run[0]);
      StepTells(told, s, run[0], p);
      RunTells(told + [run[0]], Do(s, run[0]), run[1..], t, p);
      assert told + [run[0]] + run[1..] == told + run;
    }
  }

  /** Accept returns only pipes that connectPipe connected. */
  lemma {:induction false} AcceptedIsConnected(s: State, run: seq<Step>, t: State, a: nat)
    requires Init(s) && Runs(s, run, t) && a < |t.acceptors| && t.acceptors[a].Got?
    ensures Finish(t.acceptors[a].p, Connected) in run
  {
    var p := t.acceptors[a].p;
    InitInv(s);
    RunKeeps(s, run, t);
    RunTells([], s, run, t, p);
    assert [] + run == run;
    assert AcceptorInv(t, a);
  }

  // ---------------------------------------------------------------- shutting down

  /** The first handle is closed at most once, and before doneCh is. */
  lemma {:induction false} FirstHandleClosedOnce(t: State)
    requires Reachable(t)
    ensures t.firstCloses <= 1
    ensures t.done ==> t.firstCloses == 1
    ensures t.firstCloses == 1 <==> t.routine == Notifying || t.routine == Ended
  {
    ReachableInv(t);
  }

  predicate Over(r: Routine) {
    r == Exiting || r == Notifying || r == Ended
  }

  /** Once the routine has left its loop it takes no request and makes no pipe. */
  lemma {:induction false} NothingTakenAfterwards(s: State, run: seq<Step>, t: State, i: nat)
    requires Over(s.routine) && Runs(s, run, t) && i < |run|
    ensures !run[i].TakeAccept? && !run[i].TakeClose? && !run[i].Make? && !run[i].AbortFor? && !run[i].Respond?
    decreases |run|
  {
    if i > 0 {
      NothingTakenAfterwards(Do(s, run[0]), run[1..], t, i - 1);
    }
  }

  /** Nothing can happen any more. */
  ghost predicate Quiet(s: State) {
    forall st :: !Enabled(s, st)
  }

  // ---------------------------------------------------------------- Close returns

  /** Steps of the routine, and of the goroutine it waits for, to the end. */
  function Distance(s: State): nat {
    match s.routine
    case Aborting(_, p) => 5 + if p < |s.pipes| && s.pipes[p].goroutine == Running then 1 else 0
    case Aborted(_, p) => 4 + if p < |s.pipes| && s.pipes[p].goroutine == Running then 1 else 0
    case Responding(_, _) => 3
    case Exiting => 2
    case Notifying => 1
    case _ => 0
  }

  function CallingCount(acceptors: seq<Acceptor>): nat {
    if acceptors == [] then 0
    else CallingCount(acceptors[..|acceptors| - 1]) + if acceptors[|acceptors| - 1] == Calling then 1 else 0
  }

  function ClosingCount(closers: seq<Closer>): nat {
    if closers == [] then 0
    else ClosingCount(closers[..|closers| - 1]) + if closers[|closers| - 1] != Returned then 1 else 0
  }

  lemma {:induction false} CallingUpdate(acceptors: seq<Acceptor>, i: nat, a: Acceptor)
    requires i < |acceptors|
    ensures CallingCount(acceptors[i := a]) + (if acceptors[i] == Calling then 1 else 0)
         == CallingCount(acceptors) + if a == Calling then 1 else 0
  {
    var n := |acceptors| - 1;
    if i == n {
      assert acceptors[i := a][..n] == acceptors[..n];
    } else {
      CallingUpdate(acceptors[..n], i, a);
      assert acceptors[i := a][..n] == acceptors[..n][i := a];
    }
  }

  lemma {:induction false} ClosingUpdate(closers: seq<Closer>, i: nat, c: Closer)
    requires i < |closers|
    ensures ClosingCount(closers[i := c]) + (if closers[i] != Returned then 1 else 0)
         == ClosingCount(closers) + if c != Returned then 1 else 0
  {
    var n := |closers| - 1;
    if i == n {
      assert closers[i := c][..n] == closers[..n];
    } else {
      ClosingUpdate(closers[..n], i, c);
      assert closers[i := c][..n] == closers[..n][i := c];
    }
  }

  /** How many steps are left once the routine has committed to closing. */
  function Rank(s: State): nat {
    Distance(s) + CallingCount(s.acceptors) + ClosingCount(s.closers)
  }

  /** A committed routine stays committed and every step of anybody brings the end nearer. */
  lemma {:induction false} CommittedStep(s: State, st: Step)
    requires Inv(s) && Committed(s.routine) && Enabled(s, st)
    ensures s.abortFailed ==> Do(s, st).abortFailed
    ensures !Do(s, st).abortFailed ==> Committed(Do(s, st).routine) && Rank(Do(s, st)) < Rank(s)
  {
    hide CallingCount, ClosingCount;
    if st.Finish? {
      assert PipeInv(s, st.p);
    }
    if st.Respond? || st.AcceptRefused? {
      CallingUpdate(s.acceptors, st.a, Do(s, st).acceptors[st.a]);
    }
    if st.CloserReturns? {
      ClosingUpdate(s.closers, st.c, Returned);
    }
  }

  /** A Close call that was taken stays taken until it returns. */
  lemma {:induction false} TakenStep(s: State, st: Step, c: nat)
    requires Enabled(s, st) && c < |s.closers| && s.closers[c] != Closing
    ensures |Do(s, st).closers| == |s.closers| && Do(s, st).closers[c] != Closing
    ensures s.abortFailed ==> Do(s, st).abortFailed
  {
  }

  lemma {:induction false} FailureStays(s: State, run: seq<Step>, t: State)
    requires Runs(s, run, t)
    ensures s.abortFailed ==> t.abortFailed
    decreases |run|
  {
    if run != [] {
      FailureStays(Do(s, run[0]), run[1..], t);
    }
  }

  /**
   Once a Close call has been taken every run is short, and when it can go no further Close has
   returned, unless connectPipe failed in some way other than ErrFileClosed on the closed pipe.
   */
  lemma {:induction false} CloseReturns(s: State, run: seq<Step>, t: State, c: nat)
    requires Inv(s) && c < |s.closers| && s.closers[c] != Closing && Committed(s.routine)
    requires Runs(s, run, t) && !t.abortFailed
    ensures |run| + Rank(t) <= Rank(s)
    ensures |t.closers| == |s.closers|
    ensures Quiet(t) ==> t.closers[c] == Returned && t.routine == Ended && t.firstCloses == 1
    decreases |run|
  {
    hide Inv, Enabled, Do, Rank, Committed;
    if run != [] {
      StepKeeps(s, run[0]);
      CommittedStep(s, run[0]);
      TakenStep(s, run[0], c);
      FailureStays(Do(s, run[0]), run[1..], t);
      CloseReturns(Do(s, run[0]), run[1..], t, c);
    } else {
      CommittedMoves(t, c);
    }
  }

  /** Nothing but the return of Close is left at the end. */
  lemma {:induction false} CommittedMoves(t: State, c: nat)
    requires Inv(t) && Committed(t.routine) && c < |t.closers| && t.closers[c] != Closing
    ensures Quiet(t) ==> t.closers[c] == Returned && t.routine == Ended && t.firstCloses == 1
  {
    var r := t.routine;
    if r.Aborted? {
      assert PipeInv(t, r.p);
    } else if r.Responding? {
      assert AcceptorInv(t, r.a);
    }
    var st :=
      if r.Aborting? then ClosePipe
      else if r.Aborted? then (if t.pipes[r.p].goroutine == Running then Finish(r.p, FileClosed) else ReceiveAborted)
      else if r.Responding? then Respond(r.a)
      else if r == Exiting then CloseFirst
      else if r == Notifying then CloseDone
      else CloserReturns(c);
    assert Enabled(t, st) || (r == Ended && t.closers[c] == Returned);
  }

  /**
   A Close call that waits moves on, unless connectPipe failed in some way other than
   ErrFileClosed when its pipe was closed.
   */
  lemma {:induction false} WaitingCloseMovesOn(t: State, c: nat)
    requires Reachable(t) && c < |t.closers| && t.closers[c] == AwaitDone
    ensures !t.abortFailed ==> Committed(t.routine) && !Quiet(t)
  {
    ReachableInv(t);
    assert CloserInv(t, t.closers[c]);
    if !t.abortFailed {
      CommittedMoves(t, c);
    }
  }

  /** The same for a Close call that is waiting in a reachable state; at most six steps are the routine's. */
  lemma {:induction false} WaitingCloseReturns(s: State, run: seq<Step>, t: State, c: nat)
    requires Reachable(s) && c < |s.closers| && s.closers[c] == AwaitDone && Runs(s, run, t) && !t.abortFailed
    ensures Distance(s) <= 6 && |run| <= 6 + |s.acceptors| + |s.closers| && |t.closers| == |s.closers|
    ensures Quiet(t) ==> t.closers[c] == Returned && t.routine == Ended && t.firstCloses == 1
  {
    hide Runs, Committed, Quiet;
    ReachableInv(s);
    FailureStays(s, run, t);
    assert CloserInv(s, s.closers[c]);
    CloseReturns(s, run, t, c);
    CountBounds(s.acceptors, s.closers);
  }

  lemma {:induction false} CountBounds(acceptors: seq<Acceptor>, closers: seq<Closer>)
    ensures CallingCount(acceptors) <= |acceptors| && ClosingCount(closers) <= |closers|
    decreases |acceptors| + |closers|
  {
    if acceptors != [] {
      CountBounds(acceptors[..|acceptors| - 1], closers);
    } else if closers != [] {
      CountBounds(acceptors, closers[..|closers| - 1]);
    }
  }

  /** After such a failure a Close call can wait for ever. */
  lemma CloseCanHang() returns (s: State, run: seq<Step>, t: State)
    ensures Init(s) && Runs(s, run, t)
    ensures t.abortFailed && t.closers == [AwaitDone] && Quiet(t)
  {
    s := State(Select, [Calling], [Closing], [], 0, false, false);
    var s1 := State(Trying(0), [Waiting], [Closing], [], 0, false, false);
    var s2 := State(Connecting(0, 0), [Waiting], [Closing], [Pipe(Owner.Routine, Running, 0)], 0, false, false);
    var s3 := State(Aborting(0, 0), [Waiting], [AwaitDone], [Pipe(Owner.Routine, Running, 0)], 0, false, false);
    var s4 := State(Aborted(0, 0), [Waiting], [AwaitDone], [Pipe(Closed, Running, 1)], 0, false, false);
    var s5 := State(Aborted(0, 0), [Waiting], [AwaitDone], [Pipe(Closed, Blocked(OtherError), 1)], 0, false, false);
    var s6 := State(Responding(0, Failure), [Waiting], [AwaitDone], [Pipe(Closed, Gone, 1)], 0, false, true);
    t := State(Select, [Failed], [AwaitDone], [Pipe(Closed, Gone, 1)], 0, false, true);
    assert Runs(t, [], t);
    hide Runs, Quiet, Do, Enabled;
    HungForGood(t);
    run := [];
    LastSteps(s4, s5, s6, t);
    run := [Finish(0, OtherError)] + ([ReceiveAborted] + ([Respond(0)] + []));
    FirstSteps(s, s1, s2, s3, s4);
    OneStep(s3, ClosePipe, s4, run, t);
    run := [ClosePipe] + run;
    OneStep(s2, AbortFor(0), s3, run, t);
    run := [AbortFor(0)] + run;
    OneStep(s1, Make, s2, run, t);
    run := [Make] + run;
    OneStep(s, TakeAccept(0), s1, run, t);
    run := [TakeAccept(0)] + run;
  }

  lemma FirstSteps(s: State, s1: State, s2: State, s3: State, s4: State)
    requires s == State(Select, [Calling], [Closing], [], 0, false, false)
    requires s1 == State(Trying(0), [Waiting], [Closing], [], 0, false, false)
    requires s2 == State(Connecting(0, 0), [Waiting], [Closing], [Pipe(Owner.Routine, Running, 0)], 0, false, false)
    requires s3 == State(Aborting(0, 0), [Waiting], [AwaitDone], [Pipe(Owner.Routine, Running, 0)], 0, false, false)
    requires s4 == State(Aborted(0, 0), [Waiting], [AwaitDone], [Pipe(Closed, Running, 1)], 0, false, false)
    ensures Enabled(s, TakeAccept(0)) && Do(s, TakeAccept(0)) == s1
    ensures Enabled(s1, Make) && Do(s1, Make) == s2
    ensures Enabled(s2, AbortFor(0)) && Do(s2, AbortFor(0)) == s3
    ensures Enabled(s3, ClosePipe) && Do(s3, ClosePipe) == s4
  {
  }

  lemma LastSteps(s4: State, s5: State, s6: State, t: State)
    requires s4 == State(Aborted(0, 0), [Waiting], [AwaitDone], [Pipe(Closed, Running, 1)], 0, false, false)
    requires s5 == State(Aborted(0, 0), [Waiting], [AwaitDone], [Pipe(Closed, Blocked(OtherError), 1)], 0, false, false)
    requires s6 == State(Responding(0, Failure), [Waiting], [AwaitDone], [Pipe(Closed, Gone, 1)], 0, false, true)
    requires t == State(Select, [Failed], [AwaitDone], [Pipe(Closed, Gone, 1)], 0, false, true)
    ensures Runs(s4, [Finish(0, OtherError)] + ([ReceiveAborted] + ([Respond(0)] + [])), t)
  {
    assert Runs(t, [], t);
    hide Runs;
    OneStep(s6, Respond(0), t, [], t);
    OneStep(s5, ReceiveAborted, s6, [Respond(0)] + [], t);
    OneStep(s4, Finish(0, OtherError), s5, [ReceiveAborted] + ([Respond(0)] + []), t);
  }

  lemma HungForGood(t: State)
    requires t == State(Select, [Failed], [AwaitDone], [Pipe(Closed, Gone, 1)], 0, false, true)
    ensures Quiet(t)
  {
  }

  lemma OneStep(s: State, st: Step, s1: State, run: seq<Step>, t: State)
    requires Enabled(s, st) && Do(s, st) == s1 && Runs(s1, run, t)
    ensures Runs(s, [st] + run, t)
  {
    assert ([st] + run)[1..] == run;
  }
}
