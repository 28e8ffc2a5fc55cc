/**
 End of file over a message-mode pipe (win32MessageBytePipe in pipe.go): CloseWrite sends a
 zero-byte message, and the reader turns it into io.EOF for good.
 */
module MessagePipe {
  import opened Bits

  datatype Error = Ok | Eof | WriteClosed | SystemError | Waits

  // ---------------------------------------------------------------- one direction of a pipe

  /** A message queue with the flags of its two ends, and everything written to it and read from it so far. */
  datatype Link = Link(
    queue: seq<seq<byte>>, writeClosed: bool, readEOF: bool, sent: seq<byte>, received: seq<byte>)

  /** What Write puts into the queue: nothing after CloseWrite, and nothing for an empty slice. */
  function WriteEffect(queue: seq<seq<byte>>, writeClosed: bool, b: seq<byte>): seq<seq<byte>> {
    if writeClosed || b == [] then queue else queue + [b]
  }

  /** What CloseWrite puts into the queue, if the system lets it. */
  function CloseWriteEffect(queue: seq<seq<byte>>, writeClosed: bool, works: bool): seq<seq<byte>> {
    if writeClosed || !works then queue else queue + [[]]
  }

  /** Taking `k` bytes off the first message; what is left of it stays first. */
  function TakeEffect(queue: seq<seq<byte>>, k: nat): seq<seq<byte>>
    requires queue != [] && k <= |queue[0]|
  {
    if k == |queue[0]| then queue[1..] else [queue[0][k..]] + queue[1..]
  }

  datatype Step = Write(b: seq<byte>) | CloseWrite(works: bool) | Read(n: nat, k: nat)

  /** A read waits for a message. It gets at least one byte of a non-empty message and at most its buffer. */
  ghost predicate Enabled(l: Link, st: Step) {
    match st
    case Write(_) => true
    case CloseWrite(_) => true
    case Read(n, k) =>
      n > 0 && (l.readEOF || (l.queue != [] && k <= n && k <= |l.queue[0]| && (l.queue[0] != [] ==> k > 0)))
  }

  ghost function Do(l: Link, st: Step): Link
    requires Enabled(l, st)
  {
    match st
    case Write(b) =>
      l.(queue := WriteEffect(l.queue, l.writeClosed, b), sent := if l.writeClosed then l.sent else l.sent + b)
    case CloseWrite(works) =>
      l.(queue := CloseWriteEffect(l.queue, l.writeClosed, works), writeClosed := l.writeClosed || works)
    case Read(_, k) =>
      if l.readEOF then l
      else l.(queue := TakeEffect(l.queue, k), received := l.received + l.queue[0][..k], readEOF := k == 0)
  }

  /** What a read returns. */
  ghost function ReadResult(l: Link, st: Step): (seq<byte>, Error)
    requires Enabled(l, st) && st.Read?
  {
    if l.readEOF || st.k == 0 then ([], Eof) else (l.queue[0][..st.k], Ok)
  }

  ghost predicate Runs(l: Link, run: seq<Step>, m: Link)
    decreases |run|
  {
    if run == [] then l == m
    else Enabled(l, run[0]) && Runs(Do(l, run[0]), run[1..], m)
  }

  const FRESH := Link([], false, false, [], [])

  // ---------------------------------------------------------------- the invariant

  function Flatten(q: seq<seq<byte>>): seq<byte> {
    if q == [] then [] else q[0] + Flatten(q[1..])
  }

  lemma {:induction false} FlattenSnoc(q: seq<seq<byte>>, m: seq<byte>)
    ensures Flatten(q + [m]) == Flatten(q) + m
  {
    if q == [] {
      assert q + [m] == [m] && Flatten([m]) == m + Flatten([]);
    } else {
      assert (q + [m])[1..] == q[1..] + [m];
      FlattenSnoc(q[1..], m);
    }
  }

  /** Messages are not empty, except the last one after CloseWrite. */
  ghost predicate Shape(l: Link) {
    && (forall i :: 0 <= i < |l.queue| ==> l.queue[i] != [] || (i == |l.queue| - 1 && l.writeClosed))
    && (l.writeClosed && !l.readEOF ==> l.queue != [] && l.queue[|l.queue| - 1] == [])
    && (l.readEOF ==> l.writeClosed && l.queue == [])
  }

  ghost predicate Inv(l: Link) {
    Shape(l) && l.sent == l.received + Flatten(l.queue)
  }

  lemma {:induction false} TakeFlatten(q: seq<seq<byte>>, k: nat)
    requires q != [] && k <= |q[0]|
    ensures Flatten(q) == q[0][..k] + Flatten(TakeEffect(q, k))
  {
    if k == |q[0]| {
      assert q[0][..k] == q[0];
    } else {
      assert TakeEffect(q, k)[1..] == q[1..];
      assert q[0] == q[0][..k] + q[0][k..];
    }
  }

  lemma {:induction false} StepKeeps(l: Link, st: Step)
    requires Inv(l) && Enabled(l, st)
    ensures Inv(Do(l, st))
  {
    hide Flatten;
    match st
    case Write(b) =>
      if !l.writeClosed {
        if b != [] {
          FlattenSnoc(l.queue, b);
        }
        assert l.sent + b == l.received + (Flatten(l.queue) + b);
      }
    case CloseWrite(_) =>
      FlattenSnoc(l.queue, []);
    case Read(_, k) =>
      if !l.readEOF {
        TakeFlatten(l.queue, k);
        assert (l.received + l.queue[0][..k]) + Flatten(TakeEffect(l.queue, k))
            == l.received + (l.queue[0][..k] + Flatten(TakeEffect(l.queue, k)));
      }
  }

  lemma {:induction false} RunKeeps(l: Link, run: seq<Step>, m: Link)
    requires Inv(l) && Runs(l, run, m)
    ensures Inv(m)
    decreases |run|
  {
    hide Inv, Do, Enabled;
    if run != [] {
      StepKeeps(l, run[0]);
      RunKeeps(Do(l, run[0]), run[1..], m);
    }
  }

  // ---------------------------------------------------------------- what a user of the pipe sees

  /** In every interleaving the bytes read are a prefix of the bytes written. */
  lemma {:induction false} ReadsAreAPrefix(run: seq<Step>, m: Link)
    requires Runs(FRESH, run, m)
    ensures m.received <= m.sent
  {
    RunKeeps(FRESH, run, m);
  }

  /** A read returns EOF exactly when the writer has closed and everything it wrote has been read. */
  lemma {:induction false} EofExactly(run: seq<Step>, m: Link, st: Step)
    requires Runs(FRESH, run, m) && Enabled(m, st) && st.Read?
    ensures ReadResult(m, st).1 == Eof <==> m.writeClosed && m.received == m.sent
  {
    RunKeeps(FRESH, run, m);
    if !m.readEOF {
      assert m.queue[0] == [] ==> |m.queue| == 1;
      assert Flatten(m.queue) == m.queue[0] + Flatten(m.queue[1..]);
      if m.queue[0] != [] {
        assert |m.sent| == |m.received| + |Flatten(m.queue)|;
      } else {
        assert m.queue[1..] == [];
      }
    }
  }

  /** End of file is for good: no later run brings data, and every later read returns EOF. */
  lemma {:induction false} EofIsPermanent(l: Link, run: seq<Step>, m: Link)
    requires Inv(l) && l.readEOF && Runs(l, run, m)
    ensures m.readEOF && m.received == l.received && m.sent == l.sent
    ensures forall st :: Enabled(m, st) && st.Read? ==> ReadResult(m, st) == ([], Eof)
    decreases |run|
  {
    if run != [] {
      StepKeeps(l, run[0]);
      EofIsPermanent(Do(l, run[0]), run[1..], m);
    }
  }

  /** A zero-length write changes nothing at all. */
  lemma EmptyWriteIsNothing(l: Link)
    ensures Do(l, Write([])) == l
  {
    assert l.sent + [] == l.sent;
  }

  // ---------------------------------------------------------------- the source's methods

  /** The kernel's side: a queue of messages in one direction, and all that has gone through it. */
  class Channel {
    var queue: seq<seq<byte>>
    ghost var sent: seq<byte>
    ghost var received: seq<byte>

    constructor ()
      ensures queue == [] && sent == [] && received == []
    {
      queue, sent, received := [], [], [];
    }
  }

  /** The link from one end of a pipe to the other. */
  ghost function LinkOf(writer: MessageBytePipe, reader: MessageBytePipe): Link
    requires writer.out == reader.in_
    reads writer, reader, writer.out
  {
    Link(writer.out.queue, writer.writeClosed, reader.readEOF, writer.out.sent, writer.out.received)
  }

  /** Two ends of a new pipe: the link is a fresh one, in both directions. */
  method NewPipe() returns (a: MessageBytePipe, b: MessageBytePipe)
    ensures fresh(a) && fresh(b) && a.out == b.in_ && b.out == a.in_
    ensures LinkOf(a, b) == FRESH && LinkOf(b, a) == FRESH
  {
    var there := new Channel();
    var back := new Channel();
    a := new MessageBytePipe(there, back);
    b := new MessageBytePipe(back, there);
  }

  class MessageBytePipe {
    const out: Channel
    const in_: Channel
    var writeClosed: bool
    var readEOF: bool

    constructor (out: Channel, in_: Channel)
      ensures this.out == out && this.in_ == in_ && !writeClosed && !readEOF
    {
      this.out, this.in_ := out, in_;
      writeClosed, readEOF := false, false;
    }

    /**
     CloseWrite; `works` is whether Flush and the zero-byte write succeed. For the reader `peer` it
     is a CloseWrite step.
     */
    method CloseWrite(works: bool, ghost peer: MessageBytePipe) returns (e: Error)
      requires peer.in_ == out
      modifies this`writeClosed, out
      ensures LinkOf(this, peer) == Do(old(LinkOf(this, peer)), Step.CloseWrite(works))
      ensures e == if old(writeClosed) then WriteClosed else if works then Ok else SystemError
      ensures e == Ok ==> writeClosed
    {
      if writeClosed {
        return WriteClosed;
      }
      if !works {
        return SystemError;
      }
      out.queue := out.queue + [[]];
      writeClosed := true;
      return Ok;
    }

    /** Write: a Write step for the reader `peer`. It reports all bytes written, or none after CloseWrite. */
    method Write(b: seq<byte>, ghost peer: MessageBytePipe) returns (n: nat, e: Error)
      requires peer.in_ == out
      modifies out
      ensures LinkOf(this, peer) == Do(old(LinkOf(this, peer)), Step.Write(b))
      ensures e == Ok || e == WriteClosed
      ensures n <= |b| && out.sent == old(out.sent) + b[..n] && (e == Ok ==> n == |b|)
      ensures e == WriteClosed <==> writeClosed
    {
      assert out.sent + [] == out.sent;
      if writeClosed {
        return 0, WriteClosed;
      }
      if |b| == 0 {
        return 0, Ok;
      }
      out.queue := out.queue + [b];
      out.sent := out.sent + b;
      return |b|, Ok;
    }

    /**
     Read into a buffer of `n` bytes: a Read step from the writer `peer`, and its result. Without a
     message the call waits, which is the outcome Waits here. A read into an empty buffer takes no byte,
     is never the end of file, and consumes an empty message.
     */
    method Read(n: nat, ghost peer: MessageBytePipe) returns (data: seq<byte>, e: Error)
      requires peer.out == in_
      modifies this`readEOF, in_
      ensures e == Waits <==> !old(readEOF) && old(in_.queue) == []
      ensures e == Waits ==> data == [] && LinkOf(peer, this) == old(LinkOf(peer, this))
      ensures n > 0 && e != Waits ==>
                var l, st := old(LinkOf(peer, this)), Step.Read(n, |data|);
                Enabled(l, st) && LinkOf(peer, this) == Do(l, st) && (data, e) == ReadResult(l, st)
      ensures in_.received == old(in_.received) + data
      ensures n == 0 && e != Waits ==> data == [] && readEOF == old(readEOF) && e == if readEOF then Eof else Ok
      ensures n == 0 && e == Ok ==> in_.queue == TakeEffect(old(in_.queue), 0)
    {
      data := [];
      assert in_.received + [] == in_.received;
      if readEOF {
        return [], Eof;
      }
      if in_.queue == [] {
        return [], Waits;
      }
      var m := in_.queue[0];
      var k: nat :| k <= n && k <= |m| && (m != [] && n > 0 ==> k > 0);
      data := m[..k];
      in_.queue := TakeEffect(in_.queue, k);
      in_.received := in_.received + data;
      // win32File.Read reports a zero-byte read into a non-empty buffer as io.EOF.
      if k == 0 && n != 0 {
        readEOF := true;
        return data, Eof;
      }
      return data, Ok;
    }
  }
}
