/** Reading the code lengths of a block: readTree and readTrees of wim/lzx/lzx.go. */
module LzxTrees {
  import opened Bits
  import opened Wrappers
  import opened Huffman
  import opened HuffmanTable
  import opened LzxReader
  import Spec = LzxSpec

  /** How a decoding step ends; the panics of the source are outcomes here. */
  datatype Outcome = Done | Failed(error: Error) | Panicked(why: Panic)
  datatype Panic = NilTree | WindowOverflow | WordRemains

  /**
   Failing to decode is justified: there is nothing to decode, or a read missed what is left near
   the end of the input.
   */
  ghost predicate Excused<T>(r: Option<(T, Spec.Stream)>, lost: bool) {
    r.Some? ==> lost && |r.value.1.bits| < 96
  }

  lemma NotLost<T>(r: Option<(T, Spec.Stream)>, lost: bool)
    requires Excused(r, lost) && r.Some?
    ensures lost
  {
  }

  ghost function Prepend(vs: seq<nat>, r: Option<(seq<nat>, Spec.Stream)>): Option<(seq<nat>, Spec.Stream)> {
    if r.None? then None else Some((vs + r.value.0, r.value.1))
  }

  lemma PrependNothing(r: Option<(seq<nat>, Spec.Stream)>)
    ensures Prepend([], r) == r
  {
    if r.Some? {
      assert [] + r.value.0 == r.value.0;
    }
  }

  lemma PrependTwice(a: seq<nat>, b: seq<nat>, r: Option<(seq<nat>, Spec.Stream)>)
    ensures Prepend(a, Prepend(b, r)) == Prepend(a + b, r)
  {
    if r.Some? {
      assert a + (b + r.value.0) == (a + b) + r.value.0;
    }
  }

  /** `n` fields of `width` bits, without looking at errors in between. */
  method ReadFields(f: Decompressor, n: nat, width: nat) returns (vs: seq<nat>)
    requires f.Reading() && width <= 16 && n <= 20 && f.Room(n)
    modifies f`unread, f`portions, f`err, f`bo, f`bv, f`c, f`nbits, f`input, f`lost, f.b
    ensures old(f.lost) ==> f.lost
    ensures f.Reading() && |vs| == n && forall i :: 0 <= i < n ==> vs[i] < Pow2(width)
    ensures old(f.err).Ok? && f.err.Ok? ==> Spec.GetFields(old(f.input), n, width) == Some((vs, f.input))
    ensures old(f.err).Ok? && !f.err.Ok? ==> Excused(Spec.GetFields(old(f.input), n, width), f.lost)
    ensures !old(f.err).Ok? ==> f.err == old(f.err)
    ensures !f.err.Ok? ==> f.bo <= (if old(f.err).Ok? then 0 else old(f.bo)) + 2 * n
  {
    hide Decompressor.Reading, Spec.GetBits, Pow2;
    ghost var whole := Spec.GetFields(f.input, n, width);
    ghost var ok := f.err.Ok?;
    vs := [];
    PrependNothing(whole);
    for i := 0 to n
      invariant f.Reading() && |vs| == i && forall j :: 0 <= j < i ==> vs[j] < Pow2(width)
      invariant f.err.Ok? ==> ok && whole == Prepend(vs, Spec.GetFields(f.input, n - i, width))
      invariant ok && !f.err.Ok? ==> Excused(whole, f.lost)
      invariant (old(f.lost) ==> f.lost) && (!ok ==> f.err == old(f.err))
      invariant !f.err.Ok? ==> f.bo <= (if ok then 0 else old(f.bo)) + 2 * i
    {
      ghost var before := f.input;
      var v := f.GetBits(width);
      if f.err == Ok {
        PrependTwice(vs, [v], Spec.GetFields(f.input, n - i - 1, width));
      }
      vs := vs + [v];
    }
    assert vs + [] == vs;
  }

  /** Sets the positions a run covers. */
  method StoreRun(a: array<nat>, i: nat, run: Spec.Run)
    requires i + Spec.RunLength(run) <= a.Length
    requires forall k :: 0 <= k < a.Length ==> a[k] <= 16
    modifies a
    ensures a[..] == old(a[..i]) + Spec.Expand(run, old(a[i])) + old(a[i + Spec.RunLength(run)..])
    ensures forall k :: 0 <= k < a.Length ==> a[k] <= 16
  {
    ghost var was := a[..];
    var l := if run.Zero? then 0 else (a[i] + 17 - run.c) % 17;
    var n := Spec.RunLength(run);
    for j := 0 to n
      invariant forall k :: 0 <= k < a.Length ==> a[k] == if i <= k < i + j then l else was[k]
    {
      a[i + j] := l;
    }
    assert Spec.Expand(run, was[i]) == seq(n, _ => l);
    assert a[..] == was[..i] + seq(n, _ => l) + was[i + n..];
  }

  /** Reads one instruction of the code-length encoding, for at most `room` positions. */
  method ReadRun(f: Decompressor, h: Table, ghost pre: seq<nat>, room: nat) returns (run: Spec.Run, e: Outcome)
    requires f.Reading() && f.Room(3) && |pre| == 20 && Lengths(pre) && TableFor(h, pre)
    requires room > 0
    modifies f`unread, f`portions, f`err, f`bo, f`bv, f`c, f`nbits, f`input, f`lost, f.b
    ensures old(f.lost) ==> f.lost
    ensures f.Reading() && !e.Panicked?
    ensures e.Done? ==> old(f.err).Ok? && Spec.RunLength(run) <= room
    ensures e.Done? && f.err.Ok? ==> Spec.GetRun(pre, old(f.input)) == Some((run, f.input))
    ensures e.Done? && !f.err.Ok? ==> Excused(Spec.GetRun(pre, old(f.input)), f.lost)
    ensures e.Failed? && old(f.err).Ok? ==>
              || Excused(Spec.GetRun(pre, old(f.input)), f.lost)
              || Spec.RunLength(Spec.GetRun(pre, old(f.input)).value.0) > room
    ensures !f.err.Ok? ==> f.bo <= (if old(f.err).Ok? then 0 else old(f.bo)) + 6
    ensures !old(f.err).Ok? ==> f.lost == old(f.lost)
    ensures e.Failed? ==> e.error != Eof
    ensures e.Done? && f.err.Ok? && Spec.Narrow(pre) && |f.input.bits| >= 32 ==> f.nbits >= 15
  {
    hide Spec.GetCode, TableFor, Lengths, Decompressor.Reading, Spec.GetBits, Pow2;
    assert Pow2(4) == 16 && Pow2(5) == 32 && Pow2(1) == 2 by {
      SmallPowers();
    }
    run := Spec.Delta(0);
    if f.err == Ok {
      f.InputLength();
      CodeSymbol(pre, f.input);
    }
    f.NoEof();
    var c := f.GetCode(h, pre);
    f.NoEof();
    if f.err != Ok {
      return run, Failed(f.err);
    }
    if c <= 16 {
      run := Spec.Delta(c);
    } else if c == 17 {
      var zeroes := f.GetBits(4);
      zeroes := zeroes + 4;
      if zeroes > room {
        return run, Failed(Corrupt);
      }
      run := Spec.Zero(zeroes);
    } else if c == 18 {
      var zeroes := f.GetBits(5);
      zeroes := zeroes + 20;
      if zeroes > room {
        return run, Failed(Corrupt);
      }
      run := Spec.Zero(zeroes);
    } else {
      var same := f.GetBits(1);
      same := same + 4;
      if same > room {
        return run, Failed(Corrupt);
      }
      c := f.GetCode(h, pre);
      if c > 16 {
        return run, Failed(Corrupt);
      }
      run := Spec.Same(same, c);
    }
    e := Done;
  }

  /** A decoded symbol has a codeword. */
  lemma CodeSymbol(lens: seq<nat>, s: Spec.Stream)
    ensures Spec.GetCode(lens, s).Some? ==>
              Spec.GetCode(lens, s).value.0 < |lens| && lens[Spec.GetCode(lens, s).value.0] > 0
  {
  }

  /** One run done, the rest of the tree to do. */
  lemma {:induction false} RunStep(pre: seq<nat>, s: Spec.Stream, was: seq<nat>, lo: nat, i: nat, hi: nat,
                                   before: seq<nat>, after: seq<nat>, run: Spec.Run, s1: Spec.Stream)
    requires lo <= i < hi <= |was| == |before| && i + Spec.RunLength(run) <= hi
    requires before[i..] == was[i..]
    requires Spec.GetRun(pre, s) == Some((run, s1))
    requires after == before[..i] + Spec.Expand(run, before[i]) + before[i + Spec.RunLength(run)..]
    ensures var n := Spec.RunLength(run);
            |after| == |was| &&
            Prepend(before[lo..i], Spec.GetRuns(pre, s, was[i..hi]))
            == Prepend(after[lo..i + n], Spec.GetRuns(pre, s1, was[i + n..hi]))
  {
    hide Spec.GetRun, Spec.RunLength, Spec.Expand, Prepend;
    var n := Spec.RunLength(run);
    var todo, rest := was[i..hi], was[i + n..hi];
    assert todo[0] == was[i] == before[i..][0] == before[i];
    assert todo[n..] == rest;
    assert Spec.GetRuns(pre, s, todo) == Prepend(Spec.Expand(run, before[i]), Spec.GetRuns(pre, s1, rest)) by {
      PrependDef(Spec.Expand(run, before[i]), Spec.GetRuns(pre, s1, rest));
    }
    PrependTwice(before[lo..i], Spec.Expand(run, before[i]), Spec.GetRuns(pre, s1, rest));
    assert after[lo..i + n] == before[lo..i] + Spec.Expand(run, before[i]);
  }

  lemma StoreFrame(was: seq<nat>, lo: nat, i: nat, n: nat, before: seq<nat>, run: seq<nat>, after: seq<nat>)
    requires lo <= i && i + n <= |was| == |before| && |run| == n
    requires before[i..] == was[i..] && before[..lo] == was[..lo]
    requires after == before[..i] + run + before[i + n..]
    ensures |after| == |was| && after[i + n..] == was[i + n..] && after[..lo] == was[..lo]
  {
    assert after[i + n..] == before[i + n..] == before[i..][n..] == was[i..][n..];
    assert after[..lo] == before[..lo];
  }

  lemma PrependDef(vs: seq<nat>, r: Option<(seq<nat>, Spec.Stream)>)
    ensures Prepend(vs, r) == if r.None? then None else Some((vs + r.value.0, r.value.1))
  {
  }

  /** No run, no tree. */
  lemma {:induction false} RunsExcused(pre: seq<nat>, s: Spec.Stream, prev: seq<nat>, done: seq<nat>, lost: bool)
    requires prev != []
    requires Excused(Spec.GetRun(pre, s), lost) || Spec.RunLength(Spec.GetRun(pre, s).value.0) > |prev|
    ensures Excused(Prepend(done, Spec.GetRuns(pre, s, prev)), lost)
  {
  }

  lemma RunsDone(pre: seq<nat>, s: Spec.Stream, done: seq<nat>)
    ensures Prepend(done, Spec.GetRuns(pre, s, [])) == Some((done, s))
  {
    assert done + [] == done;
  }

  /** The runs up to `i` are stored in `a`, and those from `i` on come next in the stream `s`. */
  ghost predicate Storing(whole: Option<(seq<nat>, Spec.Stream)>, was: seq<nat>, a: seq<nat>, lo: nat, i: nat, hi: nat,
                          pre: seq<nat>, s: Spec.Stream)
  {
    && lo <= i <= hi <= |was| == |a|
    && whole == Prepend(a[lo..i], Spec.GetRuns(pre, s, was[i..hi]))
  }

  /** One turn of the loop of readTree. */
  method ReadNextRun(f: Decompressor, h: Table, ghost pre: seq<nat>, a: array<nat>, lo: nat, i: nat, hi: nat,
                     ghost was: seq<nat>, ghost whole: Option<(seq<nat>, Spec.Stream)>) returns (n: nat, e: Outcome)
    requires f.Reading() && |pre| == 20 && Lengths(pre) && TableFor(h, pre) && (!f.err.Ok? ==> f.bo <= 6)
    requires lo <= i < hi <= a.Length == |was| && forall k :: 0 <= k < a.Length ==> a[k] <= 16
    requires a[..lo] == was[..lo] && a[i..] == was[i..]
    requires if f.err.Ok? then Storing(whole, was, a[..], lo, i, hi, pre, f.input) else Excused(whole, f.lost)
    modifies f`unread, f`portions, f`err, f`bo, f`bv, f`c, f`nbits, f`input, f`lost, f.b, a
    ensures f.Reading() && !e.Panicked? && (old(f.lost) ==> f.lost)
    ensures forall k :: 0 <= k < a.Length ==> a[k] <= 16
    ensures a[..lo] == was[..lo] && a[hi..] == was[hi..]
    ensures e.Done? ==>
              && 0 < n <= hi - i && old(f.err).Ok? && a[i + n..] == was[i + n..]
              && if f.err.Ok? then Storing(whole, was, a[..], lo, i + n, hi, pre, f.input) else Excused(whole, f.lost)
    ensures e.Failed? ==> e.error != Eof && Excused(whole, f.lost)
    ensures !f.err.Ok? ==> f.bo <= if old(f.err).Ok? then 6 else 12
    ensures e.Done? && f.err.Ok? && Spec.Narrow(pre) && |f.input.bits| >= 32 ==> f.nbits >= 15
  {
    hide Spec.Narrow, Decompressor.Reading, TableFor, Lengths, Spec.GetRun, Spec.GetRuns, Spec.RunLength, Spec.Expand;
    hide Prepend;
    hide Excused;
    ghost var before, s := a[..], f.input;
    ghost var ok := f.err.Ok?;
    assert a[hi..] == a[i..][hi - i..] == was[hi..];
    var run: Spec.Run;
    run, e := ReadRun(f, h, pre, hi - i);
    n := Spec.RunLength(run);
    if ok && (f.err != Ok || e != Done) {
      RunsExcused(pre, s, was[i..hi], a[lo..i], f.lost);
    }
    if e != Done {
      return;
    }
    StoreRun(a, i, run);
    StoreFrame(was, lo, i, n, before, Spec.Expand(run, before[i]), a[..]);
    assert a[hi..] == a[i + n..][hi - i - n..] == was[hi..];
    if f.err == Ok {
      RunStep(pre, s, was, lo, i, hi, before, a[..], run, f.input);
    }
  }

  lemma StoringStart(was: seq<nat>, lo: nat, hi: nat, pre: seq<nat>, s: Spec.Stream)
    requires lo <= hi <= |was|
    ensures Storing(Spec.GetRuns(pre, s, was[lo..hi]), was, was, lo, lo, hi, pre, s)
  {
    hide Spec.GetRuns;
    PrependNothing(Spec.GetRuns(pre, s, was[lo..hi]));
    assert was[lo..lo] == [];
  }

  lemma StoringDone(whole: Option<(seq<nat>, Spec.Stream)>, was: seq<nat>, a: seq<nat>, lo: nat, hi: nat,
                    pre: seq<nat>, s: Spec.Stream)
    requires Storing(whole, was, a, lo, hi, hi, pre, s)
    ensures whole == Some((a[lo..hi], s))
  {
    assert was[hi..hi] == [];
    RunsDone(pre, s, a[lo..hi]);
  }

  /** The loop of readTree. */
  method ReadRuns(f: Decompressor, h: Table, ghost pre: seq<nat>, a: array<nat>, lo: nat, hi: nat) returns (e: Outcome)
    requires f.Reading() && f.err.Ok? && |pre| == 20 && Lengths(pre) && TableFor(h, pre)
    requires lo <= hi <= a.Length && forall k :: 0 <= k < a.Length ==> a[k] <= 16
    modifies f`unread, f`portions, f`err, f`bo, f`bv, f`c, f`nbits, f`input, f`lost, f.b, a
    ensures old(f.lost) ==> f.lost
    ensures f.Reading() && !e.Panicked?
    ensures forall k :: 0 <= k < a.Length ==> a[k] <= 16
    ensures a[..lo] == old(a[..lo]) && a[hi..] == old(a[hi..])
    ensures e.Done? ==> f.err.Ok? && Spec.GetRuns(pre, old(f.input), old(a[lo..hi])) == Some((a[lo..hi], f.input))
    ensures e.Failed? ==> Excused(Spec.GetRuns(pre, old(f.input), old(a[lo..hi])), f.lost)
    ensures !f.err.Ok? ==> f.bo <= 12
    ensures e.Failed? ==> e.error != Eof
    ensures e.Done? && lo < hi && Spec.Narrow(pre) && |f.input.bits| >= 32 ==> f.nbits >= 15
  {
    hide Spec.Narrow, Decompressor.Reading, TableFor, Lengths, Spec.GetRuns, Storing, Excused;
    ghost var was := a[..];
    ghost var whole := Spec.GetRuns(pre, f.input, was[lo..hi]);
    var i := lo;
    StoringStart(was, lo, hi, pre, f.input);
    while i < hi
      invariant lo <= i <= hi && f.Reading() && (old(f.lost) ==> f.lost)
      invariant forall k :: 0 <= k < a.Length ==> a[k] <= 16
      invariant a[..lo] == was[..lo] && a[i..] == was[i..]
      invariant if f.err.Ok? then Storing(whole, was, a[..], lo, i, hi, pre, f.input) else Excused(whole, f.lost)
      invariant !f.err.Ok? ==> f.bo <= 6
      invariant f.err.Ok? && lo < i && Spec.Narrow(pre) && |f.input.bits| >= 32 ==> f.nbits >= 15
    {
      var n;
      n, e := ReadNextRun(f, h, pre, a, lo, i, hi, was, whole);
      if e != Done {
        return;
      }
      i := i + n;
    }
    f.NoEof();
    if f.err != Ok {
      return Failed(f.err);
    }
    StoringDone(whole, was, a[..], lo, hi, pre, f.input);
    e := Done;
  }

  /**
   readTree: replaces the lengths `a[lo..hi]` by the tree the stream encodes against them, every
   position by exactly one run. It panics exactly when the pre-tree it read is unusable.
   */
  method ReadTree(f: Decompressor, a: array<nat>, lo: nat, hi: nat) returns (e: Outcome)
    requires f.Reading() && f.Room(20)
    requires lo <= hi <= a.Length && forall k :: 0 <= k < a.Length ==> a[k] <= 16
    modifies f`unread, f`portions, f`err, f`bo, f`bv, f`c, f`nbits, f`input, f`lost, f.b, a
    ensures old(f.lost) ==> f.lost
    ensures f.Reading()
    ensures forall k :: 0 <= k < a.Length ==> a[k] <= 16
    ensures a[..lo] == old(a[..lo]) && a[hi..] == old(a[hi..])
    ensures e.Done? ==>
              old(f.err).Ok? && f.err.Ok? && Spec.GetTree(old(f.input), old(a[lo..hi])) == Some((a[lo..hi], f.input))
    ensures !e.Done? && old(f.err).Ok? ==> Excused(Spec.GetTree(old(f.input), old(a[lo..hi])), f.lost)
    ensures e.Panicked? ==> e.why == NilTree && old(f.err).Ok? && Spec.BadTree(old(f.input))
    ensures old(f.err).Ok? && Spec.BadTree(old(f.input)) ==> e.Panicked? || f.lost
    ensures e.Failed? ==> e.error != Eof
    ensures var pre := Spec.GetFields(old(f.input), 20, 4);
            e.Done? && lo < hi && pre.Some? && Spec.Narrow(pre.value.0) && |f.input.bits| >= 32 ==> f.nbits >= 15
    ensures !f.err.Ok? ==> f.bo <= (if old(f.err).Ok? then 0 else old(f.bo)) + 40
  {
    hide Decompressor.Reading, Spec.GetRuns, Spec.GetFields, TableFor, Spec.Narrow;
    var pre := ReadFields(f, 20, 4);
    f.NoEof();
    if f.err != Ok {
      return Failed(f.err);
    }
    var table := BuildTable(pre);
    if table == None {
      return Panicked(NilTree);
    }
    e := ReadRuns(f, table.value, pre, a, lo, hi);
  }

  /** The aligned-offset tree, and its table. */
  method ReadAligned(f: Decompressor) returns (h: Table, ghost lens: seq<nat>, e: Outcome)
    requires f.Reading() && f.err.Ok?
    modifies f`unread, f`portions, f`err, f`bo, f`bv, f`c, f`nbits, f`input, f`lost, f.b
    ensures old(f.lost) ==> f.lost
    ensures f.Reading() && !e.Panicked?
    ensures e.Done? ==> |lens| == 8 && Lengths(lens) && TableFor(h, lens)
    ensures e.Done? && f.err.Ok? ==> Spec.GetAligned(old(f.input), true) == Some((Some(lens), f.input))
    ensures !(e.Done? && f.err.Ok?) ==> Excused(Spec.GetAligned(old(f.input), true), f.lost)
    ensures !f.err.Ok? ==> f.bo <= 16
    ensures e.Failed? ==> e.error != Eof
  {
    hide Decompressor.Reading, Spec.GetFields, TableFor, Complete, AllZero, Usable, KraftSum;
    assert Pow2(3) == 8;
    var vs := ReadFields(f, 8, 3);
    lens := vs;
    UsableDef(vs);
    var table := BuildTable(vs);
    if table == None {
      return Table(0, [], []), vs, Failed(Corrupt);
    }
    return table.value, vs, Done;
  }

  lemma MainIs(s: Spec.Stream, was: seq<nat>, lo: seq<nat>, s1: Spec.Stream, hi: seq<nat>, s2: Spec.Stream)
    requires |was| == 496
    ensures Spec.GetTree(s, was[0..256]) == Some((lo, s1)) && Spec.GetTree(s1, was[256..496]) == Some((hi, s2)) ==>
              Spec.GetMain(s, was) == if Usable(lo + hi) then Some((lo + hi, s2)) else None
  {
    hide Spec.GetTree, Usable;
    assert was[0..256] == was[..256] && was[256..496] == was[256..];
  }

  lemma MainExcused(s: Spec.Stream, was: seq<nat>, lost: bool)
    requires |was| == 496
    requires
      || Excused(Spec.GetTree(s, was[0..256]), lost)
      || Excused(Spec.GetTree(Spec.GetTree(s, was[0..256]).value.1, was[256..496]), lost)
    ensures Excused(Spec.GetMain(s, was), lost)
  {
    hide Spec.GetTree, Usable;
    assert was[0..256] == was[..256] && was[256..496] == was[256..];
  }

  /** The two halves of the main tree; whether they form a code is for the caller to see. */
  method ReadMain(f: Decompressor) returns (e: Outcome)
    requires f.Valid() && f.Room(20)
    modifies f`unread, f`portions, f`err, f`bo, f`bv, f`c, f`nbits, f`input, f`lost, f.b, f.mainlens
    ensures old(f.lost) ==> f.lost
    ensures f.Valid()
    ensures e.Done? ==>
              && old(f.err).Ok? && f.err.Ok?
              && Spec.GetMain(old(f.input), old(f.mainlens[..])) ==
                 if Usable(f.mainlens[..]) then Some((f.mainlens[..], f.input)) else None
    ensures !e.Done? && old(f.err).Ok? ==> Excused(Spec.GetMain(old(f.input), old(f.mainlens[..])), f.lost)
    ensures e.Panicked? ==> e.why == NilTree && old(f.err).Ok? && Spec.BadMain(old(f.input), old(f.mainlens[..]))
    ensures old(f.err).Ok? && Spec.BadMain(old(f.input), old(f.mainlens[..])) ==> e.Panicked? || f.lost
    ensures e.Failed? ==> e.error != Eof
  {
    hide Spec.GetTree, Spec.GetMain, Spec.GetFields, Spec.BadTree, Usable, Decompressor.Reading, Excused;
    ghost var was, s := f.mainlens[..], f.input;
    assert was[0..256] == was[..256];
    ghost var ok := f.err.Ok?;
    e := ReadTree(f, f.mainlens, 0, 256);
    if e != Done {
      if ok {
        MainExcused(s, was, f.lost);
        if Spec.GetTree(s, was[..256]).Some? {
          NotLost(Spec.GetTree(s, was[..256]), f.lost);
        }
      }
      return;
    }
    ghost var lo, s1 := f.mainlens[0..256], f.input;
    assert f.mainlens[256..496] == f.mainlens[256..] == was[256..] == was[256..496];
    e := ReadTree(f, f.mainlens, 256, 496);
    if e != Done {
      MainExcused(s, was, f.lost);
      return;
    }
    assert f.mainlens[0..256] == f.mainlens[..256] == lo;
    assert f.mainlens[..] == lo + f.mainlens[256..496];
    MainIs(s, was, lo, s1, f.mainlens[256..496], f.input);
  }

  /** The tables of a block's trees. */
  ghost predicate TablesFor(main: Table, length: Table, aligned: Option<Table>, t: Spec.Trees) {
    && |t.main| == 496 && Lengths(t.main) && TableFor(main, t.main)
    && |t.length| == 249 && Lengths(t.length) && TableFor(length, t.length)
    && aligned.Some? == t.aligned.Some?
    && (aligned.Some? ==>
          |t.aligned.value| == 8 && Lengths(t.aligned.value) && TableFor(aligned.value, t.aligned.value))
  }

  /**
   readTrees: the tables it returns are those of the trees in the stream, and the code lengths it
   leaves behind for the next block are theirs.
   */
  method ReadTrees(f: Decompressor, readAligned: bool)
      returns (main: Table, length: Table, aligned: Option<Table>, ghost trees: Spec.Trees, e: Outcome)
    requires f.Valid() && f.err.Ok?
    modifies f`unread, f`portions, f`err, f`bo, f`bv, f`c, f`nbits, f`input, f`lost, f.b, f.mainlens, f.lenlens
    ensures old(f.lost) ==> f.lost
    ensures f.Valid()
    ensures e.Done? ==>
              && f.err.Ok?
              && Spec.GetTrees(old(f.input), readAligned, old(f.mainlens[..]), old(f.lenlens[..]))
                 == Some((trees, f.input))
              && f.mainlens[..] == trees.main && f.lenlens[..] == trees.length
              && TablesFor(main, length, aligned, trees)
    ensures !e.Done? ==>
              Excused(Spec.GetTrees(old(f.input), readAligned, old(f.mainlens[..]), old(f.lenlens[..])), f.lost)
    ensures e.Panicked? ==> e.why == NilTree && Spec.BadTrees(old(f.input), readAligned, old(f.mainlens[..]))
    ensures Spec.BadTrees(old(f.input), readAligned, old(f.mainlens[..])) ==> e.Panicked? || f.lost
    ensures e.Failed? ==> e.error != Eof
    ensures e.Done? && Spec.NarrowLengths(old(f.input), readAligned, old(f.mainlens[..])) && |f.input.bits| >= 32 ==>
              f.nbits >= 15
  {
    hide Spec.BadTree, Spec.BadMain, Spec.Narrow;
    hide Spec.GetTree, Spec.GetMain, Spec.GetAligned, TableFor, Spec.GetFields, Decompressor.Reading, Usable;
    hide Complete, AllZero;
    main, length, aligned := Table(0, [], []), Table(0, [], []), None;
    trees := Spec.Trees([], [], None);
    if readAligned {
      var h;
      ghost var lens;
      h, lens, e := ReadAligned(f);
      if e != Done {
        return;
      }
      aligned := Some(h);
      trees := Spec.Trees([], [], Some(lens));
    } else {
      NoAligned(f.input);
    }
    e := ReadMain(f);
    if e != Done {
      return;
    }
    var table := BuildTable(f.mainlens[..]);
    UsableDef(f.mainlens[..]);
    if table == None {
      e := Failed(Corrupt);
      return;
    }
    main := table.value;
    assert f.lenlens[0..249] == f.lenlens[..];
    e := ReadTree(f, f.lenlens, 0, 249);
    if e != Done {
      return;
    }
    assert f.lenlens[0..249] == f.lenlens[..];
    table := BuildTable(f.lenlens[..]);
    UsableDef(f.lenlens[..]);
    if table == None {
      e := Failed(Corrupt);
      return;
    }
    length := table.value;
    trees := trees.(main := f.mainlens[..], length := f.lenlens[..]);
  }

  lemma NoAligned(s: Spec.Stream)
    ensures Spec.GetAligned(s, false) == Some((None, s))
  {
  }

  lemma UsableDef(lens: seq<nat>)
    ensures Usable(lens) <==> AllZero(lens) || Complete(lens)
  {
  }
}
