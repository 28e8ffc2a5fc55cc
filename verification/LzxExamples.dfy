/** Inputs on which wim/lzx/lzx.go errs: bytes that are there but missed, and its panics. */
module LzxExamples {
  import opened Bits
  import opened Wrappers
  import opened Huffman
  import opened HuffmanTable
  import opened LzxReader
  import opened LzxTrees
  import opened LzxBlocks
  import opened LzxWriter
  import Spec = LzxSpec

  // ---------------------------------------------------------------- bits that are missed

  /** With an empty register, the bytes still to come are as many as the stream's words make. */
  lemma {:induction false} PendingLength(f: Decompressor)
    requires f.Reading() && f.err.Ok? && f.nbits == 0
    ensures f.bo <= f.bv <= f.b.Length && |f.Pending()| == |f.input.bits| / 16 * 2 + |f.input.last|
  {
    hide Decompressor.Reading;
    f.Buffer();
    f.AlignedInput();
    Spec.BytesLength(f.input);
  }

  /**
   Four bytes, of which the first Read returns three: the second word is split between buffer and
   reader, and getBits reports the end of the input although the word is there.
   */
  method SplitWordMissed(data: seq<byte>) returns (f: Decompressor, v: nat, w: nat)
    requires |data| == 4
    ensures f.lost && !f.err.Ok?
    ensures Spec.GetBits(Spec.StreamOf(data), 32).Some?
  {
    hide Decompressor.Reading, Spec.GetBits;
    f := new Decompressor(data, Eof, [3]);
    f.Buffer();
    assert f.Fetched() == 3;
    BitsThere(f.input, 16);
    BitsThere(f.input, 32);
    v := f.GetBits(16);
    PendingLength(f);
    assert f.bv - f.bo == 1 && |f.unread| == 1;
    BitsThere(f.input, 16);
    w := f.GetBits(16);
  }

  /** A code of two symbols, `0` and `1`. */
  const PAIR: seq<nat> := [1, 1]

  lemma {:induction false} PairDecodes(s: Spec.Stream)
    requires s.bits != []
    ensures Lengths(PAIR) && !AllZero(PAIR) && Complete(PAIR) && Spec.GetCode(PAIR, s).Some?
  {
    assert PAIR[..1] == [1] && PAIR[..0] == [] && [1][..0] == [];
    assert Count(PAIR, 1) == 2 && Count([1], 1) == 1;
    assert KraftSum([1], 16) == Pow2(15);
    assert KraftSum(PAIR, 16) == 2 * Pow2(15);
    var v := if s.bits[0] then 1 else 0;
    assert s.bits[..1] == [s.bits[0]] && [s.bits[0]][..0] == [];
    assert Val([s.bits[0]]) == v;
    assert Code(PAIR, 0) == 0 && Code(PAIR, 1) == 1;
    assert Spec.StartsWith(PAIR, v, s.bits);
    Spec.GetCodeIs(PAIR, v, s);
  }

  /**
   Three bytes, of which the first Read returns two: a codeword that is all in the register is
   refused, because the odd byte makes the look-ahead fail.
   */
  method OddByteMissed(data: seq<byte>) returns (f: Decompressor, v: nat, w: nat)
    requires |data| == 3
    ensures f.lost && !f.err.Ok?
  {
    hide Decompressor.Reading, Spec.GetBits, TableFor, Spec.GetCode, Complete, AllZero;
    f := new Decompressor(data, Eof, [2]);
    f.Buffer();
    assert f.Fetched() == 2;
    BitsThere(f.input, 4);
    v := f.GetBits(4);
    f.Buffer();
    f.InputLength();
    assert |f.unread| == 1;
    assert f.bv == f.bo;
    PairDecodes(f.input);
    var table := BuildTable(PAIR);
    w := f.GetCode(table.value, PAIR);
  }

  // ---------------------------------------------------------------- inputs as bits

  /** Whole words of bits, as bytes, are read as those bits. */
  lemma {:induction false} StreamOfBits(bits: seq<bool>)
    requires |bits| % 16 == 0
    ensures Spec.StreamOf(Spec.WordBytes(bits)) == Spec.Stream(bits, [])
  {
    hide Spec.WordsBits, Spec.WordBytes;
    WordsOfBytes(bits, []);
    assert Spec.WordBytes(bits) + [] == Spec.WordBytes(bits);
  }

  /** What becomes of a run whose first block cannot be decoded. */
  lemma {:induction false} FirstBlockFails(e: Outcome, st: Spec.State, total: nat)
    requires Spec.StateOk(st) && st.z.pos == 0 < total && EndsAs(e, st, total, false, true)
    ensures Spec.CutShort(st) ==> e == Failed(Eof)
    ensures Spec.BadBlock(st) ==> e == Panicked(NilTree)
  {
    hide Spec.GetHeader, Spec.StateOk, Spec.Block, Spec.BadTrees;
    NoBlock(st);
  }

  // ---------------------------------------------------------------- plain io.EOF

  /** An uncompressed block of one byte: the header, the stored offsets, and no byte. */
  function CutStream(): Spec.Stream {
    Ahead(SizeBits(3, false, 1), Spec.Stream(Zeros(108), []))
  }

  lemma {:induction false} CutIsShort()
    ensures |CutStream().bits| == 128 && CutStream().last == []
    ensures var h := Spec.GetHeader(CutStream(), false);
            h.Some? && h.value.0.Raw? && h.value.0.size == 1 && Spec.BytesOf(h.value.1) == []
  {
    hide Spec.GetSize, ToBits, Spec.StoredLru, Spec.WordBytes;
    var s1 := Spec.Stream(Zeros(108), []);
    SizeReadBack(3, false, 1, s1);
    assert Spec.WordRest(s1) == 12;
    var s2 := Spec.GetBits(s1, 12).value.1;
    assert s2 == Spec.Stream(Zeros(96), []);
    Spec.BytesLength(s2);
    Spec.BytesOfStreamOf(Spec.BytesOf(s2)[12..]);
  }

  /** Sixteen bytes that end where the bytes of a block should begin: Read returns plain io.EOF. */
  method PlainEof() returns (r: seq<byte>, e: Outcome)
    ensures e == Failed(Eof)
  {
    hide Spec.GetHeader, Spec.StateOk, CutStream, EndsAs, Spec.WordBytes, ChunkOf, NothingMissed, Spec.HasEmptyBlock;
    CutIsShort();
    var data := Spec.WordBytes(CutStream().bits);
    StreamOfBits(CutStream().bits);
    ghost var st := StartOf(data);
    StartOk(data);
    r, e := Uncompress(data, 1, []);
    FirstBlockFails(e, st, 1);
  }

  // ---------------------------------------------------------------- an unusable pre-tree

  function Ones(n: nat): (s: seq<bool>)
    ensures |s| == n
  {
    seq(n, _ => true)
  }

  lemma {:induction false} OnesFields(n: nat, k: nat)
    requires 4 * n <= k
    ensures Spec.GetFields(Spec.Stream(Ones(k), []), n, 4) == Some((seq(n, _ => 15), Spec.Stream(Ones(k - 4 * n), [])))
  {
    hide Spec.GetBits;
    if n == 0 {
      assert seq(0, _ => 15) == [];
    } else {
      var s1 := Spec.Stream(Ones(k - 4), []);
      assert Spec.Stream(Ones(k), []) == Ahead(Ones(4), s1);
      GetAhead(Ones(4), s1);
      FourOnes();
      OnesFields(n - 1, k - 4);
      assert [15] + seq(n - 1, _ => 15) == seq(n, _ => 15);
    }
  }

  lemma FourOnes()
    ensures Val(Ones(4)) == 15
  {
    assert Ones(4)[..3] == Ones(3) && Ones(3)[..2] == Ones(2) && Ones(2)[..1] == Ones(1) && Ones(1)[..0] == [];
  }

  lemma {:induction false} FifteensKraft(n: nat)
    ensures KraftSum(seq(n, _ => 15), 16) == 2 * n
  {
    var lens := seq(n, _ => 15);
    if n > 0 {
      assert lens[..n - 1] == seq(n - 1, _ => 15);
      FifteensKraft(n - 1);
      assert Pow2(1) == 2;
    }
  }

  /** A full compressed block whose first pre-tree is twenty codewords of fifteen bits. */
  function BadStream(): Spec.Stream {
    Ahead(SizeBits(1, true, 32768), Spec.Stream(Ones(92), []))
  }

  lemma {:induction false} BadIsBad(main: seq<nat>)
    requires |main| == 496
    ensures |BadStream().bits| == 96 && BadStream().last == []
    ensures var h := Spec.GetHeader(BadStream(), false);
            h.Some? && h.value.0 == Spec.Compressed(false, 32768) && Spec.BadTrees(h.value.1, false, main)
  {
    hide Spec.GetSize, ToBits, Spec.GetFields, KraftSum;
    var s1 := Spec.Stream(Ones(92), []);
    SizeReadBack(1, true, 32768, s1);
    OnesFields(20, 92);
    FifteensKraft(20);
    SmallPowers();
    var pre := seq(20, _ => 15);
    assert pre[0] == 15;
    assert Spec.BadTree(s1);
  }

  /** Twelve bytes on which Read dereferences a nil table. */
  method NilTable() returns (r: seq<byte>, e: Outcome)
    ensures e == Panicked(NilTree)
  {
    hide Spec.GetHeader, Spec.StateOk, BadStream, EndsAs, Spec.WordBytes, ChunkOf, NothingMissed, Spec.HasEmptyBlock;
    hide Spec.BadTrees;
    var data := Spec.WordBytes(BadStream().bits);
    ghost var st := StartOf(data);
    BadIsBad(st.main);
    StreamOfBits(BadStream().bits);
    StartOk(data);
    r, e := Uncompress(data, 1, []);
    FirstBlockFails(e, st, 1);
  }

  // ---------------------------------------------------------------- the impossible panic

  /** A pre-tree with two codewords of one bit, for differences 0 and 1. */
  function PairTree(): (pre: seq<nat>)
    ensures |pre| == 20
  {
    PAIR + seq(18, _ => 0)
  }

  function PairBits(): (b: seq<bool>)
    ensures |b| == 80
  {
    ToBits(1, 4) + (ToBits(1, 4) + Zeros(72))
  }

  lemma {:induction false} ZeroFields(n: nat, width: nat, s: Spec.Stream)
    ensures Spec.GetFields(Ahead(Zeros(n * width), s), n, width) == Some((seq(n, _ => 0), s))
  {
    hide Spec.GetBits;
    if n == 0 {
      assert Ahead(Zeros(0), s) == s;
    } else {
      var s1 := Ahead(Zeros((n - 1) * width), s);
      assert n * width == width + (n - 1) * width;
      assert Ahead(Zeros(n * width), s) == Ahead(Zeros(width), s1);
      GetAhead(Zeros(width), s1);
      ValZeros(width);
      ZeroFields(n - 1, width, s);
      assert [0] + seq(n - 1, _ => 0) == seq(n, _ => 0);
    }
  }

  lemma {:induction false} PairFields(s: Spec.Stream)
    ensures Spec.GetFields(Ahead(PairBits(), s), 20, 4) == Some((PairTree(), s))
  {
    hide Spec.GetBits, ToBits;
    var s2 := Ahead(Zeros(72), s);
    var s1 := Ahead(ToBits(1, 4), s2);
    assert Ahead(PairBits(), s) == Ahead(ToBits(1, 4), s1);
    SmallPowers();
    GetNumber(1, 4, s1);
    GetNumber(1, 4, s2);
    ZeroFields(18, 4, s);
    var zeros := seq(18, _ => 0);
    assert Spec.GetFields(s2, 18, 4) == Some((zeros, s));
    assert Spec.GetFields(s1, 19, 4) == Some(([1] + zeros, s));
    assert [1] + ([1] + zeros) == PairTree();
  }

  lemma {:induction false} ZerosKraft(lens: seq<nat>, n: nat)
    ensures KraftSum(lens + seq(n, _ => 0), 16) == KraftSum(lens, 16)
    ensures Count(lens + seq(n, _ => 0), 1) == Count(lens, 1)
  {
    if n == 0 {
      assert lens + seq(0, _ => 0) == lens;
    } else {
      ZerosKraft(lens, n - 1);
      assert (lens + seq(n, _ => 0))[..|lens| + n - 1] == lens + seq(n - 1, _ => 0);
    }
  }

  lemma {:induction false} PairTreeCodes()
    ensures Usable(PairTree()) && Spec.Narrow(PairTree())
    ensures PairTree()[0] == 1 && Code(PairTree(), 0) == 0
  {
    hide KraftSum;
    var pre := PairTree();
    PairDecodes(Spec.Stream([true], []));
    ZerosKraft(PAIR, 18);
    assert pre[0] == 1;
    assert pre[..0] == [];
  }

  lemma {:induction false} ZeroRun(s: Spec.Stream, s1: Spec.Stream)
    requires s.bits == [false] + s1.bits && s.last == s1.last
    ensures Spec.GetRun(PairTree(), s) == Some((Spec.Delta(0), s1))
  {
    hide Spec.GetCode, PairTree, Code, Usable;
    PairTreeCodes();
    assert s.bits[..1] == Zeros(1) && s.bits[1..] == s1.bits;
    ValZeros(1);
    Spec.GetCodeIs(PairTree(), 0, s);
  }

  lemma ZerosAhead(n: nat, s: Spec.Stream)
    ensures Ahead(Zeros(0), s) == s
    ensures n > 0 ==> Ahead(Zeros(n), s).bits == [false] + Ahead(Zeros(n - 1), s).bits
    ensures Ahead(Zeros(n), s).last == s.last
  {
  }

  lemma ZeroLengths(n: nat)
    ensures seq(0, _ => 0) == []
    ensures n > 0 ==> seq(n, _ => 0) == [0] + seq(n - 1, _ => 0)
  {
  }

  /** Every zero bit leaves one more length at zero. */
  lemma {:induction false} ZeroRuns(n: nat, s: Spec.Stream)
    ensures Spec.GetRuns(PairTree(), Ahead(Zeros(n), s), seq(n, _ => 0)) == Some((seq(n, _ => 0), s))
  {
    hide Spec.GetRun, PairTree, Ahead, Zeros;
    ZerosAhead(n, s);
    ZeroLengths(n);
    if n > 0 {
      ZerosAhead(n - 1, s);
      ZeroRun(Ahead(Zeros(n), s), Ahead(Zeros(n - 1), s));
      assert seq(n, _ => 0)[1..] == seq(n - 1, _ => 0);
      ZeroRuns(n - 1, s);
    }
  }

  lemma {:induction false} ZeroTree(n: nat, s: Spec.Stream)
    ensures Spec.GetTree(Ahead(PairBits(), Ahead(Zeros(n), s)), seq(n, _ => 0)) == Some((seq(n, _ => 0), s))
  {
    hide Spec.GetFields, Spec.GetRuns, PairTree, PairBits, Usable;
    PairFields(Ahead(Zeros(n), s));
    PairTreeCodes();
    ZeroRuns(n, s);
  }

  /** After an empty compressed block, the announcement of a full uncompressed one. */
  function NextHeader(): Spec.Stream {
    Ahead(SizeBits(3, true, 32768), Spec.Stream(Zeros(39), []))
  }

  function LengthPart(): Spec.Stream {
    Ahead(PairBits(), Ahead(Zeros(249), NextHeader()))
  }

  function UpperPart(): Spec.Stream {
    Ahead(PairBits(), Ahead(Zeros(240), LengthPart()))
  }

  function MainPart(): Spec.Stream {
    Ahead(PairBits(), Ahead(Zeros(256), UpperPart()))
  }

  function EmptyBlockStream(): Spec.Stream {
    Ahead(SizeBits(2, false, 0), Ahead(Zeros(24), MainPart()))
  }

  lemma StreamSizes()
    ensures |NextHeader().bits| == 43 && |EmptyBlockStream().bits| == 1072 && EmptyBlockStream().last == []
  {
    hide ToBits, PairBits, Zeros;
  }

  lemma {:induction false} ZerosUsable(n: nat)
    ensures Usable(seq(n, _ => 0))
  {
  }

  lemma {:induction false} MainIsZero()
    ensures Spec.GetMain(MainPart(), seq(496, _ => 0)) == Some((seq(496, _ => 0), LengthPart()))
  {
    hide Spec.GetTree, PairBits, LengthPart, Usable, Ahead;
    var prev := seq(496, _ => 0);
    assert prev[..256] == seq(256, _ => 0) && prev[256..] == seq(240, _ => 0);
    ZeroTree(256, UpperPart());
    ZeroTree(240, LengthPart());
    assert prev[..256] + prev[256..] == prev;
    ZerosUsable(496);
  }

  lemma {:induction false} EmptyTrees()
    ensures Spec.GetAligned(Ahead(Zeros(24), MainPart()), true) == Some((Some(seq(8, _ => 0)), MainPart()))
    ensures Spec.GetTrees(Ahead(Zeros(24), MainPart()), true, seq(496, _ => 0), seq(249, _ => 0))
         == Some((Spec.Trees(seq(496, _ => 0), seq(249, _ => 0), Some(seq(8, _ => 0))), NextHeader()))
    ensures Spec.NarrowLengths(Ahead(Zeros(24), MainPart()), true, seq(496, _ => 0))
  {
    hide Spec.GetTree, Spec.GetMain, PairBits, MainPart, Usable, Ahead, NextHeader, Spec.GetFields, Spec.Narrow;
    hide PairTree;
    ZeroFields(8, 3, MainPart());
    ZerosUsable(8);
    ZerosUsable(249);
    MainIsZero();
    ZeroTree(249, NextHeader());
    PairFields(Ahead(Zeros(249), NextHeader()));
    PairTreeCodes();
  }

  lemma {:induction false} EmptyBlock(st: Spec.State)
    requires st.s == EmptyBlockStream() && !st.unaligned && st.main == seq(496, _ => 0) && st.length == seq(249, _ => 0)
    requires st.z.pos == 0 && Spec.StateOk(st)
    ensures var h := Spec.GetHeader(st.s, false);
            && h == Some((Spec.Compressed(true, 0), Ahead(Zeros(24), MainPart())))
            && Spec.NarrowLengths(h.value.1, true, st.main)
    ensures Spec.Block(st).Some? && Spec.Block(st).value.s == NextHeader() && Spec.Block(st).value.z.pos == 0
    ensures !Spec.Block(st).value.unaligned
  {
    hide Spec.GetTrees, Spec.GetSize, MainPart, NextHeader, Ahead, ToBits, Spec.NarrowLengths;
    EmptyTrees();
    SizeReadBack(2, false, 0, Ahead(Zeros(24), MainPart()));
  }

  lemma {:induction false} NextIsFull()
    ensures Spec.FullStored(NextHeader())
  {
    hide ToBits, Pow2;
    var s := NextHeader();
    assert s.bits[..3] == ToBits(3, 3) && s.bits[3..4] == ToBits(1, 1);
    SmallPowers();
    ValToBits(3, 3);
    ValToBits(1, 1);
  }

  /** A decompressor over the 134 bytes. */
  method OpenEmptyBlock() returns (f: Decompressor)
    ensures fresh(f) && f.Valid() && f.err.Ok? && !f.unaligned && f.nbits == 0 && f.prompt
    ensures f.input == EmptyBlockStream()
    ensures f.mainlens[..] == seq(496, _ => 0) && f.lenlens[..] == seq(249, _ => 0)
    ensures fresh(f.b) && fresh(f.window) && fresh(f.mainlens) && fresh(f.lenlens)
  {
    hide EmptyBlockStream, Decompressor.Reading, Spec.WordBytes;
    StreamSizes();
    var data := Spec.WordBytes(EmptyBlockStream().bits);
    StreamOfBits(EmptyBlockStream().bits);
    f := new Decompressor(data, Eof, []);
    assert f.mainlens[..] == seq(496, _ => 0);
    assert f.lenlens[..] == seq(249, _ => 0);
  }

  /** The first block of 134 bytes is compressed and empty, and leaves 27 bits in the register. */
  method ReadEmptyBlock() returns (f: Decompressor)
    ensures fresh(f) && f.Valid() && f.err.Ok? && !f.unaligned && f.nbits == 27 && f.input == NextHeader()
    ensures fresh(f.b) && fresh(f.window) && fresh(f.mainlens) && fresh(f.lenlens)
  {
    hide Spec.GetHeader, Spec.Block, EmptyBlockStream, NextHeader, Decompressor.Reading, ExcusedState;
    hide Spec.NarrowLengths, Spec.BadBlock, Spec.TooBig, Spec.CutShort, MainPart, Spec.FullStored, Zeros, Ahead;
    f := OpenEmptyBlock();
    f.InputLength();
    ghost var st := StateOf(f, 0);
    EmptyBlock(st);
    NoExcuse(Spec.Block(st));
    var n, e := ReadBlock(f, 0);
    f.NothingLost();
    assert e == Done;
    StreamSizes();
    f.Buffer();
    f.InputLength();
    RegisterHolds(f.nbits, |f.Pending()| / 2);
  }

  lemma RegisterHolds(nbits: nat, words: nat)
    requires 43 == nbits + words * 16 && 15 <= nbits <= 31
    ensures nbits == 27
  {
  }

  lemma NoExcuse(r: Option<Spec.State>)
    requires r.Some?
    ensures !ExcusedState(r, false)
  {
  }

  /** The loop of Read on these bytes: the header of the second block panics. */
  method ImpossiblePanic() returns (n: nat, e: Outcome)
    ensures e == Panicked(WordRemains)
  {
    hide Spec.GetHeader, Spec.Block, Spec.FullStored, NextHeader, Decompressor.Reading, ExcusedState;
    hide Spec.NarrowLengths, Spec.BadBlock, Spec.TooBig, Spec.CutShort;
    var f := ReadEmptyBlock();
    NextIsFull();
    n, e := ReadBlock(f, 0);
  }
}
