/** Chunks as their writer wrote them, through the decompressor of wim/lzx/lzx.go. */
module LzxRoundTrip {
  import opened Bits
  import opened Wrappers
  import opened Huffman
  import opened LzxTrees
  import opened LzxBlocks
  import opened LzxWriter
  import opened E8
  import Spec = LzxSpec

  /** Where a writer starts: nothing written, all code lengths zero, all recent offsets one. */
  function Start(): Progress {
    Progress(seq(496, _ => 0), seq(249, _ => 0), [], [1, 1, 1])
  }

  /** `data` are blocks that spell `contents`, after the call translation, and whatever follows them. */
  ghost predicate Spells(data: seq<byte>, blocks: seq<Block>, tail: Spec.Stream, contents: seq<byte>) {
    && |contents| <= 32768
    && BlocksOk(blocks, Start()) && PaddedRight(blocks, Start(), tail)
    && Spec.StreamOf(data) == ChunkStream(blocks, Start(), tail)
    && AfterAll(blocks, Start()).out == Translate(false, contents, 0)
  }

  lemma {:induction false} StartFollows(data: seq<byte>)
    ensures Follows(StartOf(data), Start(), Spec.StreamOf(data))
  {
    hide Spec.StreamOf;
    StartOk(data);
    var st := StartOf(data);
    assert st.z.win[..0] == [];
  }

  /** A chunk means its contents, however it was written. */
  lemma {:induction false} WrittenChunkIsRead(data: seq<byte>, blocks: seq<Block>, tail: Spec.Stream,
                                              contents: seq<byte>)
    requires Spells(data, blocks, tail, contents)
    ensures ChunkOf(data, |contents|) == Some(contents)
  {
    hide BlocksOk, PaddedRight, ChunkStream, AfterAll, Spec.Blocks, Spec.StreamOf, Translate, Follows, Start, StartOf;
    StartFollows(data);
    ChunkReadBack(StartOf(data), blocks, Start(), tail, |contents|);
    DecodeE8Bijective(contents, 0);
  }

  /**
   The decompressor on such a chunk: it returns nothing but the contents, and it does return them if
   nothing is missed and no block is empty.
   */
  method UncompressWritten(data: seq<byte>, portions: seq<nat>, size: nat, ghost blocks: seq<Block>,
                           ghost tail: Spec.Stream,
                           ghost contents: seq<byte>) returns (r: seq<byte>, e: Outcome)
    requires Spells(data, blocks, tail, contents) && size == |contents|
    ensures e.Done? ==> r == contents
    ensures NothingMissed(data, size, portions) && (forall i :: 0 <= i < |blocks| ==> BlockSize(blocks[i]) > 0) ==>
              e.Done?
  {
    hide BlocksOk, PaddedRight, ChunkStream, AfterAll, Spec.StreamOf, Translate, Start, StartOf, NothingMissed, ChunkOf;
    hide Spec.HasEmptyBlock, EndsAs, Follows;
    WrittenChunkIsRead(data, blocks, tail, contents);
    StartFollows(data);
    if forall i :: 0 <= i < |blocks| ==> BlockSize(blocks[i]) > 0 {
      NoEmptyBlock(StartOf(data), blocks, Start(), tail, size);
    }
    r, e := Uncompress(data, size, portions);
  }

  /** Every contents of up to 32768 bytes can be written, as one stored block. */
  lemma {:induction false} EveryContentsCanBeWritten(contents: seq<byte>) returns (data: seq<byte>, block: Block)
    requires |contents| <= 32768
    ensures Spells(data, [block], Spec.Stream([], []), contents)
    ensures ChunkOf(data, |contents|) == Some(contents)
  {
    hide Translate, Spec.StreamOf, Spec.BytesOf, SizeBits, StoredBytes;
    var plain := Translate(false, contents, 0);
    block := Stored(false, Zeros(12), [1, 1, 1], plain, 0);
    var tail := Spec.Stream([], []);
    var s := BlockStream(block, Start(), tail);
    assert After(block, Start()).out == [] + plain == plain;
    HeaderWord(block, tail);
    data := Spec.BytesOf(s);
    StreamOfBytes(s);
    assert [block][1..] == [];
    assert BlockOk(block, Start());
    assert BlocksOk([block], Start());
    assert ChunkStream([block], Start(), tail) == s;
    assert PaddedRight([block], Start(), tail);
    assert AfterAll([block], Start()).out == plain;
    WrittenChunkIsRead(data, [block], tail, contents);
  }

  lemma {:induction false} HeaderWord(b: Block, tail: Spec.Stream)
    requires BlockOk(b, Start()) && b.Stored? && !b.full && |b.pad| == 12
    ensures AtWord(BlockStream(b, Start(), tail))
  {
    hide Spec.StreamOf, Spec.BytesOf, StoredBytes;
    BytesAtWord(StoredBytes(b.recents, b.data, b.filler) + Spec.BytesOf(tail));
  }

  // ---------------------------------------------------------------- every list of items can be written

  lemma {:induction false} KraftMore(lens: seq<nat>, n: nat, l: nat)
    requires 0 < l <= 16
    ensures KraftSum(lens + seq(n, _ => l), 16) == KraftSum(lens, 16) + n * Pow2(16 - l)
  {
    hide Pow2;
    if n == 0 {
      assert lens + seq(0, _ => l) == lens;
    } else {
      KraftMore(lens, n - 1, l);
      var more := lens + seq(n, _ => l);
      assert more[..|more| - 1] == lens + seq(n - 1, _ => l) && more[|more| - 1] == l;
      OneMore(n, Pow2(16 - l));
    }
  }

  lemma OneMore(n: nat, w: nat)
    requires n > 0
    ensures n * w == (n - 1) * w + w
  {
  }

  /** A code of two lengths. */
  function TwoLengths(m: nat, k: nat, n: nat, l: nat): (lens: seq<nat>)
    ensures |lens| == m + n
  {
    seq(m, _ => k) + seq(n, _ => l)
  }

  lemma {:induction false} TwoLengthsUsable(m: nat, k: nat, n: nat, l: nat)
    requires 0 < k <= 16 && 0 < l <= 16 && m * Pow2(16 - k) + n * Pow2(16 - l) == 0x1_0000 && m + n <= 512
    ensures Lengths(TwoLengths(m, k, n, l)) && Usable(TwoLengths(m, k, n, l))
    ensures forall v :: 0 <= v < m + n ==> Coded(TwoLengths(m, k, n, l), v)
  {
    hide Pow2, KraftSum;
    SmallPowers();
    KraftMore([], m, k);
    assert [] + seq(m, _ => k) == seq(m, _ => k);
    KraftMore(seq(m, _ => k), n, l);
    NoKraft();
  }

  lemma NoKraft()
    ensures KraftSum([], 16) == 0
  {
  }

  lemma CodePowers()
    ensures Pow2(7) == 128 && Pow2(8) == 256 && Pow2(9) == 512 && Pow2(11) == 2048 && Pow2(12) == 4096
  {
  }

  /** Codes in which every symbol has a codeword. */
  function AnyTrees(): Spec.Trees {
    Spec.Trees(TwoLengths(16, 8, 480, 9), TwoLengths(7, 7, 242, 8), None)
  }

  function AnyPre(): (pre: seq<nat>)
    ensures |pre| == 20
  {
    TwoLengths(12, 4, 8, 5)
  }

  lemma {:induction false} AnyCodes()
    ensures CodesOk(AnyTrees()) && Lengths(AnyPre()) && Usable(AnyPre())
    ensures forall v :: 0 <= v < 496 ==> Coded(AnyTrees().main, v)
    ensures forall v :: 0 <= v < 249 ==> Coded(AnyTrees().length, v)
    ensures forall v :: 0 <= v < 20 ==> Coded(AnyPre(), v)
  {
    hide Pow2, TwoLengths, Usable, Lengths;
    CodePowers();
    TwoLengthsUsable(16, 8, 480, 9);
    TwoLengthsUsable(7, 7, 242, 8);
    TwoLengthsUsable(12, 4, 8, 5);
  }

  lemma {:induction false} SinglesCover(was: seq<nat>, now: seq<nat>)
    requires |was| == |now| && forall v :: 0 <= v < 20 ==> Coded(AnyPre(), v)
    ensures Covers(seq(|now|, _ => Single), was, now, AnyPre())
  {
    hide AnyPre;
    var pieces := seq(|now|, _ => Single);
    if now != [] {
      SinglesCover(was[1..], now[1..]);
      assert pieces[1..] == seq(|now| - 1, _ => Single);
    }
  }

  lemma {:induction false} AnyTree(was: seq<nat>, now: seq<nat>)
    requires |was| == |now| && SmallLengths(was) && SmallLengths(now)
    ensures TreeOk(Tree(AnyPre(), seq(|now|, _ => Single)), was, now)
  {
    hide Usable, Lengths, Covers;
    AnyCodes();
    SinglesCover(was, now);
  }

  /** Every offset lies in what has been written, and those given as recent ones are. */
  ghost predicate Choosable(items: seq<Item>, choices: seq<Choice>, out: seq<byte>, recents: seq<nat>)
    decreases |items|
  {
    && |items| == |choices| && |recents| == 3
    && (items != [] ==>
          var i, c := items[0], choices[0];
          && Playable(out, i)
          && (i.Match? ==> 2 <= i.length <= 257 && i.offset <= 32765 && ChoiceOk(recents, i.offset, c))
          && Choosable(items[1..], choices[1..], Play(out, i), UseItem(recents, i, c)))
  }

  lemma {:induction false} AnyItems(items: seq<Item>, choices: seq<Choice>, out: seq<byte>, recents: seq<nat>)
    requires Choosable(items, choices, out, recents)
    ensures ItemsOk(AnyTrees(), items, choices, out, recents)
    decreases |items|
  {
    hide AnyTrees, Play, UseItem, CodesOk;
    if items != [] {
      AnyCodes();
      AnyAligned();
      AnyItems(items[1..], choices[1..], Play(out, items[0]), UseItem(recents, items[0], choices[0]));
    }
  }

  lemma AnyAligned()
    ensures AnyTrees().aligned == None && |AnyTrees().main| == 496 && |AnyTrees().length| == 249
  {
  }

  /**
   Every list of bytes and repetitions, of 2 to 257 bytes from 1 to 32765 back, with any choice of
   giving offsets that are recent as such, can be written as a block after any others.
   */
  lemma {:induction false} EveryListCanBeWritten(items: seq<Item>, choices: seq<Choice>, w: Progress) returns (b: Block)
    requires Choosable(items, choices, w.out, w.recents) && |w.out| + TotalLength(items) <= 32768
    requires |w.main| == 496 && |w.length| == 249 && SmallLengths(w.main) && SmallLengths(w.length)
    ensures BlockOk(b, w) && b.Packed? && b.items == items && b.choices == choices
    ensures AllPlayable(w.out, items) && After(b, w).out == PlayAll(w.out, items)
    ensures SmallLengths(After(b, w).main) && SmallLengths(After(b, w).length)
  {
    hide CodesOk, ItemsOk, TreeOk, Usable, TwoLengths, Lengths, AnyPre;
    var t := AnyTrees();
    AnyCodes();
    AnyAligned();
    AnySmall();
    AnyItems(items, choices, w.out, w.recents);
    AnyTree(w.main[..256], t.main[..256]);
    AnyTree(w.main[256..], t.main[256..]);
    AnyTree(w.length, t.length);
    b := Packed(false, t, Tree(AnyPre(), seq(256, _ => Single)), Tree(AnyPre(), seq(240, _ => Single)),
                Tree(AnyPre(), seq(249, _ => Single)), items, choices);
    ItemsPlayable(t, items, choices, w.out, w.recents);
  }

  lemma AnySmall()
    ensures SmallLengths(AnyTrees().main) && SmallLengths(AnyTrees().length)
  {
  }

  // ---------------------------------------------------------------- an example with repeated offsets

  /** Tokens one after the other. */
  function RunTokens(tokens: seq<Spec.Token>, z: Spec.Lz, end: nat): Option<Spec.Lz>
    requires Spec.LzOk(z) && end <= 32768
    decreases |tokens|
  {
    if tokens == [] then Some(z)
    else if z.pos >= end then None
    else
      match Spec.Apply(tokens[0], z, end)
      case None => None
      case Some(z1) => RunTokens(tokens[1..], z1, end)
  }

  /** Three back, and one back as the second recent offset. */
  lemma {:induction false} TwoMatches(z: Spec.Lz)
    requires Spec.LzOk(z) && z.pos == 4 && z.lru == [1, 1, 1] && z.win[..4] == [97, 98, 99, 100]
    ensures var r := Spec.Apply(Spec.Far(3, 2), z, 12);
            && r.Some? && r.value.pos == 6
            && var q := Spec.Apply(Spec.Repeat(1, 2), r.value, 12);
            q.Some? && q.value.pos == 8 && q.value.lru == [1, 3, 1]
            && q.value.win[..8] == [97, 98, 99, 100, 98, 99, 99, 99]
  {
    var z1 := Spec.Apply(Spec.Far(3, 2), z, 12).value;
    assert z.win[1] == z.win[..4][1] && z.win[2] == z.win[..4][2];
    assert z1.win[..4] == z.win[..4] && z1.win[4] == 98 && z1.win[5] == 99 && z1.lru == [3, 1, 1];
    var z2 := Spec.Apply(Spec.Repeat(1, 2), z1, 12).value;
    assert z2.win[..6] == z1.win[..6] && z2.win[6] == 99 && z2.win[7] == 99;
    assert z2.win[..8] == z1.win[..4] + [98, 99, 99, 99];
  }

  /** One back, as the first recent offset. */
  lemma {:induction false} LastMatch(z: Spec.Lz)
    requires Spec.LzOk(z) && z.pos == 10 && z.lru == [1, 3, 1] && z.win[9] == 102
    ensures var r := Spec.Apply(Spec.Repeat(0, 2), z, 12);
            && r.Some? && r.value.pos == 12 && r.value.lru == [1, 3, 1]
            && r.value.win[..12] == z.win[..10] + [102, 102]
  {
    var z1 := Spec.Apply(Spec.Repeat(0, 2), z, 12).value;
    assert z1.win[..10] == z.win[..10] && z1.win[10] == 102 && z1.win[11] == 102;
  }

  /**
   a b c d, three back, one back as the second recent offset, e f, and one back as the first: the
   repeated offset has moved to the front.
   */
  lemma {:induction false} RepeatedOffsetMovesUp(z: Spec.Lz)
    requires Spec.LzOk(z) && z.pos == 0 && z.lru == [1, 1, 1]
    ensures var r := RunTokens(
              [Spec.Literal(97), Spec.Literal(98), Spec.Literal(99), Spec.Literal(100), Spec.Far(3, 2),
               Spec.Repeat(1, 2), Spec.Literal(101), Spec.Literal(102), Spec.Repeat(0, 2)], z, 12);
            && r.Some? && r.value.pos == 12
            && r.value.win[..12] == [97, 98, 99, 100, 98, 99, 99, 99, 101, 102, 102, 102]
  {
    hide Spec.Apply, RunTokens;
    var t9 := [Spec.Repeat(0, 2)] + [];
    var t8 := [Spec.Literal(102)] + t9;
    var t7 := [Spec.Literal(101)] + t8;
    var t6 := [Spec.Repeat(1, 2)] + t7;
    var t5 := [Spec.Far(3, 2)] + t6;
    var t4 := [Spec.Literal(100)] + t5;
    var t3 := [Spec.Literal(99)] + t4;
    var t2 := [Spec.Literal(98)] + t3;
    assert [Spec.Literal(97)] + t2 ==
           [Spec.Literal(97), Spec.Literal(98), Spec.Literal(99), Spec.Literal(100), Spec.Far(3, 2),
            Spec.Repeat(1, 2), Spec.Literal(101), Spec.Literal(102), Spec.Repeat(0, 2)];
    var z1 := OneLetter(z, 97, t2);
    var z2 := OneLetter(z1, 98, t3);
    var z3 := OneLetter(z2, 99, t4);
    var z4 := OneLetter(z3, 100, t5);
    TwoMatches(z4);
    var z5 := OneToken(z4, Spec.Far(3, 2), t6);
    var z6 := OneToken(z5, Spec.Repeat(1, 2), t7);
    var z7 := OneLetter(z6, 101, t8);
    var z8 := OneLetter(z7, 102, t9);
    assert z8.win[9] == z8.win[..10][9] == 102;
    LastMatch(z8);
    var z9 := OneToken(z8, Spec.Repeat(0, 2), []);
    assert RunTokens([], z9, 12) == Some(z9) by {
      RunNothing(z9);
    }
  }

  lemma RunNothing(z: Spec.Lz)
    requires Spec.LzOk(z)
    ensures RunTokens([], z, 12) == Some(z)
  {
  }

  lemma {:induction false} OneToken(z: Spec.Lz, tok: Spec.Token, rest: seq<Spec.Token>) returns (z1: Spec.Lz)
    requires Spec.LzOk(z) && z.pos < 12 && Spec.Apply(tok, z, 12).Some?
    ensures Spec.Apply(tok, z, 12) == Some(z1) && Spec.LzOk(z1)
    ensures RunTokens([tok] + rest, z, 12) == RunTokens(rest, z1, 12)
  {
    hide Spec.Apply;
    z1 := Spec.Apply(tok, z, 12).value;
    assert ([tok] + rest)[1..] == rest;
  }

  lemma {:induction false} OneLetter(z: Spec.Lz, b: byte, rest: seq<Spec.Token>) returns (z1: Spec.Lz)
    requires Spec.LzOk(z) && z.pos < 12
    ensures Spec.LzOk(z1) && z1.pos == z.pos + 1 && z1.lru == z.lru && z1.win[..z1.pos] == z.win[..z.pos] + [b]
    ensures RunTokens([Spec.Literal(b)] + rest, z, 12) == RunTokens(rest, z1, 12)
  {
    z1 := OneToken(z, Spec.Literal(b), rest);
  }
}
