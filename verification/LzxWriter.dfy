/**
 The compressed format from its writer's side: how code lengths, tokens and blocks are put into
 bits, as the format prescribes and the reader of wim/lzx/lzx.go relies on. Whatever is
 written here, by any of the choices a writer has, `LzxSpec` reads back.
 */
module LzxWriter {
  import opened Bits
  import opened Wrappers
  import opened Huffman
  import opened HuffmanTable
  import opened LittleEndian
  import Spec = LzxSpec

  // ---------------------------------------------------------------- bits in front of a stream

  function Ahead(a: seq<bool>, s: Spec.Stream): Spec.Stream {
    s.(bits := a + s.bits)
  }

  lemma {:induction false} AheadTwice(a: seq<bool>, b: seq<bool>, s: Spec.Stream)
    ensures Ahead(a + b, s) == Ahead(a, Ahead(b, s))
  {
    assert (a + b) + s.bits == a + (b + s.bits);
  }

  lemma {:induction false} GetAhead(a: seq<bool>, s: Spec.Stream)
    ensures Spec.GetBits(Ahead(a, s), |a|) == Some((Val(a), s))
  {
    assert (a + s.bits)[..|a|] == a && (a + s.bits)[|a|..] == s.bits;
  }

  /** A number of `n` bits in front of a stream. */
  lemma {:induction false} GetNumber(x: nat, n: nat, s: Spec.Stream)
    requires x < Pow2(n)
    ensures Spec.GetBits(Ahead(ToBits(x, n), s), n) == Some((x, s))
  {
    ValToBits(x, n);
    GetAhead(ToBits(x, n), s);
  }

  // ---------------------------------------------------------------- codewords

  ghost predicate Coded(lens: seq<nat>, v: nat) {
    v < |lens| && lens[v] > 0
  }

  ghost function CodeBits(lens: seq<nat>, v: nat): (b: seq<bool>)
    requires Coded(lens, v)
    ensures |b| == lens[v]
  {
    ToBits(Code(lens, v), lens[v])
  }

  /** A codeword of a usable code is read back. */
  lemma {:induction false} GetCoded(lens: seq<nat>, v: nat, s: Spec.Stream)
    requires Lengths(lens) && Usable(lens) && Coded(lens, v)
    ensures Spec.GetCode(lens, Ahead(CodeBits(lens, v), s)) == Some((v, s))
  {
    hide Pow2, Val, ToBits, Count, First, Spec.GetCode;
    var l := lens[v];
    assert Complete(lens) by {
      assert !AllZero(lens);
    }
    CompleteAt(lens, 16);
    EndBounded(lens, l, 16);
    CodeBelowEnd(lens, v);
    ValToBits(Code(lens, v), l);
    var b := CodeBits(lens, v);
    var t := Ahead(b, s);
    assert t.bits[..l] == b && t.bits[l..] == s.bits;
    Spec.GetCodeIs(lens, v, t);
  }

  // ---------------------------------------------------------------- fields

  function FieldBits(vs: seq<nat>, width: nat): seq<bool> {
    if vs == [] then [] else ToBits(vs[0], width) + FieldBits(vs[1..], width)
  }

  lemma {:induction false} GetFieldBits(vs: seq<nat>, width: nat, s: Spec.Stream)
    requires forall i :: 0 <= i < |vs| ==> vs[i] < Pow2(width)
    ensures Spec.GetFields(Ahead(FieldBits(vs, width), s), |vs|, width) == Some((vs, s))
  {
    hide Spec.GetBits, ToBits, Ahead, Pow2;
    if vs == [] {
      NothingAhead(s);
    } else {
      var s1 := Ahead(FieldBits(vs[1..], width), s);
      AheadTwice(ToBits(vs[0], width), FieldBits(vs[1..], width), s);
      GetNumber(vs[0], width, s1);
      GetFieldBits(vs[1..], width, s);
      assert [vs[0]] + vs[1..] == vs;
    }
  }

  lemma NothingAhead(s: Spec.Stream)
    ensures Ahead([], s) == s
  {
    assert [] + s.bits == s.bits;
  }

  // ---------------------------------------------------------------- code lengths

  /** How a writer may divide the positions of a tree: one by one, zeros together, equal lengths together. */
  datatype Piece = Single | ZeroRun(n: nat) | EqualRun(n: nat)

  function PieceLength(p: Piece): nat {
    match p
    case Single => 1
    case ZeroRun(n) => n
    case EqualRun(n) => n
  }

  /** The symbol for a change of length: the difference modulo 17. */
  function Difference(was: nat, now: nat): (d: nat)
    ensures d <= 16
  {
    (was - now) % 17
  }

  /** The piece says what the new lengths begin with, in symbols that have codewords. */
  ghost predicate PieceOk(p: Piece, was: seq<nat>, now: seq<nat>, pre: seq<nat>)
    requires |was| == |now|
  {
    && 0 < PieceLength(p) <= |now|
    && (match p
        case Single => Coded(pre, Difference(was[0], now[0]))
        case ZeroRun(n) =>
          4 <= n <= 51 && Coded(pre, if n < 20 then 17 else 18) && forall i :: 0 <= i < n ==> now[i] == 0
        case EqualRun(n) =>
          && 4 <= n <= 5 && Coded(pre, 19) && Coded(pre, Difference(was[0], now[0]))
          && forall i :: 0 <= i < n ==> now[i] == now[0])
  }

  /** 17 and four bits for 4 to 19 zeros, 18 and five bits for 20 to 51, 19 and one bit for 4 or 5 equal lengths. */
  ghost function PieceBits(p: Piece, was: seq<nat>, now: seq<nat>, pre: seq<nat>): seq<bool>
    requires |was| == |now| && PieceOk(p, was, now, pre)
  {
    match p
    case Single => CodeBits(pre, Difference(was[0], now[0]))
    case ZeroRun(n) =>
      if n < 20 then CodeBits(pre, 17) + ToBits(n - 4, 4) else CodeBits(pre, 18) + ToBits(n - 20, 5)
    case EqualRun(n) =>
      CodeBits(pre, 19) + (ToBits(n - 4, 1) + CodeBits(pre, Difference(was[0], now[0])))
  }

  /** The pieces together cover all positions. */
  ghost predicate Covers(pieces: seq<Piece>, was: seq<nat>, now: seq<nat>, pre: seq<nat>)
    requires |was| == |now|
    decreases |pieces|
  {
    if pieces == [] then now == []
    else
      && PieceOk(pieces[0], was, now, pre)
      && var n := PieceLength(pieces[0]);
         Covers(pieces[1..], was[n..], now[n..], pre)
  }

  ghost function RunBits(pieces: seq<Piece>, was: seq<nat>, now: seq<nat>, pre: seq<nat>): seq<bool>
    requires |was| == |now| && Covers(pieces, was, now, pre)
    decreases |pieces|
  {
    if pieces == [] then []
    else
      var n := PieceLength(pieces[0]);
      PieceBits(pieces[0], was, now, pre) + RunBits(pieces[1..], was[n..], now[n..], pre)
  }

  ghost predicate SmallLengths(lens: seq<nat>) {
    forall i :: 0 <= i < |lens| ==> lens[i] <= 16
  }

  /** The difference leads from the old length to the new one. */
  lemma DifferenceLeads(was: nat, now: nat)
    requires was <= 16 && now <= 16
    ensures (was + 17 - Difference(was, now)) % 17 == now
  {
  }

  /** One piece is read back as one run, which expands to the new lengths it stands for. */
  lemma {:induction false} PieceReadBack(p: Piece, was: seq<nat>, now: seq<nat>, pre: seq<nat>, s: Spec.Stream)
    requires Lengths(pre) && Usable(pre) && |was| == |now| && SmallLengths(was) && SmallLengths(now)
    requires PieceOk(p, was, now, pre)
    ensures var r := Spec.GetRun(pre, Ahead(PieceBits(p, was, now, pre), s));
            && r.Some? && r.value.1 == s && Spec.RunLength(r.value.0) == PieceLength(p)
            && Spec.Expand(r.value.0, was[0]) == now[..PieceLength(p)]
  {
    hide Spec.GetCode, Spec.GetBits, ToBits, CodeBits, Ahead, Lengths, Usable, Pow2, Difference;
    SmallPowers();
    DifferenceLeads(was[0], now[0]);
    var d := Difference(was[0], now[0]);
    match p
    case Single =>
      GetCoded(pre, d, s);
      assert now[..1] == [now[0]];
    case ZeroRun(n) =>
      var (c, x, w) := if n < 20 then (17, n - 4, 4) else (18, n - 20, 5);
      AheadTwice(CodeBits(pre, c), ToBits(x, w), s);
      GetCoded(pre, c, Ahead(ToBits(x, w), s));
      GetNumber(x, w, s);
      assert now[..n] == seq(n, _ => 0);
    case EqualRun(n) =>
      AheadTwice(CodeBits(pre, 19), ToBits(n - 4, 1) + CodeBits(pre, d), s);
      AheadTwice(ToBits(n - 4, 1), CodeBits(pre, d), s);
      GetCoded(pre, 19, Ahead(ToBits(n - 4, 1), Ahead(CodeBits(pre, d), s)));
      GetNumber(n - 4, 1, Ahead(CodeBits(pre, d), s));
      GetCoded(pre, d, s);
      assert now[..n] == seq(n, _ => now[0]);
  }

  /**
   The code lengths of a tree, written by any division into pieces against the lengths of the block
   before, are read back as exactly those lengths, and exactly their bits are consumed.
   */
  lemma {:induction false} RunsReadBack(pieces: seq<Piece>, was: seq<nat>, now: seq<nat>, pre: seq<nat>, s: Spec.Stream)
    requires Lengths(pre) && Usable(pre) && |was| == |now| && SmallLengths(was) && SmallLengths(now)
    requires Covers(pieces, was, now, pre)
    ensures Spec.GetRuns(pre, Ahead(RunBits(pieces, was, now, pre), s), was) == Some((now, s))
    decreases |pieces|
  {
    hide Spec.GetRun, Spec.RunLength, Spec.Expand, Ahead, PieceBits, PieceOk, Lengths, Usable;
    if pieces == [] {
      NothingAhead(s);
    } else {
      var p := pieces[0];
      PieceFits(p, was, now, pre);
      var n := PieceLength(p);
      var s1 := Ahead(RunBits(pieces[1..], was[n..], now[n..], pre), s);
      AheadTwice(PieceBits(p, was, now, pre), RunBits(pieces[1..], was[n..], now[n..], pre), s);
      PieceReadBack(p, was, now, pre, s1);
      RunsReadBack(pieces[1..], was[n..], now[n..], pre, s);
      assert now[..n] + now[n..] == now;
    }
  }

  lemma PieceFits(p: Piece, was: seq<nat>, now: seq<nat>, pre: seq<nat>)
    requires |was| == |now| && PieceOk(p, was, now, pre)
    ensures 0 < PieceLength(p) <= |now|
  {
  }

  // ---------------------------------------------------------------- trees

  /** How a tree is written: its pre-tree, and the division of its positions. */
  datatype Tree = Tree(pre: seq<nat>, pieces: seq<Piece>)

  ghost predicate TreeOk(t: Tree, was: seq<nat>, now: seq<nat>) {
    && |t.pre| == 20 && (forall i :: 0 <= i < 20 ==> t.pre[i] < 16) && Usable(t.pre)
    && |was| == |now| && SmallLengths(was) && SmallLengths(now) && Covers(t.pieces, was, now, t.pre)
  }

  ghost function TreeBits(t: Tree, was: seq<nat>, now: seq<nat>): seq<bool>
    requires TreeOk(t, was, now)
  {
    FieldBits(t.pre, 4) + RunBits(t.pieces, was, now, t.pre)
  }

  lemma {:induction false} TreeReadBack(t: Tree, was: seq<nat>, now: seq<nat>, s: Spec.Stream)
    requires TreeOk(t, was, now)
    ensures Spec.GetTree(Ahead(TreeBits(t, was, now), s), was) == Some((now, s))
  {
    hide Spec.GetFields, Spec.GetRuns, Ahead, FieldBits, RunBits, Covers, Usable, Pow2;
    SmallPowers();
    AheadTwice(FieldBits(t.pre, 4), RunBits(t.pieces, was, now, t.pre), s);
    GetFieldBits(t.pre, 4, Ahead(RunBits(t.pieces, was, now, t.pre), s));
    RunsReadBack(t.pieces, was, now, t.pre, s);
  }

  // ---------------------------------------------------------------- plain LZ77

  /** A byte, or the repetition of `length` bytes from `offset` back. */
  datatype Item = Lit(b: byte) | Match(offset: nat, length: nat)

  function ItemLength(i: Item): nat {
    if i.Lit? then 1 else i.length
  }

  function TotalLength(items: seq<Item>): nat {
    if items == [] then 0 else ItemLength(items[0]) + TotalLength(items[1..])
  }

  /** Byte by byte, each the one `offset` back, be it old or just written. */
  function CopyOn(out: seq<byte>, offset: nat, n: nat): (r: seq<byte>)
    requires 0 < offset <= |out|
    ensures |r| == |out| + n
    decreases n
  {
    if n == 0 then out else CopyOn(out + [out[|out| - offset]], offset, n - 1)
  }

  predicate Playable(out: seq<byte>, i: Item) {
    i.Match? ==> 0 < i.offset <= |out|
  }

  function Play(out: seq<byte>, i: Item): (r: seq<byte>)
    requires Playable(out, i)
    ensures |r| == |out| + ItemLength(i)
  {
    if i.Lit? then out + [i.b] else CopyOn(out, i.offset, i.length)
  }

  predicate AllPlayable(out: seq<byte>, items: seq<Item>)
    decreases |items|
  {
    items != [] ==> Playable(out, items[0]) && AllPlayable(Play(out, items[0]), items[1..])
  }

  /** What a list of items stands for, after `out`. */
  function PlayAll(out: seq<byte>, items: seq<Item>): (r: seq<byte>)
    requires AllPlayable(out, items)
    ensures |r| == |out| + TotalLength(items)
    decreases |items|
  {
    if items == [] then out else PlayAll(Play(out, items[0]), items[1..])
  }

  /** The copy keeps what was there, and every new byte equals the one `offset` before it. */
  lemma {:induction false} CopyOnIs(out: seq<byte>, offset: nat, n: nat)
    requires 0 < offset <= |out|
    ensures CopyOn(out, offset, n)[..|out|] == out
    ensures forall j :: |out| <= j < |out| + n ==> CopyOn(out, offset, n)[j] == CopyOn(out, offset, n)[j - offset]
    decreases n
  {
    if n > 0 {
      var more := out + [out[|out| - offset]];
      CopyOnIs(more, offset, n - 1);
      var r := CopyOn(more, offset, n - 1);
      assert r[..|out|] == r[..|more|][..|out|] == out;
      assert r[|out|] == r[..|more|][|out|] == more[|out|];
      assert r[|out| - offset] == r[..|more|][|out| - offset];
    }
  }

  // ---------------------------------------------------------------- recent offsets

  /** How a match gives its offset: anew, or as one of the three recent ones. */
  datatype Choice = Anew | Recent(k: nat)

  ghost predicate ChoiceOk(recents: seq<nat>, offset: nat, c: Choice) {
    |recents| == 3 && (c.Recent? ==> c.k < 3 && recents[c.k] == offset)
  }

  /** A used offset comes first. If it was recent, the first one takes its place; if not, the first two move up. */
  function Use(recents: seq<nat>, offset: nat, c: Choice): (r: seq<nat>)
    requires |recents| == 3
    ensures |r| == 3
  {
    match c
    case Anew => [offset, recents[0], recents[1]]
    case Recent(k) =>
      seq(3, i requires 0 <= i < 3 => if i == 0 then offset else if i == k then recents[0] else recents[i])
  }

  function UseItem(recents: seq<nat>, i: Item, c: Choice): (r: seq<nat>)
    requires |recents| == 3
    ensures |r| == 3
  {
    if i.Lit? then recents else Use(recents, i.offset, c)
  }

  /** What happens to the recent offsets, slot by slot, on a repeated and on a new offset. */
  lemma {:induction false} TouchMeans(tok: Spec.Token, lru: seq<nat>)
    requires !tok.Literal? && |lru| == 3 && (tok.Repeat? ==> tok.slot < 3)
    ensures tok.Repeat? ==>
              var r := Spec.Touch(tok, lru);
              && r[0] == lru[tok.slot] && r[tok.slot] == lru[0]
              && multiset(r) == multiset(lru)
              && forall i :: 0 < i < 3 && i != tok.slot ==> r[i] == lru[i]
    ensures tok.Far? ==> Spec.Touch(tok, lru) == [tok.offset, lru[0], lru[1]]
  {
    if tok.Repeat? {
      assert lru == [lru[0], lru[1], lru[2]];
      var r := Spec.Touch(tok, lru);
      assert r == [r[0], r[1], r[2]];
    }
  }

  function TokenOf(i: Item, c: Choice): Spec.Token {
    match i
    case Lit(b) => Spec.Literal(b)
    case Match(offset, length) => if c.Recent? then Spec.Repeat(c.k, length) else Spec.Far(offset, length)
  }

  /** The window holds `out` so far. */
  ghost predicate Holds(z: Spec.Lz, out: seq<byte>, recents: seq<nat>) {
    Spec.LzOk(z) && z.win[..z.pos] == out && z.lru == recents
  }

  /** The periodic repetition of the window is the byte-by-byte copy. */
  lemma {:induction false} RepeatedIsCopy(win: seq<byte>, pos: nat, offset: nat, n: nat, j: nat)
    requires 0 < offset <= pos <= j < pos + n <= |win|
    ensures Spec.Repeated(win, pos, offset, j) == CopyOn(win[..pos], offset, n)[j]
    decreases j
  {
    hide CopyOn, Spec.Repeated;
    Spec.RepeatedStep(win, pos, offset, j);
    var r := CopyOn(win[..pos], offset, n);
    CopyOnIs(win[..pos], offset, n);
    assert r[j] == r[j - offset];
    if j < pos + offset {
      assert r[j - offset] == r[..pos][j - offset] == win[j - offset];
    } else {
      RepeatedIsCopy(win, pos, offset, n, j - offset);
    }
  }

  /** A token does to the window and the recent offsets what its item and choice say. */
  lemma {:induction false} ApplyPlays(z: Spec.Lz, i: Item, c: Choice, out: seq<byte>, recents: seq<nat>, end: nat)
    requires Holds(z, out, recents) && Playable(out, i) && (i.Match? ==> ChoiceOk(recents, i.offset, c))
    requires 0 < ItemLength(i) && z.pos + ItemLength(i) <= end <= 32768
    ensures var r := Spec.Apply(TokenOf(i, c), z, end);
            && r.Some? && r.value.pos == z.pos + ItemLength(i)
            && Holds(r.value, Play(out, i), UseItem(recents, i, c))
  {
    hide CopyOn, Spec.Repeated;
    var z1 := Spec.Apply(TokenOf(i, c), z, end).value;
    match i
    case Lit(b) =>
      assert z1.win[..z1.pos] == out + [b];
    case Match(offset, n) =>
      CopyOnIs(out, offset, n);
      forall j | 0 <= j < z1.pos
        ensures z1.win[j] == CopyOn(out, offset, n)[j]
      {
        if j < z.pos {
          assert CopyOn(out, offset, n)[j] == CopyOn(out, offset, n)[..|out|][j];
        } else {
          RepeatedIsCopy(z.win, z.pos, offset, n, j);
        }
      }
      assert z1.lru == Use(recents, offset, c);
  }

  // ---------------------------------------------------------------- tokens in bits

  /** The slot of an offset: the last one, from `slot` on, that begins at or before `x`. */
  function SlotFrom(x: nat, slot: nat): (r: nat)
    requires slot <= 29
    ensures slot <= r <= 29
    decreases 29 - slot
  {
    if slot == 29 || x < Spec.BasePosition(slot + 1) then slot else SlotFrom(x, slot + 1)
  }

  lemma {:induction false} SlotFromIs(x: nat, slot: nat)
    requires slot <= 29 && Spec.BasePosition(slot) <= x < Spec.BasePosition(30)
    ensures Spec.BasePosition(SlotFrom(x, slot)) <= x < Spec.BasePosition(SlotFrom(x, slot) + 1)
    decreases 29 - slot
  {
    hide Spec.BasePosition;
    if !(slot == 29 || x < Spec.BasePosition(slot + 1)) {
      SlotFromIs(x, slot + 1);
    }
  }

  /** Offsets are coded plus two, from slot 3 on. */
  function SlotOf(offset: nat): (slot: nat)
    ensures 3 <= slot <= 29
  {
    SlotFrom(offset + 2, 3)
  }

  /** What is left of an offset in its slot. */
  lemma {:induction false} FooterIs(offset: nat)
    requires 1 <= offset <= 32765
    ensures var slot := SlotOf(offset);
            0 <= offset + 2 - Spec.BasePosition(slot) < Pow2(Spec.FooterBits(slot))
  {
    hide Spec.BasePosition, Pow2, SlotFrom;
    Spec.BaseThirty();
    SlotFromIs(offset + 2, 3);
    Spec.BaseStep(SlotOf(offset));
  }

  function TokenSlot(tok: Spec.Token): nat
    requires !tok.Literal?
  {
    if tok.Repeat? then tok.slot else SlotOf(tok.offset)
  }

  /** The low three bits of a match's main symbol: its length less two, or seven if that is more. */
  function LengthHeader(n: nat): nat
    requires n >= 2
  {
    if n - 2 < 7 then n - 2 else 7
  }

  function MainSymbol(tok: Spec.Token): nat
    requires !tok.Literal? ==> tok.len >= 2
  {
    if tok.Literal? then tok.v else 256 + 8 * TokenSlot(tok) + LengthHeader(tok.len)
  }

  ghost predicate CodesOk(t: Spec.Trees) {
    && |t.main| == 496 && Lengths(t.main) && Usable(t.main)
    && |t.length| == 249 && Lengths(t.length) && Usable(t.length)
    && (t.aligned.Some? ==> |t.aligned.value| == 8 && Lengths(t.aligned.value) && Usable(t.aligned.value))
  }

  /** Footers of three bits and more are split in blocks with an aligned-offset code. */
  predicate Split(t: Spec.Trees, slot: nat) {
    t.aligned.Some? && Spec.FooterBits(slot) >= 3
  }

  function Footer(offset: nat): (f: nat)
    requires 1 <= offset <= 32765
  {
    FooterIs(offset);
    offset + 2 - Spec.BasePosition(SlotOf(offset))
  }

  /** A token the format has, with codewords for its symbols: lengths 2 to 257, offsets 1 to 32765. */
  ghost predicate TokenOk(t: Spec.Trees, tok: Spec.Token) {
    match tok
    case Literal(v) => v < 256 && Coded(t.main, v)
    case Repeat(slot, n) => slot < 3 && 2 <= n <= 257 && Coded(t.main, MainSymbol(tok)) && LengthCoded(t, n)
    case Far(offset, n) =>
      && 1 <= offset <= 32765 && 2 <= n <= 257 && Coded(t.main, MainSymbol(tok)) && LengthCoded(t, n)
      && (Split(t, SlotOf(offset)) ==> Coded(t.aligned.value, Footer(offset) % 8))
  }

  ghost predicate LengthCoded(t: Spec.Trees, n: nat) {
    n >= 9 ==> Coded(t.length, n - 9)
  }

  ghost function LengthBits(t: Spec.Trees, n: nat): seq<bool>
    requires LengthCoded(t, n)
  {
    if n >= 9 then CodeBits(t.length, n - 9) else []
  }

  ghost function OffsetBits(t: Spec.Trees, offset: nat): seq<bool>
    requires 1 <= offset <= 32765 && (Split(t, SlotOf(offset)) ==> Coded(t.aligned.value, Footer(offset) % 8))
  {
    var slot := SlotOf(offset);
    var n, f := Spec.FooterBits(slot), Footer(offset);
    if Split(t, slot) then ToBits(f / 8, n - 3) + CodeBits(t.aligned.value, f % 8) else ToBits(f, n)
  }

  ghost function TokenBits(t: Spec.Trees, tok: Spec.Token): seq<bool>
    requires TokenOk(t, tok)
  {
    match tok
    case Literal(v) => CodeBits(t.main, v)
    case Repeat(_, n) => CodeBits(t.main, MainSymbol(tok)) + LengthBits(t, n)
    case Far(offset, n) => CodeBits(t.main, MainSymbol(tok)) + (LengthBits(t, n) + OffsetBits(t, offset))
  }

  lemma {:induction false} LengthReadBack(t: Spec.Trees, n: nat, s: Spec.Stream)
    requires CodesOk(t) && 2 <= n <= 257 && LengthCoded(t, n)
    ensures Spec.GetMatchLength(t, LengthHeader(n), Ahead(LengthBits(t, n), s)) == Some((n, s))
  {
    hide Spec.GetCode, CodeBits, Ahead, Usable, Lengths;
    NothingAhead(s);
    if n >= 9 {
      GetCoded(t.length, n - 9, s);
    }
  }

  lemma {:induction false} OffsetReadBack(t: Spec.Trees, offset: nat, n: nat, s: Spec.Stream)
    requires CodesOk(t) && 1 <= offset <= 32765
    requires Split(t, SlotOf(offset)) ==> Coded(t.aligned.value, Footer(offset) % 8)
    ensures Spec.GetOffset(t, SlotOf(offset), n, Ahead(OffsetBits(t, offset), s)) == Some((Spec.Far(offset, n), s))
  {
    hide Spec.GetCode, Spec.GetBits, CodeBits, ToBits, Ahead, Usable, Lengths, Pow2, Spec.BasePosition, SlotOf;
    var slot, f := SlotOf(offset), Footer(offset);
    var k := Spec.FooterBits(slot);
    FooterIs(offset);
    Spec.BasePositive(slot);
    if Split(t, slot) {
      AheadTwice(ToBits(f / 8, k - 3), CodeBits(t.aligned.value, f % 8), s);
      EighthBound(f, k);
      GetNumber(f / 8, k - 3, Ahead(CodeBits(t.aligned.value, f % 8), s));
      GetCoded(t.aligned.value, f % 8, s);
    } else {
      GetNumber(f, k, s);
      NoFooter();
      NoBits(f);
      NothingAhead(s);
    }
  }

  lemma NoFooter()
    ensures Pow2(0) == 1
  {
  }

  lemma NoBits(x: nat)
    ensures ToBits(x, 0) == []
  {
  }

  lemma EighthBound(f: nat, k: nat)
    requires k >= 3 && f < Pow2(k)
    ensures f / 8 < Pow2(k - 3)
  {
    assert Pow2(k) == 2 * Pow2(k - 1) && Pow2(k - 1) == 2 * Pow2(k - 2) && Pow2(k - 2) == 2 * Pow2(k - 3);
  }

  /** A token is read back from its bits, and exactly those are consumed. */
  lemma {:induction false} TokenReadBack(t: Spec.Trees, tok: Spec.Token, s: Spec.Stream)
    requires CodesOk(t) && TokenOk(t, tok)
    ensures Spec.GetToken(t, Ahead(TokenBits(t, tok), s)) == Some((tok, s))
  {
    hide Spec.GetCode, CodeBits, Ahead, Usable, Lengths, Spec.GetOffset, Spec.GetMatchLength, LengthBits, OffsetBits;
    hide SlotOf;
    match tok
    case Literal(v) =>
      GetCoded(t.main, v, s);
    case Repeat(slot, n) =>
      AheadTwice(CodeBits(t.main, MainSymbol(tok)), LengthBits(t, n), s);
      GetCoded(t.main, MainSymbol(tok), Ahead(LengthBits(t, n), s));
      LengthReadBack(t, n, s);
      RepeatIs(t, slot, n, s);
    case Far(offset, n) =>
      AheadTwice(CodeBits(t.main, MainSymbol(tok)), LengthBits(t, n) + OffsetBits(t, offset), s);
      AheadTwice(LengthBits(t, n), OffsetBits(t, offset), s);
      var s1 := Ahead(OffsetBits(t, offset), s);
      GetCoded(t.main, MainSymbol(tok), Ahead(LengthBits(t, n), s1));
      LengthReadBack(t, n, s1);
      OffsetReadBack(t, offset, n, s);
  }

  lemma RepeatIs(t: Spec.Trees, slot: nat, n: nat, s: Spec.Stream)
    requires slot < 3
    ensures Spec.GetOffset(t, slot, n, s) == Some((Spec.Repeat(slot, n), s))
  {
  }

  // ---------------------------------------------------------------- lists of items

  /** Items that can be written with these codes and choices, after `out`, with these recent offsets. */
  ghost predicate ItemsOk(t: Spec.Trees, items: seq<Item>, choices: seq<Choice>, out: seq<byte>, recents: seq<nat>)
    decreases |items|
  {
    && |items| == |choices| && |recents| == 3
    && (items != [] ==>
          var i, c := items[0], choices[0];
          && Playable(out, i) && (i.Match? ==> ChoiceOk(recents, i.offset, c)) && TokenOk(t, TokenOf(i, c))
          && ItemsOk(t, items[1..], choices[1..], Play(out, i), UseItem(recents, i, c)))
  }

  function UseAll(recents: seq<nat>, items: seq<Item>, choices: seq<Choice>): (r: seq<nat>)
    requires |recents| == 3 && |items| == |choices|
    ensures |r| == 3
    decreases |items|
  {
    if items == [] then recents else UseAll(UseItem(recents, items[0], choices[0]), items[1..], choices[1..])
  }

  ghost function ItemBits(t: Spec.Trees, items: seq<Item>, choices: seq<Choice>, out: seq<byte>,
                          recents: seq<nat>): seq<bool>
    requires ItemsOk(t, items, choices, out, recents)
    decreases |items|
  {
    if items == [] then []
    else
      var i, c := items[0], choices[0];
      TokenBits(t, TokenOf(i, c)) + ItemBits(t, items[1..], choices[1..], Play(out, i), UseItem(recents, i, c))
  }

  lemma {:induction false} ItemsPlayable(t: Spec.Trees, items: seq<Item>, choices: seq<Choice>, out: seq<byte>,
                                         recents: seq<nat>)
    requires ItemsOk(t, items, choices, out, recents)
    ensures AllPlayable(out, items)
    decreases |items|
  {
    hide TokenOk, Play;
    if items != [] {
      ItemsPlayable(t, items[1..], choices[1..], Play(out, items[0]), UseItem(recents, items[0], choices[0]));
    }
  }

  /**
   A block means its plain list of bytes and repetitions, however each offset was given: the token
   interpreter leaves in the window what the list stands for.
   */
  lemma {:induction false} ItemsReadBack(
      t: Spec.Trees, items: seq<Item>, choices: seq<Choice>, z: Spec.Lz, out: seq<byte>, recents: seq<nat>,
      s: Spec.Stream)
    requires CodesOk(t) && Holds(z, out, recents) && ItemsOk(t, items, choices, out, recents)
    requires z.pos + TotalLength(items) <= 32768
    ensures AllPlayable(out, items)
    ensures var plain, bits := PlayAll(out, items), ItemBits(t, items, choices, out, recents);
            Decodes(t, Ahead(bits, s), z, z.pos + TotalLength(items), s, plain, UseAll(recents, items, choices))
    decreases |items|
  {
    hide Spec.GetToken, Spec.Apply, TokenBits, Ahead, TokenOk, CodesOk, Play, UseItem, TokenOf, Playable, ChoiceOk;
    hide Holds;
    ItemsPlayable(t, items, choices, out, recents);
    var end := z.pos + TotalLength(items);
    HoldsOk(z, out, recents);
    if items == [] {
      NothingAhead(s);
    } else {
      var i, c := items[0], choices[0];
      var rest := ItemBits(t, items[1..], choices[1..], Play(out, i), UseItem(recents, i, c));
      ItemPositive(t, i, c);
      AheadTwice(TokenBits(t, TokenOf(i, c)), rest, s);
      TokenReadBack(t, TokenOf(i, c), Ahead(rest, s));
      ApplyPlays(z, i, c, out, recents, end);
      var z1 := Spec.Apply(TokenOf(i, c), z, end).value;
      ItemsReadBack(t, items[1..], choices[1..], z1, Play(out, i), UseItem(recents, i, c), s);
    }
  }

  /** The token interpreter reads `s` up to `rest` and then holds `plain`. */
  ghost predicate Decodes(t: Spec.Trees, s: Spec.Stream, z: Spec.Lz, end: nat, rest: Spec.Stream, plain: seq<byte>,
                          recents: seq<nat>)
  {
    && Spec.LzOk(z) && end <= 32768
    && var r := Spec.Decompress(t, s, z, end);
       r.Some? && r.value.1 == rest && r.value.0.pos == end && Holds(r.value.0, plain, recents)
  }

  lemma HoldsOk(z: Spec.Lz, out: seq<byte>, recents: seq<nat>)
    requires Holds(z, out, recents)
    ensures Spec.LzOk(z)
  {
  }

  lemma ItemPositive(t: Spec.Trees, i: Item, c: Choice)
    requires TokenOk(t, TokenOf(i, c))
    ensures ItemLength(i) > 0
  {
  }

  // ---------------------------------------------------------------- blocks

  /** What a writer has behind it: the code lengths in force, what it has written, and the recent offsets. */
  datatype Progress = Progress(main: seq<nat>, length: seq<nat>, out: seq<byte>, recents: seq<nat>)

  /**
   A block and how it is written. A stored block carries three new recent offsets, of which 16 bits
   count, and is padded to a word before and, with a byte, after it.
   */
  datatype Block =
    | Packed(
        full: bool, trees: Spec.Trees, low: Tree, high: Tree, lengths: Tree, items: seq<Item>, choices: seq<Choice>)
    | Stored(full: bool, pad: seq<bool>, recents: seq<u32>, data: seq<byte>, filler: byte)

  function BlockSize(b: Block): nat {
    if b.Packed? then TotalLength(b.items) else |b.data|
  }

  ghost predicate BlockOk(b: Block, w: Progress) {
    && |w.out| + BlockSize(b) <= 32768 && (b.full ==> BlockSize(b) == 32768)
    && |w.main| == 496 && |w.length| == 249 && |w.recents| == 3
    && match b
       case Packed(_, t, low, high, lengths, items, choices) =>
         && CodesOk(t) && (t.aligned.Some? ==> forall i :: 0 <= i < 8 ==> t.aligned.value[i] < 8)
         && TreeOk(low, w.main[..256], t.main[..256]) && TreeOk(high, w.main[256..], t.main[256..])
         && TreeOk(lengths, w.length, t.length) && ItemsOk(t, items, choices, w.out, w.recents)
       case Stored(_, pad, recents, _, _) => 1 <= |pad| <= 16 && |recents| == 3
  }

  ghost function After(b: Block, w: Progress): (r: Progress)
    requires BlockOk(b, w)
    ensures |r.out| == |w.out| + BlockSize(b)
    ensures |r.main| == 496 && |r.length| == 249 && |r.recents| == 3
  {
    match b
    case Packed(_, t, _, _, _, items, choices) =>
      ItemsPlayable(t, items, choices, w.out, w.recents);
      Progress(t.main, t.length, PlayAll(w.out, items), UseAll(w.recents, items, choices))
    case Stored(_, _, recents, data, _) =>
      Progress(w.main, w.length, w.out + data,
               [recents[0] % 0x1_0000, recents[1] % 0x1_0000, recents[2] % 0x1_0000])
  }

  /** Type, and the size unless it is the full 32768. */
  function SizeBits(kind: nat, full: bool, size: nat): seq<bool> {
    ToBits(kind, 3) + if full then ToBits(1, 1) else ToBits(0, 1) + ToBits(size, 16)
  }

  lemma {:induction false} SizeReadBack(kind: nat, full: bool, size: nat, s: Spec.Stream)
    requires kind < 8 && size <= 32768 && (full ==> size == 32768)
    ensures Spec.GetSize(Ahead(SizeBits(kind, full, size), s)) == Some(((kind, size), s))
  {
    hide Spec.GetBits, Ahead, ToBits, Pow2;
    SmallPowers();
    if full {
      AheadTwice(ToBits(kind, 3), ToBits(1, 1), s);
      GetNumber(kind, 3, Ahead(ToBits(1, 1), s));
      GetNumber(1, 1, s);
    } else {
      AheadTwice(ToBits(kind, 3), ToBits(0, 1) + ToBits(size, 16), s);
      AheadTwice(ToBits(0, 1), ToBits(size, 16), s);
      GetNumber(kind, 3, Ahead(ToBits(0, 1), Ahead(ToBits(size, 16), s)));
      GetNumber(0, 1, Ahead(ToBits(size, 16), s));
      GetNumber(size, 16, s);
    }
  }

  ghost function AlignedBits(t: Spec.Trees): seq<bool> {
    if t.aligned.Some? then FieldBits(t.aligned.value, 3) else []
  }

  /** A compressed block's codes: the aligned offsets', the main one in two halves, the lengths'. */
  ghost function CodesStream(b: Block, w: Progress, s: Spec.Stream): Spec.Stream
    requires BlockOk(b, w) && b.Packed?
  {
    Ahead(AlignedBits(b.trees),
          Ahead(TreeBits(b.low, w.main[..256], b.trees.main[..256]),
                Ahead(TreeBits(b.high, w.main[256..], b.trees.main[256..]),
                      Ahead(TreeBits(b.lengths, w.length, b.trees.length), s))))
  }

  lemma {:induction false} CodesReadBack(b: Block, w: Progress, s: Spec.Stream)
    requires BlockOk(b, w) && b.Packed?
    ensures Spec.GetTrees(CodesStream(b, w, s), b.trees.aligned.Some?, w.main, w.length) == Some((b.trees, s))
  {
    hide Spec.GetTree, Spec.GetFields, Ahead, TreeBits, TreeOk, Usable, ItemsOk, FieldBits, Pow2, Lengths;
    var t := b.trees;
    var s3 := Ahead(TreeBits(b.lengths, w.length, t.length), s);
    var s2 := Ahead(TreeBits(b.high, w.main[256..], t.main[256..]), s3);
    var s1 := Ahead(TreeBits(b.low, w.main[..256], t.main[..256]), s2);
    SmallPowers();
    if t.aligned.Some? {
      GetFieldBits(t.aligned.value, 3, s1);
    } else {
      NothingAhead(s1);
    }
    TreeReadBack(b.low, w.main[..256], t.main[..256], s2);
    TreeReadBack(b.high, w.main[256..], t.main[256..], s3);
    TreeReadBack(b.lengths, w.length, t.length, s);
    assert t.main[..256] + t.main[256..] == t.main;
  }

  /** Three 32-bit numbers, then the data, then a byte if the data are odd. */
  function StoredBytes(recents: seq<u32>, data: seq<byte>, filler: byte): seq<byte>
    requires |recents| == 3
  {
    Le(recents[0], 4) + Le(recents[1], 4) + Le(recents[2], 4) + data + if |data| % 2 == 1 then [filler] else []
  }

  /** The stream is at a word boundary. */
  ghost predicate AtWord(s: Spec.Stream) {
    |s.bits| % 16 == 0 && |s.last| <= 1
  }

  /** A block in front of a stream: type 1 or 2 for compressed blocks, 3 for stored ones. */
  ghost function BlockStream(b: Block, w: Progress, s: Spec.Stream): Spec.Stream
    requires BlockOk(b, w)
  {
    match b
    case Packed(full, t, _, _, _, items, choices) =>
      Ahead(SizeBits(if t.aligned.Some? then 2 else 1, full, BlockSize(b)),
            CodesStream(b, w, Ahead(ItemBits(t, items, choices, w.out, w.recents), s)))
    case Stored(full, pad, recents, data, filler) =>
      Ahead(SizeBits(3, full, BlockSize(b)),
            Ahead(pad, Spec.StreamOf(StoredBytes(recents, data, filler) + Spec.BytesOf(s))))
  }

  /** The reader has read what the writer has behind it, and will read `s` next. */
  ghost predicate Follows(st: Spec.State, w: Progress, s: Spec.Stream) {
    && Spec.StateOk(st) && Spec.Realign(st.s, st.unaligned) == Some(s)
    && st.main == w.main && st.length == w.length && st.z.pos == |w.out| && Holds(st.z, w.out, w.recents)
  }

  lemma {:induction false} PackedReadBack(st: Spec.State, b: Block, w: Progress, s: Spec.Stream)
    requires BlockOk(b, w) && b.Packed? && Follows(st, w, BlockStream(b, w, s)) && |s.last| <= 1
    ensures Spec.Block(st).Some? && Follows(Spec.Block(st).value, After(b, w), s)
  {
    hide Spec.GetTrees, Spec.Decompress, Spec.GetSize, Ahead, SizeBits, ItemBits, CodesStream, ItemsOk, TreeOk, CodesOk;
    hide Spec.BytesOf, Spec.StreamOf, Holds, TotalLength, PlayAll, UseAll;
    var items := ItemBits(b.trees, b.items, b.choices, w.out, w.recents);
    var codes := CodesStream(b, w, Ahead(items, s));
    SizeReadBack(if b.trees.aligned.Some? then 2 else 1, b.full, BlockSize(b), codes);
    CodesReadBack(b, w, Ahead(items, s));
    ItemsReadBack(b.trees, b.items, b.choices, st.z, w.out, w.recents, s);
    assert Spec.GetHeader(st.s, st.unaligned) == Some((Spec.Compressed(b.trees.aligned.Some?, BlockSize(b)), codes));
  }

  // ---------------------------------------------------------------- stored blocks

  /** Whole words of bits, as bytes, are read as those bits; so is an odd last byte. */
  lemma {:induction false} StreamOfBytes(s: Spec.Stream)
    requires AtWord(s)
    ensures Spec.StreamOf(Spec.BytesOf(s)) == s
  {
    WordsOfBytes(s.bits, s.last);
  }

  lemma {:induction false} WordsOfBytes(bits: seq<bool>, last: seq<byte>)
    requires |bits| % 16 == 0 && |last| <= 1
    ensures Spec.WordsBits(Spec.WordBytes(bits) + last) == bits && Spec.OddTail(Spec.WordBytes(bits) + last) == last
  {
    hide Val, ToBits;
    if bits == [] {
      assert Spec.WordBytes(bits) + last == last;
    } else {
      var w, rest := bits[..16], bits[16..];
      assert bits == w + rest;
      Spec.WordBytesStep(w, rest);
      WordsOfBytes(rest, last);
      var lo, hi := Val(w) % 256, Val(w) / 256;
      var tail := Spec.WordBytes(rest) + last;
      assert Spec.WordBytes(bits) + last == [lo, hi] + tail;
      Spec.WordsBitsCons(lo, hi, tail);
      assert Spec.Word(lo, hi) == Val(w);
      ToBitsVal(w);
      Spec.OddTailCons(lo, hi, tail);
    }
  }

  /** A byte string is a stream at a word boundary. */
  lemma BytesAtWord(b: seq<byte>)
    ensures AtWord(Spec.StreamOf(b))
  {
  }

  /** The low half of a 32-bit number is its first word. */
  lemma {:induction false} LowHalf(x: u32)
    ensures Spec.Word(Le(x, 4)[0], Le(x, 4)[1]) == x % 0x1_0000
  {
    assert Le(x, 4)[0] == x % 256;
    assert Le(x, 4)[1] == Le(x / 256, 3)[0] == x / 256 % 256;
  }

  lemma {:induction false} StoredLruIs(recents: seq<u32>, data: seq<byte>, filler: byte, rest: seq<byte>)
    requires |recents| == 3
    ensures var bytes := StoredBytes(recents, data, filler) + rest;
            && |bytes| >= 12 && bytes[12..] == data + (if |data| % 2 == 1 then [filler] else []) + rest
            && Spec.StoredLru(bytes) == [recents[0] % 0x1_0000, recents[1] % 0x1_0000, recents[2] % 0x1_0000]
  {
    hide Le, Spec.Word;
    var bytes := StoredBytes(recents, data, filler) + rest;
    LowHalf(recents[0]);
    LowHalf(recents[1]);
    LowHalf(recents[2]);
    assert bytes[0] == Le(recents[0], 4)[0] && bytes[1] == Le(recents[0], 4)[1];
    assert bytes[4] == Le(recents[1], 4)[0] && bytes[5] == Le(recents[1], 4)[1];
    assert bytes[8] == Le(recents[2], 4)[0] && bytes[9] == Le(recents[2], 4)[1];
  }

  /** The header of a stored block, up to its data. */
  lemma {:induction false} StoredHeader(b: Block, w: Progress, s: Spec.Stream, s0: Spec.Stream, unaligned: bool)
    requires BlockOk(b, w) && b.Stored? && Spec.Realign(s0, unaligned) == Some(BlockStream(b, w, s))
    ensures Spec.GetHeader(s0, unaligned)
         == Some((Spec.Raw(|b.data|, After(b, w).recents),
                  Spec.StreamOf(b.data + (if |b.data| % 2 == 1 then [b.filler] else []) + Spec.BytesOf(s))))
  {
    hide Spec.GetSize, Spec.GetBits, Ahead, SizeBits, Spec.BytesOf, Spec.StreamOf, Spec.StoredLru, StoredBytes;
    hide Spec.Realign;
    var bytes := StoredBytes(b.recents, b.data, b.filler) + Spec.BytesOf(s);
    var s2 := Spec.StreamOf(bytes);
    SizeReadBack(3, b.full, BlockSize(b), Ahead(b.pad, s2));
    BytesAtWord(bytes);
    PadIsRest(b.pad, s2);
    GetAhead(b.pad, s2);
    Spec.BytesOfStreamOf(bytes);
    StoredLruIs(b.recents, b.data, b.filler, Spec.BytesOf(s));
  }

  lemma PadIsRest(pad: seq<bool>, s: Spec.Stream)
    requires 1 <= |pad| <= 16 && AtWord(s)
    ensures Spec.WordRest(Ahead(pad, s)) == |pad|
  {
  }

  lemma {:induction false} StoredReadBack(st: Spec.State, b: Block, w: Progress, s: Spec.Stream)
    requires BlockOk(b, w) && b.Stored? && Follows(st, w, BlockStream(b, w, s)) && AtWord(s)
    ensures Spec.Block(st).Some? && Follows(Spec.Block(st).value, After(b, w), s)
  {
    hide Spec.GetHeader, Spec.BytesOf, Spec.StreamOf, BlockStream, Spec.Overwrite;
    StoredHeader(b, w, s, st.s, st.unaligned);
    Spec.HeaderConsumes(st.s, st.unaligned);
    var odd := if |b.data| % 2 == 1 then [b.filler] else [];
    var bytes := b.data + odd + Spec.BytesOf(s);
    Spec.BytesOfStreamOf(bytes);
    assert bytes[..|b.data|] == b.data;
    assert bytes[|b.data|..] == odd + Spec.BytesOf(s);
    StreamOfBytes(s);
    var st1 := Spec.Block(st).value;
    BytesAtWord(odd + Spec.BytesOf(s));
    OverwriteHolds(st.z.win, |w.out|, b.data);
    Spec.BytesOfStreamOf(odd + Spec.BytesOf(s));
    if |b.data| % 2 == 1 {
      assert ([b.filler] + Spec.BytesOf(s))[1..] == Spec.BytesOf(s);
    } else {
      assert [] + Spec.BytesOf(s) == Spec.BytesOf(s);
    }
  }

  lemma OverwriteHolds(win: seq<byte>, pos: nat, data: seq<byte>)
    requires pos + |data| <= |win|
    ensures Spec.Overwrite(win, pos, data)[..pos + |data|] == win[..pos] + data
  {
  }

  // ---------------------------------------------------------------- chunks

  /** All blocks of a chunk, in front of a stream. */
  ghost function ChunkStream(blocks: seq<Block>, w: Progress, tail: Spec.Stream): Spec.Stream
    requires BlocksOk(blocks, w)
    decreases |blocks|
  {
    if blocks == [] then tail
    else BlockStream(blocks[0], w, ChunkStream(blocks[1..], After(blocks[0], w), tail))
  }

  ghost predicate BlocksOk(blocks: seq<Block>, w: Progress)
    decreases |blocks|
  {
    blocks != [] ==> BlockOk(blocks[0], w) && BlocksOk(blocks[1..], After(blocks[0], w))
  }

  /** What follows a stored block is at a word boundary. */
  ghost predicate PaddedRight(blocks: seq<Block>, w: Progress, tail: Spec.Stream)
    requires BlocksOk(blocks, w)
    decreases |blocks|
  {
    && |tail.last| <= 1
    && (blocks != [] ==>
          && (blocks[0].Stored? ==> AtWord(ChunkStream(blocks[1..], After(blocks[0], w), tail)))
          && PaddedRight(blocks[1..], After(blocks[0], w), tail))
  }

  ghost function AfterAll(blocks: seq<Block>, w: Progress): (r: Progress)
    requires BlocksOk(blocks, w)
    ensures |r.out| >= |w.out|
    decreases |blocks|
  {
    if blocks == [] then w else AfterAll(blocks[1..], After(blocks[0], w))
  }

  lemma {:induction false} ChunkLast(blocks: seq<Block>, w: Progress, tail: Spec.Stream)
    requires BlocksOk(blocks, w) && PaddedRight(blocks, w, tail)
    ensures |ChunkStream(blocks, w, tail).last| <= 1
    decreases |blocks|
  {
    hide BlockOk, After, TreeBits, ItemBits, SizeBits, Spec.StreamOf;
    if blocks != [] {
      var s := ChunkStream(blocks[1..], After(blocks[0], w), tail);
      ChunkLast(blocks[1..], After(blocks[0], w), tail);
      BlockLast(blocks[0], w, s);
    }
  }

  lemma {:induction false} BlockLast(b: Block, w: Progress, s: Spec.Stream)
    requires BlockOk(b, w) && |s.last| <= 1
    ensures |BlockStream(b, w, s).last| <= 1
  {
    hide TreeBits, ItemBits, SizeBits, Spec.StreamOf, BlockOk;
    if b.Stored? {
      StoredShape(b, w);
      BytesAtWord(StoredBytes(b.recents, b.data, b.filler) + Spec.BytesOf(s));
    }
  }

  lemma StoredShape(b: Block, w: Progress)
    requires BlockOk(b, w) && b.Stored?
    ensures |b.recents| == 3
  {
  }

  lemma {:induction false} BlockReadBack(st: Spec.State, b: Block, w: Progress, s: Spec.Stream)
    requires BlockOk(b, w) && Follows(st, w, BlockStream(b, w, s)) && |s.last| <= 1 && (b.Stored? ==> AtWord(s))
    ensures Spec.Block(st).Some? && Follows(Spec.Block(st).value, After(b, w), s)
  {
    hide Spec.Block, Follows, BlockStream, After, BlockOk;
    if b.Packed? {
      PackedReadBack(st, b, w, s);
    } else {
      StoredReadBack(st, b, w, s);
    }
  }

  /** Output only grows, and stays the same when its length does. */
  lemma {:induction false} OutputGrows(blocks: seq<Block>, w: Progress)
    requires BlocksOk(blocks, w) && |AfterAll(blocks, w).out| == |w.out|
    ensures AfterAll(blocks, w).out == w.out
    decreases |blocks|
  {
    hide BlockOk;
    if blocks != [] {
      OutputGrows(blocks[1..], After(blocks[0], w));
      NothingWritten(blocks[0], w);
    }
  }

  lemma {:induction false} NothingWritten(b: Block, w: Progress)
    requires BlockOk(b, w) && BlockSize(b) == 0
    ensures After(b, w).out == w.out
  {
    hide TreeOk, CodesOk;
    if b.Packed? && b.items != [] {
      ItemPositive(b.trees, b.items[0], b.choices[0]);
    }
  }

  /**
   A chunk read from what its writer wrote: whatever blocks, codes, divisions into pieces and choices
   of offsets the writer used, the reader ends with the writer's output.
   */
  lemma {:induction false} ChunkReadBack(st: Spec.State, blocks: seq<Block>, w: Progress, tail: Spec.Stream, total: nat)
    requires BlocksOk(blocks, w) && PaddedRight(blocks, w, tail) && Follows(st, w, ChunkStream(blocks, w, tail))
    requires total == |AfterAll(blocks, w).out| <= 32768
    ensures Spec.StateOk(st) && Spec.Blocks(st, total).Some?
    ensures Spec.Blocks(st, total).value.z.win[..total] == AfterAll(blocks, w).out
    decreases |blocks|
  {
    hide Spec.Block, BlockStream, After, BlockOk, Spec.Realign, AtWord;
    FollowsHolds(st, w, ChunkStream(blocks, w, tail));
    if st.z.pos >= total {
      OutputGrows(blocks, w);
    } else {
      var s := ChunkStream(blocks[1..], After(blocks[0], w), tail);
      ChunkLast(blocks[1..], After(blocks[0], w), tail);
      BlockReadBack(st, blocks[0], w, s);
      ChunkReadBack(Spec.Block(st).value, blocks[1..], After(blocks[0], w), tail, total);
    }
  }

  lemma FollowsHolds(st: Spec.State, w: Progress, s: Spec.Stream)
    requires Follows(st, w, s)
    ensures Spec.StateOk(st) && st.z.pos == |w.out| && st.z.win[..st.z.pos] == w.out
  {
  }

  /** Blocks that are not empty are read as blocks that are not empty. */
  lemma {:induction false} NoEmptyBlock(st: Spec.State, blocks: seq<Block>, w: Progress, tail: Spec.Stream, total: nat)
    requires BlocksOk(blocks, w) && PaddedRight(blocks, w, tail) && Follows(st, w, ChunkStream(blocks, w, tail))
    requires total == |AfterAll(blocks, w).out| <= 32768 && forall i :: 0 <= i < |blocks| ==> BlockSize(blocks[i]) > 0
    ensures Spec.StateOk(st) && !Spec.HasEmptyBlock(st, total)
    decreases |blocks|
  {
    hide Spec.Block, BlockStream, After, BlockOk, Spec.Realign, AtWord;
    FollowsHolds(st, w, ChunkStream(blocks, w, tail));
    if st.z.pos < total {
      var s := ChunkStream(blocks[1..], After(blocks[0], w), tail);
      ChunkLast(blocks[1..], After(blocks[0], w), tail);
      BlockReadBack(st, blocks[0], w, s);
      FollowsHolds(Spec.Block(st).value, After(blocks[0], w), s);
      OutputLonger(blocks[0], w);
      NoEmptyBlock(Spec.Block(st).value, blocks[1..], After(blocks[0], w), tail, total);
    }
  }

  lemma OutputLonger(b: Block, w: Progress)
    requires BlockOk(b, w)
    ensures |After(b, w).out| == |w.out| + BlockSize(b)
  {
  }
}
