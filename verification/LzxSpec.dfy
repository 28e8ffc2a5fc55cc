/**
 The WIM variant of LZX as a format: what a compressed chunk means, stated over one unbroken
 bit string, with no buffers, registers or tables.
 */
module LzxSpec {
  import opened Bits
  import opened Wrappers
  import opened Huffman

  // ---------------------------------------------------------------- the input stream

  /** Input still to be decoded: whole 16-bit words as bits, then at most one odd byte. */
  datatype Stream = Stream(bits: seq<bool>, last: seq<byte>)

  /** A little-endian word. */
  function Word(lo: byte, hi: byte): (w: u16) {
    (hi as int) * 256 + lo as int
  }

  function WordBits(lo: byte, hi: byte): (s: seq<bool>)
    ensures |s| == 16
  {
    ToBits(Word(lo, hi), 16)
  }

  function WordsBits(s: seq<byte>): (r: seq<bool>)
    ensures |r| == |s| / 2 * 16
  {
    if |s| < 2 then []
    else
      assert |s[2..]| / 2 == |s| / 2 - 1;
      WordBits(s[0], s[1]) + WordsBits(s[2..])
  }

  function OddTail(s: seq<byte>): seq<byte> {
    if |s| % 2 == 1 then s[|s| - 1..] else []
  }

  function StreamOf(s: seq<byte>): Stream {
    Stream(WordsBits(s), OddTail(s))
  }

  /** The bytes of word-aligned bits. */
  function WordBytes(bits: seq<bool>): (r: seq<byte>)
    ensures |r| == |bits| / 16 * 2
  {
    if |bits| < 16 then []
    else
      var v := Val(bits[..16]);
      ShlConstants(1);
      ValBound(bits[..16]);
      [v % 256, v / 256] + WordBytes(bits[16..])
  }

  function BytesOf(s: Stream): seq<byte> {
    WordBytes(s.bits) + s.last
  }

  lemma {:induction false} ValWordBits(lo: byte, hi: byte)
    ensures Val(WordBits(lo, hi)) == Word(lo, hi)
  {
    ShlConstants(1);
    ValToBits(Word(lo, hi), 16);
  }

  lemma WordParts(lo: byte, hi: byte)
    ensures Word(lo, hi) % 256 == lo && Word(lo, hi) / 256 == hi
  {
  }

  lemma {:induction false} WordBytesStep(w: seq<bool>, rest: seq<bool>)
    requires |w| == 16
    ensures Val(w) < 0x1_0000
    ensures WordBytes(w + rest) == [Val(w) % 256, Val(w) / 256] + WordBytes(rest)
  {
    ShlConstants(1);
    ValBound(w);
    assert (w + rest)[..16] == w && (w + rest)[16..] == rest;
  }

  lemma {:induction false} WordsBitsCons(lo: byte, hi: byte, t: seq<byte>)
    ensures WordsBits([lo, hi] + t) == WordBits(lo, hi) + WordsBits(t)
  {
    assert ([lo, hi] + t)[2..] == t;
  }

  lemma OddTailCons(lo: byte, hi: byte, t: seq<byte>)
    ensures OddTail([lo, hi] + t) == OddTail(t)
  {
  }

  lemma {:induction false} WordBytesCons(lo: byte, hi: byte, t: seq<byte>)
    ensures WordBytes(WordsBits([lo, hi] + t)) == [lo, hi] + WordBytes(WordsBits(t))
  {
    WordsBitsCons(lo, hi, t);
    WordBytesStep(WordBits(lo, hi), WordsBits(t));
    ValWordBits(lo, hi);
    WordParts(lo, hi);
  }

  lemma {:induction false} WordBytesWordsBits(s: seq<byte>)
    ensures WordBytes(WordsBits(s)) + OddTail(s) == s
  {
    if |s| >= 2 {
      var lo, hi, t := s[0], s[1], s[2..];
      assert s == [lo, hi] + t;
      WordBytesCons(lo, hi, t);
      OddTailCons(lo, hi, t);
      WordBytesWordsBits(t);
    }
  }

  /** Reading bytes back from a byte-aligned stream. */
  lemma BytesOfStreamOf(s: seq<byte>)
    ensures BytesOf(StreamOf(s)) == s
  {
    WordBytesWordsBits(s);
  }

  // ---------------------------------------------------------------- bits and codes

  function GetBits(s: Stream, n: nat): (r: Option<(nat, Stream)>)
    ensures r.Some? ==> |r.value.1.bits| == |s.bits| - n && r.value.1.last == s.last
  {
    if |s.bits| < n then None
    else Some((Val(s.bits[..n]), s.(bits := s.bits[n..])))
  }

  /** The codeword of symbol `v` starts the bit string. */
  ghost predicate StartsWith(lens: seq<nat>, v: nat, bits: seq<bool>) {
    && v < |lens|
    && 0 < lens[v] <= |bits|
    && Val(bits[..lens[v]]) == Code(lens, v)
  }

  ghost function GetCode(lens: seq<nat>, s: Stream): (r: Option<(nat, Stream)>)
    ensures r.Some? ==> |r.value.1.bits| < |s.bits| && r.value.1.last == s.last
  {
    if exists v: nat :: StartsWith(lens, v, s.bits) then
      var v: nat :| StartsWith(lens, v, s.bits);
      Some((v, s.(bits := s.bits[lens[v]..])))
    else None
  }

  /** Codewords are found in at most one way. */
  lemma {:induction false} StartsWithUnique(lens: seq<nat>, v: nat, w: nat, bits: seq<bool>)
    requires StartsWith(lens, v, bits) && StartsWith(lens, w, bits)
    ensures v == w
  {
    var m := |bits|;
    ValSplit(bits, lens[v]);
    ValSplit(bits, lens[w]);
    PrefixFree(lens, v, w, m, Val(bits));
  }

  lemma GetCodeIs(lens: seq<nat>, v: nat, s: Stream)
    requires StartsWith(lens, v, s.bits)
    ensures GetCode(lens, s) == Some((v, s.(bits := s.bits[lens[v]..])))
  {
    var w: nat :| StartsWith(lens, w, s.bits) && GetCode(lens, s) == Some((w, s.(bits := s.bits[lens[w]..])));
    StartsWithUnique(lens, v, w, s.bits);
  }

  /** `n` fields of `width` bits. */
  function GetFields(s: Stream, n: nat, width: nat): (r: Option<(seq<nat>, Stream)>)
    ensures r.Some? ==> |r.value.0| == n && |r.value.1.bits| <= |s.bits| && r.value.1.last == s.last
    decreases n
  {
    if n == 0 then Some(([], s))
    else
      match GetBits(s, width)
      case None => None
      case Some((v, s1)) =>
        match GetFields(s1, n - 1, width)
        case None => None
        case Some((vs, s2)) => Some(([v] + vs, s2))
  }

  // ---------------------------------------------------------------- code lengths

  /** One instruction of the code-length encoding. */
  datatype Run = Delta(c: nat) | Zero(n: pos) | Same(n: pos, c: nat)

  type pos = n: int | n > 0 witness 1

  /** How many positions a run covers. */
  function RunLength(r: Run): (n: nat)
    ensures n > 0
  {
    match r
    case Delta(_) => 1
    case Zero(n) => n
    case Same(n, _) => n
  }

  /** The lengths a run stands for, given the previous length at its first position. */
  function Expand(r: Run, prev: nat): (lens: seq<nat>)
    ensures |lens| == RunLength(r)
  {
    match r
    case Delta(c) => [(prev + 17 - c) % 17]
    case Zero(n) => seq(n, _ => 0)
    case Same(n, c) => seq(n, _ => (prev + 17 - c) % 17)
  }

  ghost function GetRun(pre: seq<nat>, s: Stream): (r: Option<(Run, Stream)>)
    ensures r.Some? ==> |r.value.1.bits| < |s.bits| && r.value.1.last == s.last
  {
    match GetCode(pre, s)
    case None => None
    case Some((c, s1)) =>
      if c <= 16 then Some((Delta(c), s1))
      else if c == 17 then
        match GetBits(s1, 4)
        case None => None
        case Some((n, s2)) => Some((Zero(n + 4), s2))
      else if c == 18 then
        match GetBits(s1, 5)
        case None => None
        case Some((n, s2)) => Some((Zero(n + 20), s2))
      else if c == 19 then
        match GetBits(s1, 1)
        case None => None
        case Some((n, s2)) =>
          match GetCode(pre, s2)
          case None => None
          case Some((d, s3)) => if d <= 16 then Some((Same(n + 4, d), s3)) else None
      else None
  }

  /** Runs that together cover `prev` exactly, each position once. */
  ghost function GetRuns(pre: seq<nat>, s: Stream, prev: seq<nat>): (r: Option<(seq<nat>, Stream)>)
    ensures r.Some? ==> |r.value.0| == |prev| && |r.value.1.bits| <= |s.bits| && r.value.1.last == s.last
    decreases |prev|
  {
    if prev == [] then Some(([], s))
    else
      match GetRun(pre, s)
      case None => None
      case Some((run, s1)) =>
        var n := RunLength(run);
        if n > |prev| then None
        else
          match GetRuns(pre, s1, prev[n..])
          case None => None
          case Some((rest, s2)) => Some((Expand(run, prev[0]) + rest, s2))
  }

  const PRETREE_SIZE := 20

  /** New code lengths from the previous block's, preceded by their own small code. */
  ghost function GetTree(s: Stream, prev: seq<nat>): (r: Option<(seq<nat>, Stream)>)
    ensures r.Some? ==> |r.value.0| == |prev| && |r.value.1.bits| <= |s.bits| && r.value.1.last == s.last
  {
    match GetFields(s, PRETREE_SIZE, 4)
    case None => None
    case Some((pre, s1)) => if Usable(pre) then GetRuns(pre, s1, prev) else None
  }

  // ---------------------------------------------------------------- tokens

  datatype Token =
    | Literal(v: nat)
    | Repeat(slot: nat, len: nat)
    | Far(offset: nat, len: nat)

  /** Extra offset bits of a position slot. */
  function FooterBits(slot: nat): nat {
    if slot < 4 then 0 else slot / 2 - 1
  }

  /** First offset of a position slot: the slots tile the offsets. */
  function BasePosition(slot: nat): nat {
    if slot == 0 then 0 else BasePosition(slot - 1) + Pow2(FooterBits(slot - 1))
  }

  /** The codes in force for a block; `aligned` only in aligned-offset blocks. */
  datatype Trees = Trees(main: seq<nat>, length: seq<nat>, aligned: Option<seq<nat>>)

  /** The aligned-offset code, in blocks that have one. */
  ghost function GetAligned(s: Stream, present: bool): (r: Option<(Option<seq<nat>>, Stream)>)
    ensures r.Some? ==> |r.value.1.bits| <= |s.bits| && r.value.1.last == s.last
  {
    if !present then Some((None, s))
    else
      match GetFields(s, 8, 3)
      case None => None
      case Some((lens, s1)) => if Usable(lens) then Some((Some(lens), s1)) else None
  }

  /** The main code, its two halves encoded apart. */
  ghost function GetMain(s: Stream, prev: seq<nat>): (r: Option<(seq<nat>, Stream)>)
    requires |prev| == 496
    ensures r.Some? ==> |r.value.0| == 496 && |r.value.1.bits| <= |s.bits| && r.value.1.last == s.last
  {
    match GetTree(s, prev[..256])
    case None => None
    case Some((lo, s1)) =>
      match GetTree(s1, prev[256..])
      case None => None
      case Some((hi, s2)) => if Usable(lo + hi) then Some((lo + hi, s2)) else None
  }

  /** The codes of a block, given the lengths of the block before. */
  ghost function GetTrees(s: Stream, aligned: bool, main: seq<nat>, length: seq<nat>): (r: Option<(Trees, Stream)>)
    requires |main| == 496
    ensures r.Some? ==> |r.value.0.main| == 496 && |r.value.0.length| == |length|
    ensures r.Some? ==> |r.value.1.bits| <= |s.bits| && r.value.1.last == s.last
  {
    match GetAligned(s, aligned)
    case None => None
    case Some((al, s1)) =>
      match GetMain(s1, main)
      case None => None
      case Some((m, s2)) =>
        match GetTree(s2, length)
        case None => None
        case Some((l, s3)) => if Usable(l) then Some((Trees(m, l, al), s3)) else None
  }

  // ---------------------------------------------------------------- unusable pre-trees

  /** A pre-tree is read, and it is neither empty nor complete. */
  ghost predicate BadTree(s: Stream) {
    GetFields(s, 20, 4).Some? && !Usable(GetFields(s, 20, 4).value.0)
  }

  ghost predicate BadMain(s: Stream, prev: seq<nat>)
    requires |prev| == 496
  {
    BadTree(s) || (GetTree(s, prev[..256]).Some? && BadTree(GetTree(s, prev[..256]).value.1))
  }

  /** The first failure in reading a block's trees is an unusable pre-tree. */
  ghost predicate BadTrees(s: Stream, aligned: bool, main: seq<nat>)
    requires |main| == 496
  {
    && GetAligned(s, aligned).Some?
    && var s1 := GetAligned(s, aligned).value.1;
       BadMain(s1, main) || (GetMain(s1, main).Some? && BadTree(GetMain(s1, main).value.1))
  }

  /** Only symbols for differences have codewords, of one bit each. */
  ghost predicate Narrow(pre: seq<nat>) {
    |pre| == 20 && forall v :: 0 <= v < 20 && pre[v] > 0 ==> v <= 16 && pre[v] == 1
  }

  /** The lengths of the length tree are coded by a narrow pre-tree. */
  ghost predicate NarrowLengths(s: Stream, aligned: bool, main: seq<nat>)
    requires |main| == 496
  {
    && GetAligned(s, aligned).Some? && GetMain(GetAligned(s, aligned).value.1, main).Some?
    && var r := GetFields(GetMain(GetAligned(s, aligned).value.1, main).value.1, 20, 4);
       r.Some? && Narrow(r.value.0)
  }

  /** The low bits of a new offset. */
  ghost function GetFooter(t: Trees, slot: nat, s: Stream): (r: Option<(nat, Stream)>)
    ensures r.Some? ==> |r.value.1.bits| <= |s.bits| && r.value.1.last == s.last
  {
    var n := FooterBits(slot);
    if n == 0 then Some((0, s))
    else if t.aligned.Some? && n >= 3 then
      match GetBits(s, n - 3)
      case None => None
      case Some((v, s1)) =>
        match GetCode(t.aligned.value, s1)
        case None => None
        case Some((a, s2)) => Some((8 * v + a, s2))
    else GetBits(s, n)
  }

  ghost function GetMatchLength(t: Trees, header: nat, s: Stream): (r: Option<(nat, Stream)>)
    ensures r.Some? ==> |r.value.1.bits| <= |s.bits| && r.value.1.last == s.last
  {
    if header == 7 then
      match GetCode(t.length, s)
      case None => None
      case Some((v, s1)) => Some((v + 9, s1))
    else Some((header + 2, s))
  }

  /** The offset half of a match. */
  ghost function GetOffset(t: Trees, slot: nat, len: nat, s: Stream): (r: Option<(Token, Stream)>)
    ensures r.Some? ==> |r.value.1.bits| <= |s.bits| && r.value.1.last == s.last
  {
    if slot < 3 then Some((Repeat(slot, len), s))
    else
      match GetFooter(t, slot, s)
      case None => None
      case Some((f, s1)) => BasePositive(slot); Some((Far(BasePosition(slot) + f - 2, len), s1))
  }

  lemma {:induction false} BasePositive(slot: nat)
    ensures slot <= BasePosition(slot)
  {
    if slot > 0 {
      BasePositive(slot - 1);
    }
  }

  ghost function GetToken(t: Trees, s: Stream): (r: Option<(Token, Stream)>)
    ensures r.Some? ==> |r.value.1.bits| < |s.bits| && r.value.1.last == s.last
  {
    match GetCode(t.main, s)
    case None => None
    case Some((m, s1)) =>
      if m < 256 then Some((Literal(m), s1))
      else
        match GetMatchLength(t, (m - 256) % 8, s1)
        case None => None
        case Some((len, s2)) => GetOffset(t, (m - 256) / 8, len, s2)
  }

  // ---------------------------------------------------------------- the LZ77 interpreter

  /** Window contents, position of the next byte, and the three most recent offsets. */
  datatype Lz = Lz(win: seq<byte>, pos: nat, lru: seq<nat>)

  ghost predicate LzOk(z: Lz) {
    z.pos <= |z.win| == 32768 && |z.lru| == 3
  }

  /** The byte at `j` when the last `off` bytes before `pos` are repeated; offset zero leaves the window alone. */
  function Repeated(win: seq<byte>, pos: nat, off: nat, j: nat): byte
    requires off <= pos <= j < |win|
  {
    if off == 0 then win[j] else win[pos - off + (j - pos) % off]
  }

  /** A match repeats the last `off` bytes as often as needed. */
  function CopyMatch(win: seq<byte>, pos: nat, off: nat, len: nat): (r: seq<byte>)
    requires off <= pos && pos + len <= |win|
    ensures |r| == |win|
  {
    seq(|win|, j requires 0 <= j < |win| => if pos <= j < pos + len then Repeated(win, pos, off, j) else win[j])
  }

  /** Each repeated byte equals the one `off` before it. */
  lemma RepeatedStep(win: seq<byte>, pos: nat, off: nat, j: nat)
    requires 0 < off <= pos <= j < |win|
    ensures j < pos + off ==> Repeated(win, pos, off, j) == win[j - off]
    ensures j >= pos + off ==> Repeated(win, pos, off, j) == Repeated(win, pos, off, j - off)
  {
    if j < pos + off {
      DivUnique(j - pos, off, 0, j - pos);
    } else {
      ModShift(j - pos, off);
    }
  }

  function Offset(tok: Token, lru: seq<nat>): nat
    requires !tok.Literal? && |lru| == 3 && (tok.Repeat? ==> tok.slot < 3)
  {
    if tok.Repeat? then lru[tok.slot] else tok.offset
  }

  /** The used offset moves to the front. */
  function Touch(tok: Token, lru: seq<nat>): (r: seq<nat>)
    requires !tok.Literal? && |lru| == 3 && (tok.Repeat? ==> tok.slot < 3)
    ensures |r| == 3
  {
    match tok
    case Repeat(k, _) => lru[k := lru[0]][0 := lru[k]]
    case Far(off, _) => [off, lru[0], lru[1]]
  }

  /** One token, in a block that ends at `end`. */
  function Apply(tok: Token, z: Lz, end: nat): (r: Option<Lz>)
    requires LzOk(z) && z.pos < end <= 32768
    ensures r.Some? ==> LzOk(r.value) && z.pos < r.value.pos <= end
  {
    if tok.Literal? then
      if tok.v < 256 then Some(Lz(z.win[z.pos := tok.v], z.pos + 1, z.lru)) else None
    else if tok.Repeat? && tok.slot >= 3 then None
    else
      var off := Offset(tok, z.lru);
      if off <= z.pos && 0 < tok.len <= end - z.pos then
        Some(Lz(CopyMatch(z.win, z.pos, off, tok.len), z.pos + tok.len, Touch(tok, z.lru)))
      else None
  }

  /** A whole compressed block. */
  ghost function Decompress(t: Trees, s: Stream, z: Lz, end: nat): (r: Option<(Lz, Stream)>)
    requires LzOk(z) && end <= 32768
    ensures r.Some? ==>
              LzOk(r.value.0) && r.value.0.pos >= z.pos && |r.value.1.bits| <= |s.bits| && r.value.1.last == s.last
    decreases end - z.pos
  {
    if z.pos >= end then Some((z, s))
    else
      match GetToken(t, s)
      case None => None
      case Some((tok, s1)) =>
        match Apply(tok, z, end)
        case None => None
        case Some(z1) => Decompress(t, s1, z1, end)
  }

  // ---------------------------------------------------------------- blocks

  datatype Header = Compressed(aligned: bool, size: nat) | Raw(size: nat, lru: seq<nat>)

  /** After an odd uncompressed block one byte restores word alignment. */
  function Realign(s: Stream, unaligned: bool): Option<Stream> {
    if !unaligned then Some(s)
    else if BytesOf(s) == [] then None
    else Some(StreamOf(BytesOf(s)[1..]))
  }

  /** Block type, then block size. */
  function GetSize(s: Stream): (r: Option<((nat, nat), Stream)>)
    ensures r.Some? ==> r.value.0.1 <= 32768 && |r.value.1.bits| < |s.bits| && r.value.1.last == s.last
  {
    match GetBits(s, 3)
    case None => None
    case Some((kind, s1)) =>
      match GetBits(s1, 1)
      case None => None
      case Some((full, s2)) =>
        if full != 0 then Some(((kind, 32768), s2))
        else
          match GetBits(s2, 16)
          case None => None
          case Some((size, s3)) => if size <= 32768 then Some(((kind, size), s3)) else None
  }

  /** What is left of the current word, or a whole word when nothing is left. */
  function WordRest(s: Stream): nat {
    if |s.bits| % 16 == 0 then 16 else |s.bits| % 16
  }

  /** The offsets stored in front of an uncompressed block: the low halves of three 32-bit words. */
  function StoredLru(bytes: seq<byte>): seq<nat>
    requires |bytes| >= 12
  {
    [Word(bytes[0], bytes[1]), Word(bytes[4], bytes[5]), Word(bytes[8], bytes[9])]
  }

  function GetHeader(s: Stream, unaligned: bool): (r: Option<(Header, Stream)>)
    ensures r.Some? ==> r.value.0.size <= 32768
  {
    match Realign(s, unaligned)
    case None => None
    case Some(s0) =>
      match GetSize(s0)
      case None => None
      case Some(((kind, size), s1)) =>
        if kind == 1 || kind == 2 then Some((Compressed(kind == 2, size), s1))
        else if kind != 3 then None
        else
          match GetBits(s1, WordRest(s1))
          case None => None
          case Some((_, s2)) =>
            if |BytesOf(s2)| < 12 then None
            else Some((Raw(size, StoredLru(BytesOf(s2))), StreamOf(BytesOf(s2)[12..])))
  }

  /** Everything that one block hands to the next. */
  datatype State = State(s: Stream, unaligned: bool, main: seq<nat>, length: seq<nat>, z: Lz)

  ghost predicate StateOk(st: State) {
    && LzOk(st.z) && |st.main| == 496
    && |st.s.last| <= 1 && (st.unaligned ==> |st.s.bits| % 16 == 0)
  }

  /** The block at the current position, if it fits the window. */
  ghost function Block(st: State): (r: Option<State>)
    requires StateOk(st)
    ensures r.Some? ==> StateOk(r.value) && st.z.pos <= r.value.z.pos && |r.value.s.bits| < |st.s.bits|
  {
    match GetHeader(st.s, st.unaligned)
    case None => None
    case Some((h, s1)) =>
      HeaderConsumes(st.s, st.unaligned);
      var end := st.z.pos + h.size;
      if end > 32768 then None
      else
        match h
        case Compressed(aligned, _) => CompressedBlock(st, aligned, s1, end)
        case Raw(size, lru) => RawBlock(st, s1, lru, size)
  }

  ghost function CompressedBlock(st: State, aligned: bool, s: Stream, end: nat): (r: Option<State>)
    requires StateOk(st) && st.z.pos <= end <= 32768 && |s.last| <= 1
    ensures r.Some? ==> StateOk(r.value) && st.z.pos <= r.value.z.pos && |r.value.s.bits| <= |s.bits|
  {
    match GetTrees(s, aligned, st.main, st.length)
    case None => None
    case Some((t, s1)) =>
      match Decompress(t, s1, st.z, end)
      case None => None
      case Some((z, s2)) => Some(State(s2, false, t.main, t.length, z))
  }

  ghost function RawBlock(st: State, s: Stream, lru: seq<nat>, size: nat): (r: Option<State>)
    requires StateOk(st) && st.z.pos + size <= 32768 && |s.last| <= 1
    ensures r.Some? && |lru| == 3 ==> StateOk(r.value) && st.z.pos <= r.value.z.pos && |r.value.s.bits| <= |s.bits|
  {
    var bytes := BytesOf(s);
    if |bytes| < size then None
    else
      RestIsShorter(s, size);
      Some(State(StreamOf(bytes[size..]), size % 2 == 1, st.main, st.length,
                 Lz(Overwrite(st.z.win, st.z.pos, bytes[..size]), st.z.pos + size, lru)))
  }

  /** The stream after some of its bytes. */
  lemma {:induction false} RestIsShorter(s: Stream, size: nat)
    requires |s.last| <= 1 && size <= |BytesOf(s)|
    ensures var r := StreamOf(BytesOf(s)[size..]); |r.bits| <= |s.bits| && |r.last| <= 1 && |r.bits| % 16 == 0
  {
    hide WordsBits, WordBytes, BytesOf;
    BytesLength(s);
    var words := |s.bits| / 16;
    var n := |BytesOf(s)| - size;
    assert n <= 2 * words + 1;
    assert n / 2 <= words;
  }

  function Overwrite(win: seq<byte>, pos: nat, data: seq<byte>): (r: seq<byte>)
    requires pos + |data| <= |win|
    ensures |r| == |win|
  {
    win[..pos] + data + win[pos + |data|..]
  }

  /** Every block consumes input. */
  lemma {:induction false} HeaderConsumes(s: Stream, unaligned: bool)
    requires GetHeader(s, unaligned).Some? && (unaligned ==> |s.bits| % 16 == 0) && |s.last| <= 1
    ensures |GetHeader(s, unaligned).value.1.bits| < |s.bits|
    ensures |GetHeader(s, unaligned).value.1.last| <= 1
  {
    hide BytesOf, GetSize, StoredLru;
    var s0 := Realign(s, unaligned).value;
    assert |s0.bits| <= |s.bits| by {
      BytesLength(s);
    }
    var (k, s1) := GetSize(s0).value;
    if k.0 == 3 {
      var s2 := GetBits(s1, WordRest(s1)).value.1;
      BytesLength(s2);
      RealignLast(s, unaligned);
    }
  }

  lemma {:induction false} BytesLength(s: Stream)
    ensures |BytesOf(s)| == |s.bits| / 16 * 2 + |s.last|
  {
  }

  lemma {:induction false} RealignLast(s: Stream, unaligned: bool)
    requires Realign(s, unaligned).Some? && |s.last| <= 1
    ensures |Realign(s, unaligned).value.last| <= 1
  {
  }

  /** Blocks until `total` bytes are there. */
  ghost function Blocks(st: State, total: nat): (r: Option<State>)
    requires StateOk(st)
    ensures r.Some? ==> StateOk(r.value) && r.value.z.pos >= total
    decreases |st.s.bits|
  {
    if st.z.pos >= total then Some(st)
    else
      match Block(st)
      case None => None
      case Some(st1) => Blocks(st1, total)
  }

  // ---------------------------------------------------------------- where decoding stops

  /** The state at the first block that cannot be decoded, or with `total` bytes decoded. */
  ghost function Stop(st: State, total: nat): (z: State)
    requires StateOk(st)
    ensures StateOk(z)
    decreases |st.s.bits|
  {
    if st.z.pos >= total || Block(st).None? then st else Stop(Block(st).value, total)
  }

  lemma {:induction false} StopIs(st: State, total: nat)
    requires StateOk(st)
    ensures Blocks(st, total) == if Stop(st, total).z.pos >= total then Some(Stop(st, total)) else None
    ensures Stop(st, total).z.pos < total ==> Block(Stop(st, total)) == None
    decreases |st.s.bits|
  {
    hide Block, StateOk;
    if st.z.pos < total && Block(st).Some? {
      StopIs(Block(st).value, total);
    }
  }

  /** The stream announces a block of the full 32768 bytes. */
  ghost predicate Full(s: Stream) {
    |s.bits| >= 4 && Val(s.bits[3..4]) == 1
  }

  ghost predicate FullStored(s: Stream) {
    Full(s) && Val(s.bits[..3]) == 3
  }

  /** A full uncompressed block that does not fit, because something has been decoded before it. */
  ghost predicate Overlong(st: State) {
    st.z.pos > 0 && !st.unaligned && FullStored(st.s)
  }

  /** The block does not fit the window. */
  ghost predicate TooBig(st: State) {
    var h := GetHeader(st.s, st.unaligned);
    h.Some? && st.z.pos + h.value.0.size > 32768
  }

  /** An uncompressed block that fits but whose bytes are not all there. */
  ghost predicate CutShort(st: State) {
    var h := GetHeader(st.s, st.unaligned);
    h.Some? && h.value.0.Raw? && st.z.pos + h.value.0.size <= 32768 && |BytesOf(h.value.1)| < h.value.0.size
  }

  /** A compressed block with an unusable pre-tree. */
  ghost predicate BadBlock(st: State)
    requires |st.main| == 496
  {
    var h := GetHeader(st.s, st.unaligned);
    h.Some? && h.value.0.Compressed? && BadTrees(h.value.1, h.value.0.aligned, st.main)
  }

  /** One of the blocks up to `total` bytes is empty. */
  ghost predicate HasEmptyBlock(st: State, total: nat)
    requires StateOk(st)
    decreases |st.s.bits|
  {
    st.z.pos < total && Block(st).Some? && (Block(st).value.z.pos == st.z.pos || HasEmptyBlock(Block(st).value, total))
  }

  // ---------------------------------------------------------------- offsets stay in the window

  /** Codes of the sizes the format has: 496 main symbols and 8 aligned ones. */
  ghost predicate Sized(t: Trees) {
    |t.main| == 496 && (t.aligned.Some? ==> |t.aligned.value| == 8)
  }

  ghost predicate LruOk(lru: seq<nat>) {
    |lru| == 3 && forall i :: 0 <= i < 3 ==> 1 <= lru[i] <= 32765
  }

  lemma {:induction false} FooterBound(t: Trees, slot: nat, s: Stream)
    requires Sized(t) && GetFooter(t, slot, s).Some?
    ensures GetFooter(t, slot, s).value.0 < Pow2(FooterBits(slot))
  {
    var n := FooterBits(slot);
    if n > 0 {
      if t.aligned.Some? && n >= 3 {
        ValBound(s.bits[..n - 3]);
        Pow2Add(n - 3, 3);
        Shl8(Pow2(n - 3));
      } else {
        ValBound(s.bits[..n]);
      }
    }
  }

  lemma {:induction false} BaseMono(a: nat, b: nat)
    requires a <= b
    ensures BasePosition(a) <= BasePosition(b)
  {
    if a < b {
      BaseMono(a, b - 1);
    }
  }

  /** The thirty slots of the main code tile the offsets below 32768. */
  lemma BaseThirty()
    ensures BasePosition(3) == 3 && BasePosition(30) == 32768
  {
    assert BasePosition(3) == 3;
    assert BasePosition(8) == 16;
    assert BasePosition(12) == 64;
    assert BasePosition(16) == 256;
    assert BasePosition(20) == 1024;
    assert BasePosition(24) == 4096;
    assert BasePosition(28) == 16384;
  }

  lemma {:induction false} TokenOffset(t: Trees, s: Stream)
    requires Sized(t) && GetToken(t, s).Some?
    ensures GetToken(t, s).value.0.Far? ==> 1 <= GetToken(t, s).value.0.offset <= 32765
  {
    hide GetFooter, BasePosition, Pow2;
    var m := GetCode(t.main, s).value.0;
    if m >= 256 {
      var slot := (m - 256) / 8;
      if slot >= 3 {
        var s2 := GetMatchLength(t, (m - 256) % 8, GetCode(t.main, s).value.1).value.1;
        FooterBound(t, slot, s2);
        BaseMono(3, slot);
        BaseStep(slot);
        BaseMono(slot + 1, 30);
        BaseThirty();
      }
    }
  }

  lemma BaseStep(slot: nat)
    ensures BasePosition(slot + 1) == BasePosition(slot) + Pow2(FooterBits(slot))
  {
  }

  /** In a compressed block the recent offsets stay between 1 and 32765. */
  lemma {:induction false} LruStaysInRange(t: Trees, s: Stream, z: Lz, end: nat)
    requires LzOk(z) && end <= 32768 && Sized(t) && LruOk(z.lru)
    requires Decompress(t, s, z, end).Some?
    ensures LruOk(Decompress(t, s, z, end).value.0.lru)
    decreases end - z.pos
  {
    hide GetToken, CopyMatch;
    if z.pos < end {
      var (tok, s1) := GetToken(t, s).value;
      TokenOffset(t, s);
      LruStaysInRange(t, s1, Apply(tok, z, end).value, end);
    }
  }

  lemma {:induction false} TreesSized(s: Stream, aligned: bool, main: seq<nat>, length: seq<nat>)
    requires |main| == 496
    ensures GetTrees(s, aligned, main, length).Some? ==> Sized(GetTrees(s, aligned, main, length).value.0)
  {
    hide GetMain, GetTree, GetFields, Usable;
  }

  /** All blocks up to `total` bytes are compressed. */
  ghost predicate NothingStored(st: State, total: nat)
    requires StateOk(st)
    decreases |st.s.bits|
  {
    st.z.pos < total && Block(st).Some? ==>
      GetHeader(st.s, st.unaligned).value.0.Compressed? && NothingStored(Block(st).value, total)
  }

  /** Over any number of compressed blocks the recent offsets stay between 1 and 32765. */
  lemma {:induction false} LruAcrossBlocks(st: State, total: nat)
    requires StateOk(st) && LruOk(st.z.lru) && NothingStored(st, total) && Blocks(st, total).Some?
    ensures LruOk(Blocks(st, total).value.z.lru)
    decreases |st.s.bits|
  {
    hide GetTrees, Decompress, LruOk, GetHeader, StateOk;
    if st.z.pos < total {
      LruAcrossOne(st);
      LruAcrossBlocks(Block(st).value, total);
    }
  }

  lemma {:induction false} LruAcrossOne(st: State)
    requires StateOk(st) && LruOk(st.z.lru)
    ensures Block(st).Some? && GetHeader(st.s, st.unaligned).value.0.Compressed? ==> LruOk(Block(st).value.z.lru)
  {
    hide GetTrees, Decompress, LruOk, GetHeader;
    if Block(st).Some? && GetHeader(st.s, st.unaligned).value.0.Compressed? {
      var (h, s1) := GetHeader(st.s, st.unaligned).value;
      TreesSized(s1, h.aligned, st.main, st.length);
      var (t, s2) := GetTrees(s1, h.aligned, st.main, st.length).value;
      LruStaysInRange(t, s2, st.z, st.z.pos + h.size);
    }
  }

  /** Words are little-endian, and read from their most significant bit on. */
  lemma {:induction false} WordOrder(lo: byte, hi: byte)
    ensures StreamOf([lo, hi]).bits == ToBits(hi, 8) + ToBits(lo, 8)
  {
    hide ToBits;
    ShlConstants(1);
    SmallPowers();
    Shl8(1);
    ValToBits(hi, 8);
    ValToBits(lo, 8);
    ValConcat(ToBits(hi, 8), ToBits(lo, 8));
    Shl8(hi);
    ValWordBits(lo, hi);
    ValInjective(WordBits(lo, hi), ToBits(hi, 8) + ToBits(lo, 8));
    WordsBitsCons(lo, hi, []);
    assert [lo, hi] + [] == [lo, hi];
    assert WordBits(lo, hi) + [] == WordBits(lo, hi);
  }
}
