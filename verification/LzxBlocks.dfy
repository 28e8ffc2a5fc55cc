/** Decoding blocks into the window: readCompressedBlock, readBlockHeader, readBlock and Read of wim/lzx/lzx.go. */
module LzxBlocks {
  import opened Bits
  import opened Wrappers
  import opened Huffman
  import opened HuffmanTable
  import opened LzxReader
  import opened LzxRegister
  import opened LzxTrees
  import Spec = LzxSpec
  import opened E8

  const FOOTER_BITS: seq<nat> := [
    0, 0, 0, 0, 1, 1, 2, 2,
    3, 3, 4, 4, 5, 5, 6, 6,
    7, 7, 8, 8, 9, 9, 10, 10,
    11, 11, 12, 12, 13, 13, 14]

  const BASE_POSITION: seq<nat> := [
    0, 1, 2, 3, 4, 6, 8, 12,
    16, 24, 32, 48, 64, 96, 128, 192,
    256, 384, 512, 768, 1024, 1536, 2048, 3072,
    4096, 6144, 8192, 12288, 16384, 24576, 32768]

  lemma {:induction false} BaseTable(slot: nat)
    requires slot <= 30
    ensures BASE_POSITION[slot] == Spec.BasePosition(slot)
  {
    hide BASE_POSITION;
    if slot > 0 {
      BaseTable(slot - 1);
      BaseTableStep(slot - 1);
    } else {
      BaseTableStep(0);
    }
  }

  lemma {:induction false} BaseTableStep(slot: nat)
    requires slot < 30
    ensures |BASE_POSITION| == 31 && BASE_POSITION[0] == 0
    ensures BASE_POSITION[slot + 1] == BASE_POSITION[slot] + Pow2(Spec.FooterBits(slot))
  {
    Powers();
  }

  lemma FooterTable(slot: nat)
    requires slot <= 30
    ensures FOOTER_BITS[slot] == Spec.FooterBits(slot)
  {
  }

  lemma Powers()
    ensures Pow2(0) == 1 && Pow2(1) == 2 && Pow2(2) == 4 && Pow2(3) == 8 && Pow2(4) == 16
    ensures Pow2(5) == 32 && Pow2(6) == 64 && Pow2(7) == 128 && Pow2(8) == 256 && Pow2(9) == 512
    ensures Pow2(10) == 1024 && Pow2(11) == 2048 && Pow2(12) == 4096 && Pow2(13) == 8192
  {
  }

  // ---------------------------------------------------------------- tokens

  /** The extra offset bits of a match. */
  method ReadFooter(f: Decompressor, slot: nat, haligned: Option<Table>, ghost trees: Spec.Trees) returns (v: nat)
    requires f.Reading() && f.Room(2) && slot <= 30
    requires haligned.Some? == trees.aligned.Some?
    requires haligned.Some? ==>
               var lens := trees.aligned.value; |lens| == 8 && Lengths(lens) && TableFor(haligned.value, lens)
    modifies f`unread, f`portions, f`err, f`bo, f`bv, f`c, f`nbits, f`input, f`lost, f.b
    ensures old(f.lost) ==> f.lost
    ensures f.Reading()
    ensures old(f.err).Ok? && f.err.Ok? ==> Spec.GetFooter(trees, slot, old(f.input)) == Some((v, f.input))
    ensures old(f.err).Ok? && !f.err.Ok? ==> Excused(Spec.GetFooter(trees, slot, old(f.input)), f.lost)
    ensures !old(f.err).Ok? ==> f.err == old(f.err)
    ensures !f.err.Ok? ==> f.bo <= (if old(f.err).Ok? then 0 else old(f.bo)) + 4
  {
    hide Decompressor.Reading, TableFor, Lengths, Spec.GetBits, Spec.GetCode, Pow2;
    FooterTable(slot);
    var offsetbits := FOOTER_BITS[slot];
    var verbatimbits, alignedbits := 0, 0;
    if offsetbits > 0 {
      if haligned != None && offsetbits >= 3 {
        verbatimbits := f.GetBits(offsetbits - 3);
        verbatimbits := verbatimbits * 8;
        alignedbits := f.GetCode(haligned.value, trees.aligned.value);
      } else {
        verbatimbits := f.GetBits(offsetbits);
      }
    }
    v := verbatimbits + alignedbits;
  }

  /** The length of a match from the low bits of its main symbol. */
  method ReadMatchLength(f: Decompressor, header: nat, hlength: Table, ghost trees: Spec.Trees) returns (v: nat)
    requires f.Reading() && f.Room(1) && header < 8
    requires |trees.length| == 249 && Lengths(trees.length) && TableFor(hlength, trees.length)
    modifies f`unread, f`portions, f`err, f`bo, f`bv, f`c, f`nbits, f`input, f`lost, f.b
    ensures old(f.lost) ==> f.lost
    ensures f.Reading() && 2 <= v <= 257
    ensures old(f.err).Ok? && f.err.Ok? ==> Spec.GetMatchLength(trees, header, old(f.input)) == Some((v, f.input))
    ensures old(f.err).Ok? && !f.err.Ok? ==> Excused(Spec.GetMatchLength(trees, header, old(f.input)), f.lost)
    ensures !old(f.err).Ok? ==> f.err == old(f.err)
    ensures !f.err.Ok? ==> f.bo <= (if old(f.err).Ok? then 0 else old(f.bo)) + 2
  {
    hide Decompressor.Reading, TableFor, Lengths, Spec.GetCode;
    v := header;
    if v == 7 {
      var more := f.GetCode(hlength, trees.length);
      v := v + more;
    }
    v := v + 2;
  }

  /** One token. `go` is false when not even its main symbol could be read. */
  method ReadToken(f: Decompressor, hmain: Table, hlength: Table, haligned: Option<Table>, ghost trees: Spec.Trees)
      returns (tok: Spec.Token, go: bool)
    requires f.Reading() && f.Room(4) && TablesFor(hmain, hlength, haligned, trees)
    modifies f`unread, f`portions, f`err, f`bo, f`bv, f`c, f`nbits, f`input, f`lost, f.b
    ensures old(f.lost) ==> f.lost
    ensures f.Reading()
    ensures old(f.err).Ok? && f.err.Ok? ==> go && Spec.GetToken(trees, old(f.input)) == Some((tok, f.input))
    ensures old(f.err).Ok? && !f.err.Ok? ==> Excused(Spec.GetToken(trees, old(f.input)), f.lost)
    ensures !old(f.err).Ok? ==> !go && f.err == old(f.err) && f.lost == old(f.lost)
    ensures tok.Literal? ==> tok.v < 256
    ensures tok.Repeat? ==> tok.slot < 3
    ensures !tok.Literal? ==> tok.len >= 2
    ensures !f.err.Ok? ==> f.bo <= (if old(f.err).Ok? then 0 else old(f.bo)) + 8
  {
    hide Decompressor.Reading, TableFor, Lengths, Spec.GetCode, Spec.GetMatchLength, Spec.GetFooter, Spec.BasePosition;
    tok := Spec.Literal(0);
    var m := f.GetCode(hmain, trees.main);
    if f.err != Ok {
      return tok, false;
    }
    if m < 256 {
      return Spec.Literal(m), true;
    }
    var slot := (m - 256) / 8;
    var matchlen := ReadMatchLength(f, (m - 256) % 8, hlength, trees);
    if slot < 3 {
      return Spec.Repeat(slot, matchlen), true;
    }
    var footer := ReadFooter(f, slot, haligned, trees);
    BaseTable(slot);
    Spec.BasePositive(slot);
    return Spec.Far(BASE_POSITION[slot] + footer - 2, matchlen), true;
  }

  // ---------------------------------------------------------------- the window

  /** The byte-by-byte copy, which may read what it has just written, repeats the last `off` bytes. */
  method CopyBytes(window: array<byte>, pos: nat, off: nat, len: nat)
    requires off <= pos && pos + len <= window.Length
    modifies window
    ensures window[..] == Spec.CopyMatch(old(window[..]), pos, off, len)
  {
    hide Spec.Repeated;
    ghost var was := window[..];
    var i := pos;
    while i < pos + len
      invariant pos <= i <= pos + len
      invariant forall j :: pos <= j < i ==> window[j] == Spec.Repeated(was, pos, off, j)
      invariant forall j :: 0 <= j < window.Length && !(pos <= j < i) ==> window[j] == was[j]
    {
      if off > 0 {
        Spec.RepeatedStep(was, pos, off, i);
      } else {
        RepeatedZero(was, pos, i);
      }
      window[i] := window[i - off];
      i := i + 1;
    }
  }

  lemma RepeatedZero(win: seq<byte>, pos: nat, j: nat)
    requires pos <= j < |win|
    ensures Spec.Repeated(win, pos, 0, j) == win[j]
  {
  }

  ghost predicate TokenOk(tok: Spec.Token) {
    && (tok.Literal? ==> tok.v < 256)
    && (tok.Repeat? ==> tok.slot < 3)
    && (!tok.Literal? ==> tok.len >= 2)
  }

  /** Moves the used offset to the front. */
  method TouchLru(f: Decompressor, tok: Spec.Token) returns (matchoffset: nat)
    requires |f.lru| == 3 && !tok.Literal? && TokenOk(tok)
    modifies f`lru
    ensures f.lru == Spec.Touch(tok, old(f.lru)) && matchoffset == Spec.Offset(tok, old(f.lru))
  {
    if tok.Repeat? {
      matchoffset := f.lru[tok.slot];
      f.lru := f.lru[tok.slot := f.lru[0]];
      f.lru := f.lru[0 := matchoffset];
    } else {
      matchoffset := tok.offset;
      f.lru := f.lru[2 := f.lru[1]];
      f.lru := f.lru[1 := f.lru[0]];
      f.lru := f.lru[0 := matchoffset];
    }
  }

  /** Carries out one token at window position `i`, returning the next position. */
  method ApplyToken(f: Decompressor, tok: Spec.Token, i: nat, end: nat) returns (k: nat, e: Outcome)
    requires f.Valid() && TokenOk(tok) && i < end && i <= 32768
    modifies f.window, f`lru, f`err, f`bo, f`bv
    ensures f.Valid()
    ensures e.Done? ==> i < k <= end && k <= 32768 && f.err == old(f.err) && f.bo == old(f.bo) && f.bv == old(f.bv)
    ensures e.Done? && end <= 32768 ==>
              Spec.Apply(tok, Spec.Lz(old(f.window[..]), i, old(f.lru)), end) == Some(Spec.Lz(f.window[..], k, f.lru))
    ensures e.Failed? ==> !f.err.Ok?
    ensures e.Failed? && end <= 32768 ==> Spec.Apply(tok, Spec.Lz(old(f.window[..]), i, old(f.lru)), end) == None
    ensures e.Panicked? ==> e.why == WindowOverflow && end > 32768
    ensures f.bo == 0 || f.bo == old(f.bo)
  {
    hide Spec.CopyMatch, Decompressor.Reading, Spec.Touch, Spec.Offset;
    k := i;
    if tok.Literal? {
      if i >= 32768 {
        return i, Panicked(WindowOverflow);
      }
      f.window[i] := tok.v;
      return i + 1, Done;
    }
    var matchoffset := TouchLru(f, tok);
    if !(matchoffset <= i && tok.len <= end - i) {
      f.Fail(Corrupt);
      return i, Failed(f.err);
    }
    if i + tok.len > 32768 {
      return i, Panicked(WindowOverflow);
    }
    CopyBytes(f.window, i, matchoffset, tok.len);
    return i + tok.len, Done;
  }

  /** Nothing to be had from a token, nothing to be had from the block. */
  lemma {:induction false} BlockExcused(t: Spec.Trees, s: Spec.Stream, z: Spec.Lz, end: nat, lost: bool)
    requires Spec.LzOk(z) && z.pos < end <= 32768
    requires
      || Excused(Spec.GetToken(t, s), lost)
      || Spec.Apply(Spec.GetToken(t, s).value.0, z, end).None?
    ensures Excused(Spec.Decompress(t, s, z, end), lost)
  {
    hide Spec.GetToken, Spec.Apply;
  }

  lemma {:induction false} BlockStep(t: Spec.Trees, s: Spec.Stream, z: Spec.Lz, end: nat, tok: Spec.Token,
                                     s1: Spec.Stream, z1: Spec.Lz)
    requires Spec.LzOk(z) && z.pos < end <= 32768
    requires Spec.GetToken(t, s) == Some((tok, s1)) && Spec.Apply(tok, z, end) == Some(z1)
    ensures Spec.LzOk(z1) && Spec.Decompress(t, s, z, end) == Spec.Decompress(t, s1, z1, end)
  {
    hide Spec.GetToken, Spec.Apply;
  }

  lemma BlockDone(t: Spec.Trees, s: Spec.Stream, z: Spec.Lz, end: nat)
    requires Spec.LzOk(z) && z.pos >= end && end <= 32768
    ensures Spec.Decompress(t, s, z, end) == Some((z, s))
  {
  }

  /**
   readCompressedBlock: for a block that fits the window it leaves there what the token-level
   interpreter leaves. Only a block that does not fit can run off the window.
   */
  method ReadCompressedBlock(f: Decompressor, start: nat, end: nat, hmain: Table, hlength: Table,
                             haligned: Option<Table>,
                             ghost trees: Spec.Trees) returns (n: nat, e: Outcome)
    requires f.Valid() && f.err.Ok? && start <= end <= 0xffff && start <= 32768
    requires TablesFor(hmain, hlength, haligned, trees)
    modifies f`unread, f`portions, f`err, f`bo, f`bv, f`c, f`nbits, f`input, f`lost, f`lru, f.b, f.window
    ensures old(f.lost) ==> f.lost
    ensures f.Valid()
    ensures e.Panicked? ==> e.why == WindowOverflow && end > 32768
    ensures e.Done? ==> end <= 32768 && f.err.Ok? && n == end - start
    ensures e.Done? ==>
              Spec.Decompress(trees, old(f.input), Spec.Lz(old(f.window[..]), start, old(f.lru)), end)
              == Some((Spec.Lz(f.window[..], end, f.lru), f.input))
    ensures e.Failed? ==> e.error != Eof
    ensures start == end ==> f.nbits == old(f.nbits)
    ensures e.Failed? && end <= 32768 ==>
              Excused(Spec.Decompress(trees, old(f.input), Spec.Lz(old(f.window[..]), start, old(f.lru)), end), f.lost)
  {
    hide Spec.Decompress, Spec.GetToken, Spec.Apply, TablesFor, Decompressor.Reading, Excused;
    ghost var s0, z0 := f.input, Spec.Lz(f.window[..], start, f.lru);
    var i := start;
    while i < end
      invariant f.Valid() && start <= i <= end && i <= 32768 && (old(f.lost) ==> f.lost)
      invariant end <= 32768 && f.err.Ok? ==>
                  Spec.Decompress(trees, s0, z0, end) ==
                      Spec.Decompress(trees, f.input, Spec.Lz(f.window[..], i, f.lru), end)
      invariant end <= 32768 && !f.err.Ok? ==> Excused(Spec.Decompress(trees, s0, z0, end), f.lost)
      invariant !f.err.Ok? ==> f.bo <= 8
      invariant start == end ==> f.nbits == old(f.nbits)
    {
      ghost var s, z, ok := f.input, Spec.Lz(f.window[..], i, f.lru), f.err.Ok?;
      var tok, go := ReadToken(f, hmain, hlength, haligned, trees);
      if f.err != Ok && ok && end <= 32768 {
        BlockExcused(trees, s, z, end, f.lost);
      }
      if !go {
        break;
      }
      var k;
      k, e := ApplyToken(f, tok, i, end);
      if e.Panicked? {
        return 0, e;
      }
      if end <= 32768 && ok && f.err.Ok? {
        BlockStep(trees, s, z, end, tok, f.input, Spec.Lz(f.window[..], k, f.lru));
      }
      if e.Failed? {
        if end <= 32768 && ok && Spec.GetToken(trees, s) == Some((tok, f.input)) {
          BlockExcused(trees, s, z, end, f.lost);
        }
        break;
      }
      i := k;
    }
    n := i - start;
    f.NoEof();
    if f.err != Ok {
      return n, Failed(f.err);
    }
    BlockDone(trees, f.input, Spec.Lz(f.window[..], i, f.lru), end);
    e := Done;
  }

  // ---------------------------------------------------------------- block headers

  /** Restores word alignment after an odd uncompressed block. */
  method Realign(f: Decompressor) returns (e: Outcome)
    requires f.Reading() && f.err.Ok? && (f.unaligned ==> f.nbits == 0 && !f.steady)
    modifies f`unread, f`portions, f`err, f`bo, f`bv, f`input, f`unaligned, f.b
    ensures e.Failed? ==> e.error != Eof
    ensures !old(f.unaligned) ==> e.Done? && f.nbits == old(f.nbits)
    ensures f.Reading() && !e.Panicked?
    ensures e.Done? ==> f.err.Ok? && !f.unaligned && Spec.Realign(old(f.input), old(f.unaligned)) == Some(f.input)
    ensures e.Failed? ==> old(f.unaligned) && Spec.Realign(old(f.input), old(f.unaligned)) == None
  {
    hide Spec.BytesOf, Spec.StreamOf, StreamAt, RegOk;
    if f.unaligned {
      f.AlignedInput();
      var err := f.EnsureAtLeast(1);
      if err != Ok {
        return Failed(err);
      }
      f.SkipBytes(1);
      f.unaligned := false;
    }
    e := Done;
  }

  lemma {:induction false} FullBit(s: Spec.Stream)
    requires |s.bits| >= 4
    ensures var s1 := Spec.GetBits(s, 3).value.1; Spec.GetBits(s1, 1).value.0 == if Spec.Full(s) then 1 else 0
  {
    var s1 := Spec.GetBits(s, 3).value.1;
    assert s1.bits[..1] == s.bits[3..4];
    ValBound(s1.bits[..1]);
    assert Pow2(1) == 2;
  }

  /** Block type and size. */
  method ReadSize(f: Decompressor) returns (kind: nat, size: nat, e: Outcome)
    requires f.Reading() && f.err.Ok?
    modifies f`unread, f`portions, f`err, f`bo, f`bv, f`c, f`nbits, f`input, f`lost, f.b
    ensures old(f.lost) ==> f.lost
    ensures f.Reading() && !e.Panicked? && size <= 32768
    ensures e.Done? ==> f.err.Ok? && Spec.GetSize(old(f.input)) == Some(((kind, size), f.input))
    ensures e.Failed? ==> e.error != Eof && Excused(Spec.GetSize(old(f.input)), f.lost)
    ensures e.Done? && f.prompt ==> f.unread == []
    ensures old(f.nbits) >= 21 && Spec.Full(old(f.input)) ==> e.Done? && f.nbits > 16
    ensures e.Done? && f.nbits > 16 ==> old(f.nbits) >= 21 && Spec.Full(old(f.input))
  {
    hide Decompressor.Reading, Spec.GetBits, Spec.Full;
    f.Buffer();
    ghost var s := f.input;
    var full;
    kind, full := ReadKind(f);
    FullBits(s);
    if full != 0 {
      size := 32768;
    } else {
      size := f.GetBits(16);
      if size > 32768 {
        return 0, 0, Failed(Corrupt);
      }
    }
    f.NoEof();
    if f.err != Ok {
      return 0, 0, Failed(f.err);
    }
    e := Done;
  }

  /** Block type, and whether the block is full. */
  method ReadKind(f: Decompressor) returns (kind: nat, full: nat)
    requires f.Reading() && f.err.Ok?
    modifies f`unread, f`portions, f`err, f`bo, f`bv, f`c, f`nbits, f`input, f`lost, f.b
    ensures f.Reading() && (old(f.lost) ==> f.lost)
    ensures var a := Spec.GetBits(old(f.input), 3);
            if f.err.Ok? then
              && a.Some? && a.value.0 == kind && Spec.GetBits(a.value.1, 1) == Some((full, f.input))
              && (full != 0 <==> Spec.Full(old(f.input)))
            else
              a.Some? ==> Excused(Spec.GetBits(a.value.1, 1), f.lost)
    ensures old(f.nbits) >= 4 ==> f.err.Ok? && f.nbits == old(f.nbits) - 4
    ensures f.err.Ok? && old(f.nbits) < 4 ==> f.nbits == old(f.nbits) + 12
    ensures f.err.Ok? && f.prompt ==> f.unread == []
    ensures !f.err.Ok? ==> f.bo <= 4
  {
    hide Decompressor.Reading, Spec.GetBits, Pow2, Spec.Full;
    ghost var s := f.input;
    kind := f.GetBits(3);
    full := f.GetBits(1);
    FullBits(s);
    if f.err == Ok {
      FullBit(s);
    }
  }

  lemma FullBits(s: Spec.Stream)
    ensures Spec.Full(s) ==> |s.bits| >= 4
  {
  }

  /** The stored offsets in front of an uncompressed block. */
  method ReadStoredLru(f: Decompressor) returns (e: Outcome)
    requires f.Reading() && f.err.Ok? && f.nbits == 0
    modifies f`unread, f`portions, f`err, f`bo, f`bv, f`input, f`lost, f`steady, f`lru, f.b
    ensures !f.steady && (old(f.lost) ==> f.lost)
    ensures f.Reading() && !e.Panicked? && (|old(f.lru)| == 3 ==> |f.lru| == 3)
    ensures e.Done? ==>
              && f.err.Ok?
              && |Spec.BytesOf(old(f.input))| >= 12
              && f.lru == Spec.StoredLru(Spec.BytesOf(old(f.input)))
              && f.input == Spec.StreamOf(Spec.BytesOf(old(f.input))[12..])
    ensures e.Failed? ==> |Spec.BytesOf(old(f.input))| < 24 && e.error != Eof
    ensures e.Failed? && |Spec.BytesOf(old(f.input))| >= 12 ==> f.lost
    ensures e.Done? && f.prompt ==> f.unread == []
  {
    hide Decompressor.Reading, Spec.BytesOf, Spec.StreamOf, Spec.StoredLru, Spec.Word;
    f.AlignedInput();
    f.Buffer();
    ghost var pending := f.Pending();
    f.Unsettle();
    f.PromptReads();
    f.Note(f.bv - f.bo < 12 && |f.unread| < 12 <= |pending|);
    var err := f.EnsureAtLeast(12);
    if err != Ok {
      return Failed(err);
    }
    TakeStored(f);
    e := Done;
  }

  /** Takes the stored offsets out of the buffer. */
  method TakeStored(f: Decompressor)
    requires f.Reading() && f.err.Ok? && f.nbits == 0 && !f.steady && f.bv - f.bo >= 12
    modifies f`bo, f`input, f`lru
    ensures f.Reading() && |f.lru| == 3 && |Spec.BytesOf(old(f.input))| >= 12
    ensures f.lru == Spec.StoredLru(Spec.BytesOf(old(f.input)))
    ensures f.input == Spec.StreamOf(Spec.BytesOf(old(f.input))[12..])
  {
    hide Decompressor.Reading, Spec.BytesOf, Spec.StreamOf, Spec.StoredLru, Spec.Word;
    f.AlignedInput();
    f.Buffer();
    SlicePrefix(f.b[..], f.bo, f.bv, f.unread, 12);
    var stored := f.b[f.bo..f.bo + 12];
    f.lru := [Spec.Word(stored[0], stored[1]), Spec.Word(stored[4], stored[5]), Spec.Word(stored[8], stored[9])];
    StoredPrefix(f.Pending());
    f.SkipBytes(12);
  }

  lemma SlicePrefix(a: seq<byte>, i: nat, j: nat, rest: seq<byte>, n: nat)
    requires i + n <= j <= |a|
    ensures (a[i..j] + rest)[..n] == a[i..i + n]
  {
  }

  lemma StoredPrefix(bytes: seq<byte>)
    requires |bytes| >= 12
    ensures Spec.StoredLru(bytes) == Spec.StoredLru(bytes[..12])
    ensures var s := bytes[..12];
            Spec.StoredLru(s) == [Spec.Word(s[0], s[1]), Spec.Word(s[4], s[5]), Spec.Word(s[8], s[9])]
  {
  }

  /**
   readBlockHeader: the header the format describes. The panic it calls impossible is reached
   exactly when 21 or more bits are in the register and they announce a full uncompressed block.
   */
  method ReadBlockHeader(f: Decompressor) returns (kind: nat, size: nat, e: Outcome)
    requires f.Reading() && f.err.Ok? && |f.lru| == 3 && (f.unaligned ==> f.nbits == 0 && !f.steady)
    modifies f`unread, f`portions, f`err, f`bo, f`bv, f`c, f`nbits, f`input, f`lost, f`steady, f`unaligned, f`lru, f.b
    ensures old(f.lost) ==> f.lost
    ensures f.Reading() && |f.lru| == 3 && size <= 32768
    ensures e.Done? ==> f.err.Ok? && !f.unaligned && 1 <= kind <= 3
    ensures e.Done? && kind == 3 ==> f.nbits == 0 && !f.steady && (f.prompt ==> f.unread == [])
    ensures var h := Spec.GetHeader(old(f.input), old(f.unaligned));
            old(f.steady) && h.Some? && h.value.0.Compressed? ==> f.steady
    ensures e.Failed? ==> e.error != Eof
    ensures e.Done? && kind != 3 ==> f.lru == old(f.lru)
    ensures e.Done? ==>
              Spec.GetHeader(old(f.input), old(f.unaligned))
              == Some((if kind == 3 then Spec.Raw(size, f.lru) else Spec.Compressed(kind == 2, size), f.input))
    ensures e.Failed? ==> Excused(Spec.GetHeader(old(f.input), old(f.unaligned)), f.lost)
    ensures e.Panicked? <==> old(f.nbits) >= 21 && Spec.FullStored(old(f.input))
    ensures e.Panicked? ==> e.why == WordRemains && size == 32768
  {
    hide Decompressor.Reading, Spec.GetSize, Spec.Realign, Val, Spec.Full, Spec.GetHeader, Excused;
    kind, size := 0, 0;
    ghost var s, u := f.input, f.unaligned;
    f.InputLength();
    FullBits(s);
    e := Realign(f);
    if e != Done {
      NoRealign(s, u, f.lost);
      return;
    }
    ghost var s0 := f.input;
    f.InputLength();
    RealignAligned(s);
    kind, size, e := ReadSize(f);
    if e != Done {
      HeaderExcused(s, u, s0, f.lost);
      return;
    }
    SizeKind(s0);
    HeaderIs(s, u, s0);
    if kind == 3 {
      if f.nbits > 16 {
        return kind, size, Panicked(WordRemains);
      }
      e := ReadStoredStart(f, s, u, s0);
    } else if kind != 1 && kind != 2 {
      e := Failed(Corrupt);
      NoHeader(s, u, f.lost);
    }
  }

  lemma NoRealign(s: Spec.Stream, unaligned: bool, lost: bool)
    requires Spec.Realign(s, unaligned) == None
    ensures Spec.GetHeader(s, unaligned) == None && Excused(Spec.GetHeader(s, unaligned), lost)
  {
  }

  lemma NoHeader(s: Spec.Stream, unaligned: bool, lost: bool)
    requires Spec.GetHeader(s, unaligned) == None
    ensures Excused(Spec.GetHeader(s, unaligned), lost)
  {
  }

  /** What type and size say of the header. */
  lemma {:induction false} HeaderIs(s: Spec.Stream, unaligned: bool, s0: Spec.Stream)
    requires Spec.Realign(s, unaligned) == Some(s0) && Spec.GetSize(s0).Some?
    ensures var ((kind, size), s1) := Spec.GetSize(s0).value;
            var h := Spec.GetHeader(s, unaligned);
            && (kind == 1 || kind == 2 ==> h == Some((Spec.Compressed(kind == 2, size), s1)))
            && (kind == 3 && h.Some? ==> h.value.0.Raw?)
            && (kind != 1 && kind != 2 && kind != 3 ==> h == None)
  {
    hide Spec.GetSize, Spec.Realign;
  }

  /** The rest of an uncompressed block's header: to the end of the word, and the stored offsets. */
  method ReadStoredStart(f: Decompressor, ghost s: Spec.Stream, ghost u: bool, ghost s0: Spec.Stream)
      returns (e: Outcome)
    requires f.Reading() && f.err.Ok? && |f.lru| == 3 && f.nbits <= 16 && |s0.last| <= 1
    requires Spec.Realign(s, u) == Some(s0) && Spec.GetSize(s0).Some?
    requires Spec.GetSize(s0).value.0.0 == 3 && Spec.GetSize(s0).value.1 == f.input
    modifies f`unread, f`portions, f`err, f`bo, f`bv, f`c, f`nbits, f`input, f`lost, f`steady, f`lru, f.b
    ensures f.Reading() && |f.lru| == 3 && !e.Panicked? && (old(f.lost) ==> f.lost)
    ensures e.Done? ==>
              && f.err.Ok? && f.nbits == 0 && !f.steady && (f.prompt ==> f.unread == [])
              && Spec.GetHeader(s, u) == Some((Spec.Raw(Spec.GetSize(s0).value.0.1, f.lru), f.input))
    ensures e.Failed? ==> e.error != Eof && Excused(Spec.GetHeader(s, u), f.lost)
  {
    hide Decompressor.Reading, Spec.BytesOf, Spec.StreamOf, Spec.StoredLru, Spec.GetBits, Spec.GetSize, Spec.Realign;
    var n := f.nbits;
    if n == 0 {
      n := 16;
    }
    RegisterRest(f);
    f.InputLength();
    var _ := f.GetBits(n);
    f.NoEof();
    ghost var s2 := f.input;
    if f.err == Ok {
      e := ReadStoredLru(f);
    } else {
      // ensureAtLeast(12) reports the error again.
      e := Failed(f.err);
    }
    if e != Done {
      RawHeaderExcused(s, u, s0, f.lost);
    }
  }

  /** What the register holds of the current word. */
  lemma {:induction false} RegisterRest(f: Decompressor)
    requires f.Reading() && f.err.Ok? && f.nbits <= 16
    ensures Spec.WordRest(f.input) == if f.nbits == 0 then 16 else f.nbits
  {
    hide Decompressor.Reading;
    f.Buffer();
    var words := |f.Pending()| / 2;
    f.InputLength();
    ModWords(|f.input.bits|, words, f.nbits);
  }

  lemma ModWords(x: nat, words: nat, k: nat)
    requires x == k + words * 16 && k <= 16
    ensures x % 16 == k % 16
  {
  }

  /** A size that cannot be read, or leaves too little, leaves too little of the header. */
  lemma {:induction false} HeaderExcused(s: Spec.Stream, unaligned: bool, s0: Spec.Stream, lost: bool)
    requires Spec.Realign(s, unaligned) == Some(s0) && |s0.last| <= 1 && Excused(Spec.GetSize(s0), lost)
    ensures Excused(Spec.GetHeader(s, unaligned), lost)
  {
    hide Spec.BytesOf, Spec.GetSize, Spec.Realign, Spec.StoredLru;
    var r := Spec.GetSize(s0);
    if r.Some? && r.value.0.0 == 3 && Spec.GetBits(r.value.1, Spec.WordRest(r.value.1)).Some? {
      Spec.BytesLength(Spec.GetBits(r.value.1, Spec.WordRest(r.value.1)).value.1);
    }
  }

  /** The same for the stored offsets of an uncompressed block. */
  lemma {:induction false} RawHeaderExcused(s: Spec.Stream, unaligned: bool, s0: Spec.Stream, lost: bool)
    requires Spec.Realign(s, unaligned) == Some(s0) && |s0.last| <= 1
    requires Spec.GetSize(s0).Some? && Spec.GetSize(s0).value.0.0 == 3
    requires var s1 := Spec.GetSize(s0).value.1;
             var r := Spec.GetBits(s1, Spec.WordRest(s1));
             Excused(r, lost) || (|Spec.BytesOf(r.value.1)| < 24 && (|Spec.BytesOf(r.value.1)| >= 12 ==> lost))
    ensures Excused(Spec.GetHeader(s, unaligned), lost)
  {
    hide Spec.BytesOf, Spec.GetSize, Spec.Realign, Spec.StoredLru;
    var s1 := Spec.GetSize(s0).value.1;
    var r := Spec.GetBits(s1, Spec.WordRest(s1));
    if r.Some? {
      Spec.BytesLength(r.value.1);
    }
  }

  lemma SizeKind(s: Spec.Stream)
    requires Spec.GetSize(s).Some?
    ensures |s.bits| >= 4 && Spec.GetSize(s).value.0.0 == Val(s.bits[..3])
    ensures Spec.Full(s) ==> Spec.GetSize(s).value.0.1 == 32768
  {
    FullBit(s);
  }

  lemma RealignAligned(s: Spec.Stream)
    ensures Spec.Realign(s, false) == Some(s)
  {
  }

  // ---------------------------------------------------------------- blocks

  /** What the fields stand for between blocks, with `start` bytes decoded. */
  ghost function StateOf(f: Decompressor, start: nat): Spec.State
    requires f.Valid()
    reads f, f.b, f.mainlens, f.lenlens, f.window
  {
    Spec.State(f.input, f.unaligned, f.mainlens[..], f.lenlens[..], Spec.Lz(f.window[..], start, f.lru))
  }

  ghost predicate ExcusedState(r: Option<Spec.State>, lost: bool) {
    r.Some? ==> lost && |r.value.s.bits| < 96
  }

  /** Copies `n` bytes into the window. */
  method Blit(window: array<byte>, pos: nat, data: seq<byte>)
    requires pos + |data| <= window.Length
    modifies window
    ensures window[..] == Spec.Overwrite(old(window[..]), pos, data)
  {
    forall j | 0 <= j < |data| {
      window[pos + j] := data[j];
    }
  }

  lemma OverwriteTwice(win: seq<byte>, pos: nat, a: seq<byte>, b: seq<byte>)
    requires pos + |a| + |b| <= |win|
    ensures Spec.Overwrite(Spec.Overwrite(win, pos, a), pos + |a|, b) == Spec.Overwrite(win, pos, a + b)
  {
  }

  /** The buffered part of an uncompressed block. */
  method CopyBuffered(f: Decompressor, start: nat, size: nat) returns (copied: nat)
    requires f.Reading() && f.err.Ok? && f.nbits == 0 && f.b != f.window && start + size <= f.window.Length && !f.steady
    modifies f`bo, f`input, f.window
    ensures f.Reading() && f.bo <= f.bv && copied <= size && (copied == size || f.bo == f.bv)
    ensures |Spec.BytesOf(old(f.input))| >= copied
    ensures f.window[..] == Spec.Overwrite(old(f.window[..]), start, Spec.BytesOf(old(f.input))[..copied])
    ensures Spec.BytesOf(f.input) == Spec.BytesOf(old(f.input))[copied..]
    ensures f.input == Spec.StreamOf(Spec.BytesOf(old(f.input))[copied..])
    ensures f.unread == [] && copied < size ==> Spec.BytesOf(f.input) == []
    ensures copied == size ==> |Spec.BytesOf(old(f.input))| >= size
  {
    hide RegOk, StreamAt, Spec.BytesOf, Spec.StreamOf, Spec.Overwrite;
    f.AlignedInput();
    copied := 0;
    if f.bo < f.bv {
      copied := if size > f.bv - f.bo then f.bv - f.bo else size;
    }
    assert f.b[f.bo..f.bo + copied] == f.Pending()[..copied];
    Blit(f.window, start, f.b[f.bo..f.bo + copied]);
    f.SkipBytes(copied);
  }

  /** io.ReadFull: the rest of it, straight from the reader. */
  method ReadDirect(f: Decompressor, pos: nat, rest: nat) returns (n: nat, e: Outcome)
    requires f.Reading() && f.err.Ok? && f.nbits == 0 && f.b != f.window && pos + rest <= f.window.Length && !f.steady
    requires rest == 0 || f.bo == f.bv
    modifies f`unread, f`input, f.window
    ensures f.Reading() && !e.Panicked?
    ensures e.Done? ==>
              && n == rest && |Spec.BytesOf(old(f.input))| >= rest
              && f.window[..] == Spec.Overwrite(old(f.window[..]), pos, Spec.BytesOf(old(f.input))[..rest])
              && f.input == Spec.StreamOf(Spec.BytesOf(old(f.input))[rest..])
    ensures e.Failed? ==> |Spec.BytesOf(old(f.input))| < rest
    ensures e == Failed(Eof) <==> f.readerErr == Eof && rest > 0 && old(f.unread) == []
  {
    hide RegOk, StreamAt, Spec.BytesOf, Spec.StreamOf, Spec.Overwrite;
    f.AlignedInput();
    ghost var pending := f.Pending();
    if |f.unread| < rest {
      n := |f.unread|;
      Blit(f.window, pos, f.unread);
      e := Failed(if f.readerErr == Fault then Fault else if f.unread == [] then Eof else UnexpectedEof);
      f.unread := [];
      f.input := StreamAt(f.c, f.nbits, f.Pending());
      return;
    }
    assert f.unread[..rest] == pending[..rest];
    Blit(f.window, pos, f.unread[..rest]);
    f.unread := f.unread[rest..];
    assert f.Pending() == pending[rest..];
    f.input := StreamAt(f.c, f.nbits, f.Pending());
    f.AlignedInput();
    return rest, Done;
  }

  /** The body of an uncompressed block: first from the buffer, then straight from the reader. */
  method ReadRaw(f: Decompressor, start: nat, size: nat) returns (n: nat, e: Outcome)
    requires f.Reading() && f.err.Ok? && f.nbits == 0 && f.b != f.window && f.window.Length == 32768 && !f.steady
    modifies f`unread, f`bo, f`input, f`unaligned, f.window
    ensures f.Reading()
    ensures e.Done? ==>
              && n == size && start + size <= 32768 && f.unaligned == (old(f.unaligned) || size % 2 == 1)
              && |Spec.BytesOf(old(f.input))| >= size
              && f.window[..] == Spec.Overwrite(old(f.window[..]), start, Spec.BytesOf(old(f.input))[..size])
              && f.input == Spec.StreamOf(Spec.BytesOf(old(f.input))[size..])
    ensures e.Panicked? <==> start + size > 32768
    ensures e.Panicked? ==> e.why == WindowOverflow
    ensures e.Failed? ==> |Spec.BytesOf(old(f.input))| < size
    ensures e == Failed(Eof) <==>
              && start + size <= 32768 && f.readerErr == Eof
              && old(f.unread) == [] && |Spec.BytesOf(old(f.input))| < size
  {
    hide Decompressor.Reading, Spec.BytesOf, Spec.StreamOf, Spec.Overwrite;
    ghost var bytes, win := Spec.BytesOf(f.input), f.window[..];
    if size % 2 == 1 {
      f.unaligned := true;
    }
    if start + size > 32768 {
      return 0, Panicked(WindowOverflow);
    }
    var copied := CopyBuffered(f, start, size);
    n, e := ReadDirect(f, start + copied, size - copied);
    if e == Done {
      OverwriteTwice(win, start, bytes[..copied], bytes[copied..][..size - copied]);
      assert bytes[..copied] + bytes[copied..][..size - copied] == bytes[..size];
      assert bytes[copied..][size - copied..] == bytes[size..];
    }
    n := copied + n;
  }

  /**
   readBlock: what the format says of a block at this position. It panics only on an unusable
   pre-tree, on a block that does not fit the window, or on the header panic above.
   */
  method ReadBlock(f: Decompressor, start: nat) returns (n: nat, e: Outcome)
    requires f.Valid() && f.err.Ok? && start < 32768 && (f.unaligned ==> f.nbits == 0 && !f.steady)
    modifies f`unread, f`portions, f`err, f`bo, f`bv, f`c, f`nbits, f`input, f`lost, f`steady, f`unaligned, f`lru,
             f.b, f.window, f.mainlens, f.lenlens
    ensures old(f.lost) ==> f.lost
    ensures f.Valid() && Spec.StateOk(old(StateOf(f, start)))
    ensures e.Done? ==> f.err.Ok? && (f.unaligned ==> f.nbits == 0 && !f.steady)
    ensures e.Done? ==> Spec.Block(old(StateOf(f, start))) == Some(StateOf(f, start + n))
    ensures !e.Done? && e != Panicked(WordRemains) ==> ExcusedState(Spec.Block(old(StateOf(f, start))), f.lost)
    ensures e == Panicked(WordRemains) <==> old(f.nbits) >= 21 && Spec.FullStored(old(f.input))
    ensures e == Panicked(NilTree) ==> Spec.BadBlock(old(StateOf(f, start)))
    ensures Spec.BadBlock(old(StateOf(f, start))) ==> e == Panicked(NilTree) || f.lost
    ensures e == Panicked(WindowOverflow) ==> Spec.TooBig(old(StateOf(f, start)))
    ensures e == Failed(Eof) ==> Spec.CutShort(old(StateOf(f, start)))
    ensures f.prompt && Spec.CutShort(old(StateOf(f, start))) ==> e == Failed(Eof) || e == Panicked(WordRemains)
    ensures var h := Spec.GetHeader(old(f.input), old(f.unaligned));
            old(f.steady) && h.Some? && h.value.0.Compressed? ==> f.steady
    ensures var h := Spec.GetHeader(old(f.input), old(f.unaligned));
            (e.Done? && h.Some? && h.value.0.Compressed? && h.value.0.size == 0 && |f.input.bits| >= 32
             && Spec.NarrowLengths(h.value.1, h.value.0.aligned, old(f.mainlens[..]))) ==> f.nbits >= 15
  {
    hide Spec.GetHeader, Spec.Block, Decompressor.Reading, Spec.FullStored, Excused, Spec.BadTrees;
    hide Spec.BytesOf, Spec.NarrowLengths;
    f.InputLength();
    ghost var st := StateOf(f, start);
    assert Spec.StateOk(st);
    n := 0;
    var kind, size;
    kind, size, e := ReadBlockHeader(f);
    if e != Done {
      HeaderFails(st, f.lost);
      if e.Panicked? {
        StoredKind(st.s);
      }
      if e.Failed? && Spec.GetHeader(st.s, st.unaligned).Some? {
        NotLost(Spec.GetHeader(st.s, st.unaligned), f.lost);
        if f.prompt {
          f.NothingLost();
        }
      }
      return;
    }
    if kind == 3 {
      n, e := ReadStoredBody(f, start, size, st);
    } else {
      n, e := ReadCompressedBody(f, start, kind == 2, size, st);
    }
  }

  /** The rest of an uncompressed block, after its header. */
  method ReadStoredBody(f: Decompressor, start: nat, size: nat, ghost st: Spec.State) returns (n: nat, e: Outcome)
    requires f.Valid() && f.err.Ok? && f.nbits == 0 && !f.unaligned && !f.steady && (f.prompt ==> f.unread == [])
    requires Spec.StateOk(st) && Spec.GetHeader(st.s, st.unaligned) == Some((Spec.Raw(size, f.lru), f.input))
    requires st.main == f.mainlens[..] && st.length == f.lenlens[..] && st.z.win == f.window[..] && st.z.pos == start
    modifies f`unread, f`bo, f`input, f`unaligned, f.window
    ensures f.Valid()
    ensures e.Done? ==> Spec.Block(st) == Some(StateOf(f, start + n))
    ensures !e.Done? ==> Spec.Block(st) == None
    ensures e.Panicked? ==> e.why == WindowOverflow && Spec.TooBig(st)
    ensures e == Failed(Eof) ==> Spec.CutShort(st)
    ensures f.prompt && Spec.CutShort(st) ==> e == Failed(Eof)
  {
    hide Spec.GetHeader, Spec.Block, Decompressor.Reading, Spec.BytesOf, Spec.StreamOf, Spec.Overwrite;
    ghost var s1 := f.input;
    f.PromptReads();
    n, e := ReadRaw(f, start, size);
    RawOutcome(st, size, f.lru, s1);
  }

  /** The rest of a compressed block, after its header. */
  method ReadCompressedBody(f: Decompressor, start: nat, aligned: bool, size: nat, ghost st: Spec.State)
      returns (n: nat, e: Outcome)
    requires f.Valid() && f.err.Ok? && start < 32768 && size <= 32768
    requires Spec.StateOk(st) && Spec.GetHeader(st.s, st.unaligned) == Some((Spec.Compressed(aligned, size), f.input))
    requires st.main == f.mainlens[..] && st.length == f.lenlens[..] && st.z == Spec.Lz(f.window[..], start, f.lru)
    modifies f`unread, f`portions, f`err, f`bo, f`bv, f`c, f`nbits, f`input, f`lost, f`lru,
             f.b, f.window, f.mainlens, f.lenlens
    ensures f.Valid() && (old(f.lost) ==> f.lost)
    ensures e.Done? ==> f.err.Ok? && (!f.unaligned ==> Spec.Block(st) == Some(StateOf(f, start + n)))
    ensures !e.Done? ==> ExcusedState(Spec.Block(st), f.lost)
    ensures e.Panicked? ==> (e.why == NilTree && Spec.BadBlock(st)) || (e.why == WindowOverflow && Spec.TooBig(st))
    ensures Spec.BadBlock(st) ==> e == Panicked(NilTree) || f.lost
    ensures e.Failed? ==> e.error != Eof
    ensures e.Done? && size == 0 && Spec.NarrowLengths(old(f.input), aligned, st.main) && |f.input.bits| >= 32 ==>
              f.nbits >= 15
  {
    hide Spec.GetHeader, Spec.Block, Spec.GetTrees, Spec.Decompress, Decompressor.Reading, Excused, ExcusedState;
    hide TablesFor;
    hide Spec.BadTrees, Spec.NarrowLengths;
    n := 0;
    ghost var s1 := f.input;
    var hmain, hlength, haligned;
    ghost var trees;
    hmain, hlength, haligned, trees, e := ReadTrees(f, aligned);
    TreesOutcome(st, aligned, size, s1, f.lost);
    if e != Done {
      return;
    }
    n, e := ReadCompressedBlock(f, start, start + size, hmain, hlength, haligned, trees);
    TreesOutcome(st, aligned, size, s1, f.lost);
  }

  lemma {:induction false} StoredKind(s: Spec.Stream)
    requires Spec.FullStored(s)
    ensures Spec.GetHeader(s, false).Some? ==> Spec.GetHeader(s, false).value.0.Raw?
  {
    hide Spec.GetBits;
    if Spec.GetSize(s).Some? {
      SizeKind(s);
    }
  }

  /** A header that cannot be read, and a header that cannot fit. */
  lemma {:induction false} HeaderFails(st: Spec.State, lost: bool)
    requires Spec.StateOk(st)
    ensures Excused(Spec.GetHeader(st.s, st.unaligned), lost) ==> ExcusedState(Spec.Block(st), lost)
    ensures Spec.Overlong(st) ==> Spec.Block(st) == None
  {
    hide Spec.CompressedBlock, Spec.RawBlock;
    if Spec.GetHeader(st.s, st.unaligned).Some? {
      Spec.HeaderConsumes(st.s, st.unaligned);
      if !st.unaligned {
        SizeKind(st.s);
        assert Spec.Overlong(st) ==> Spec.Full(st.s);
      }
    }
  }

  /** What an uncompressed block comes to. */
  lemma {:induction false} RawOutcome(st: Spec.State, size: nat, lru: seq<nat>, s: Spec.Stream)
    requires Spec.StateOk(st) && |lru| == 3 && Spec.GetHeader(st.s, st.unaligned) == Some((Spec.Raw(size, lru), s))
    ensures st.z.pos + size > 32768 || |Spec.BytesOf(s)| < size ==> Spec.Block(st) == None
    ensures st.z.pos + size <= 32768 && |Spec.BytesOf(s)| >= size ==>
              Spec.Block(st) == Some(Spec.State(
                Spec.StreamOf(Spec.BytesOf(s)[size..]), size % 2 == 1, st.main, st.length,
                Spec.Lz(Spec.Overwrite(st.z.win, st.z.pos, Spec.BytesOf(s)[..size]), st.z.pos + size, lru)))
  {
    hide Spec.GetHeader, Spec.BytesOf, Spec.StreamOf, Spec.Overwrite;
    Spec.HeaderConsumes(st.s, st.unaligned);
  }

  /** What a compressed block comes to. */
  lemma {:induction false} TreesOutcome(st: Spec.State, aligned: bool, size: nat, s: Spec.Stream, lost: bool)
    requires Spec.StateOk(st) && Spec.GetHeader(st.s, st.unaligned) == Some((Spec.Compressed(aligned, size), s))
    ensures st.z.pos + size > 32768 ==> Spec.Block(st) == None && ExcusedState(Spec.Block(st), lost)
    ensures Excused(Spec.GetTrees(s, aligned, st.main, st.length), lost) ==> ExcusedState(Spec.Block(st), lost)
    ensures var r := Spec.GetTrees(s, aligned, st.main, st.length);
            r.Some? && st.z.pos + size <= 32768 ==>
              var d := Spec.Decompress(r.value.0, r.value.1, st.z, st.z.pos + size);
              && (Excused(d, lost) ==> ExcusedState(Spec.Block(st), lost))
              && (d.Some? ==>
                    Spec.Block(st) == Some(Spec.State(d.value.1, false, r.value.0.main, r.value.0.length, d.value.0)))
  {
    hide Spec.GetHeader, Spec.GetTrees, Spec.Decompress;
    Spec.HeaderConsumes(st.s, st.unaligned);
  }

  // ---------------------------------------------------------------- the whole chunk

  /** No block, no chunk. */
  lemma {:induction false} BlocksExcused(st: Spec.State, total: nat, lost: bool)
    requires Spec.StateOk(st) && st.z.pos < total && ExcusedState(Spec.Block(st), lost)
    ensures ExcusedState(Spec.Blocks(st, total), lost)
  {
    hide Spec.Block;
    if Spec.Block(st).Some? {
      BlocksShrink(Spec.Block(st).value, total);
    }
  }

  lemma {:induction false} BlocksShrink(st: Spec.State, total: nat)
    requires Spec.StateOk(st)
    ensures var r := Spec.Blocks(st, total); r.Some? ==> |r.value.s.bits| <= |st.s.bits|
    decreases |st.s.bits|
  {
    hide Spec.Block;
    if st.z.pos < total && Spec.Block(st).Some? {
      BlocksShrink(Spec.Block(st).value, total);
    }
  }

  /** A block that decodes takes the run one step further. */
  lemma {:induction false} BlocksStep(st: Spec.State, total: nat)
    requires Spec.StateOk(st) && st.z.pos < total && Spec.Block(st).Some?
    ensures var st1 := Spec.Block(st).value;
            && Spec.StateOk(st1) && Spec.Blocks(st, total) == Spec.Blocks(st1, total)
            && Spec.Stop(st, total) == Spec.Stop(st1, total)
            && (Spec.HasEmptyBlock(st, total) <==> st1.z.pos == st.z.pos || Spec.HasEmptyBlock(st1, total))
            && (Spec.NothingStored(st, total) ==> Spec.NothingStored(st1, total))
  {
    hide Spec.Block, Spec.StateOk;
  }

  lemma BlocksDone(st: Spec.State, total: nat)
    requires Spec.StateOk(st) && st.z.pos >= total
    ensures Spec.Blocks(st, total) == Some(st) && Spec.Stop(st, total) == st
  {
  }

  /** Reasons why there is no block. */
  lemma {:induction false} NoBlock(st: Spec.State)
    requires Spec.StateOk(st)
    ensures Spec.BadBlock(st) || Spec.TooBig(st) || Spec.CutShort(st) || Spec.Overlong(st) ==> Spec.Block(st) == None
  {
    hide Spec.GetHeader, Spec.GetTrees, Spec.BadTrees, Spec.FullStored, Spec.BytesOf, Spec.StreamOf, Spec.Overwrite;
    HeaderFails(st, false);
    var h := Spec.GetHeader(st.s, st.unaligned);
    if Spec.BadBlock(st) {
      NoTrees(h.value.1, h.value.0.aligned, st.main, st.length);
    }
  }

  lemma {:induction false} NoTrees(s: Spec.Stream, aligned: bool, main: seq<nat>, length: seq<nat>)
    requires |main| == 496
    ensures Spec.BadTrees(s, aligned, main) ==> Spec.GetTrees(s, aligned, main, length) == None
  {
    hide Spec.GetRuns, Spec.GetFields, Spec.GetAligned, Usable;
  }

  /**
   How the decoding loop of Read ends, for a run of blocks that starts at `st`: an error or a panic
   is the first block's that cannot be decoded, unless a read went wrong.
   */
  ghost predicate EndsAs(e: Outcome, st: Spec.State, total: nat, lost: bool, prompt: bool)
    requires Spec.StateOk(st)
  {
    var z := Spec.Stop(st, total);
    var stopped := z.z.pos < total;
    && (e.Done? ==> !stopped)
    && (!e.Done? && e != Panicked(WordRemains) ==> ExcusedState(Spec.Blocks(st, total), lost))
    && (e == Panicked(WordRemains) ==> Spec.HasEmptyBlock(st, total) || (stopped && Spec.Overlong(z)))
    && (e == Panicked(NilTree) ==> stopped && Spec.BadBlock(z))
    && (stopped && Spec.BadBlock(z) ==> e == Panicked(NilTree) || e == Panicked(WordRemains) || lost)
    && (e == Panicked(WindowOverflow) ==> stopped && Spec.TooBig(z))
    && (e == Failed(Eof) ==> stopped && Spec.CutShort(z))
    && (prompt && stopped && Spec.CutShort(z) ==> e == Failed(Eof) || e == Panicked(WordRemains))
  }

  /**
   The decoding loop of Read: block after block until `total` bytes are there, then the call
   translation in place. With a steady reader and no uncompressed block nothing is missed.
   */
  method DecodeAll(f: Decompressor, total: nat) returns (e: Outcome)
    requires f.Valid() && f.err.Ok? && f.nbits == 0 && total <= 32768 && !f.unaligned
    modifies f`unread, f`portions, f`err, f`bo, f`bv, f`c, f`nbits, f`input, f`lost, f`steady, f`unaligned, f`lru,
             f.b, f.window, f.mainlens, f.lenlens
    ensures f.Valid() && Spec.StateOk(old(StateOf(f, 0)))
    ensures e.Done? ==>
              && Spec.Blocks(old(StateOf(f, 0)), total).Some?
              && f.window[..total] == DecodeE8(Spec.Blocks(old(StateOf(f, 0)), total).value.z.win[..total], 0)
    ensures EndsAs(e, old(StateOf(f, 0)), total, f.lost, f.prompt)
    ensures var z := Spec.Stop(old(StateOf(f, 0)), total);
            (old(f.steady) && Spec.NothingStored(old(StateOf(f, 0)), total) && !e.Done?
             && (z.z.pos >= total || Spec.BadBlock(z))) ==> !f.lost
  {
    hide Spec.Block, Spec.Blocks, Spec.HasEmptyBlock, Spec.Stop, Spec.NothingStored, Decompressor.Reading;
    hide ExcusedState, DecodeE8;
    hide Spec.BadBlock, Spec.TooBig, Spec.CutShort, EndsAs, Spec.GetHeader;
    f.InputLength();
    ghost var st0 := StateOf(f, 0);
    assert Spec.StateOk(st0);
    ghost var whole, z := Spec.Blocks(st0, total), Spec.Stop(st0, total);
    ghost var plain := f.steady && Spec.NothingStored(st0, total);
    var n: nat := 0;
    while n < total
      invariant f.Valid() && f.err.Ok? && (f.unaligned ==> f.nbits == 0 && !f.steady)
      invariant n <= 32768 && Spec.StateOk(StateOf(f, n))
      invariant whole == Spec.Blocks(StateOf(f, n), total) && z == Spec.Stop(StateOf(f, n), total)
      invariant Spec.HasEmptyBlock(StateOf(f, n), total) ==> Spec.HasEmptyBlock(st0, total)
      invariant n == 0 && !Spec.HasEmptyBlock(st0, total) ==> f.nbits == 0
      invariant plain ==> f.steady && Spec.NothingStored(StateOf(f, n), total)
      decreases |f.input.bits|
    {
      ghost var st := StateOf(f, n);
      var k;
      k, e := ReadBlock(f, n);
      if e != Done {
        if f.prompt {
          f.NothingLost();
        }
        BlockEnds(e, st0, st, total, f.lost, f.prompt);
        if f.steady {
          f.NothingLost();
        }
        if plain {
          StaysSteady(st, total);
        }
        return;
      }
      BlocksStep(st, total);
      StaysSteady(st, total);
      n := n + k;
    }
    BlocksDone(StateOf(f, n), total);
    DecodeE8InPlace(f.window, total, 0);
    e := Done;
    RunEnds(st0, total, f.lost, f.prompt);
  }

  lemma RunEnds(st: Spec.State, total: nat, lost: bool, prompt: bool)
    requires Spec.StateOk(st) && Spec.Stop(st, total).z.pos >= total
    ensures EndsAs(Done, st, total, lost, prompt)
  {
    hide Spec.Stop;
  }

  /** A run that ends in a later block ends as it does from there. */
  lemma {:induction false} BlockEnds(e: Outcome, st0: Spec.State, st: Spec.State, total: nat, lost: bool, prompt: bool)
    requires Spec.StateOk(st0) && Spec.StateOk(st) && st.z.pos < total && !e.Done?
    requires Spec.Blocks(st0, total) == Spec.Blocks(st, total) && Spec.Stop(st0, total) == Spec.Stop(st, total)
    requires Spec.HasEmptyBlock(st, total) ==> Spec.HasEmptyBlock(st0, total)
    requires e != Panicked(WordRemains) ==> ExcusedState(Spec.Block(st), lost)
    requires e == Panicked(WordRemains) ==> Spec.HasEmptyBlock(st0, total) || Spec.Overlong(st)
    requires e == Panicked(NilTree) ==> Spec.BadBlock(st)
    requires Spec.BadBlock(st) ==> e == Panicked(NilTree) || lost
    requires e == Panicked(WindowOverflow) ==> Spec.TooBig(st)
    requires e == Failed(Eof) ==> Spec.CutShort(st)
    requires prompt && Spec.CutShort(st) ==> e == Failed(Eof) || e == Panicked(WordRemains)
    requires prompt ==> !lost
    ensures EndsAs(e, st0, total, lost, prompt)
  {
    hide Spec.Block, Spec.BadBlock, Spec.TooBig, Spec.CutShort, Spec.Overlong, Spec.StateOk, Spec.HasEmptyBlock;
    NoBlock(st);
    Spec.StopIs(st, total);
    if e != Panicked(WordRemains) {
      BlocksExcused(st, total, lost);
    }
  }

  /** Among compressed blocks the next one is compressed, and so is one with an unusable pre-tree. */
  lemma {:induction false} StaysSteady(st: Spec.State, total: nat)
    requires Spec.StateOk(st) && st.z.pos < total
    ensures var h := Spec.GetHeader(st.s, st.unaligned);
            (Spec.NothingStored(st, total) && (Spec.Block(st).Some? || Spec.BadBlock(st))) ==>
              h.Some? && h.value.0.Compressed?
    ensures var z := Spec.Stop(st, total);
            Spec.Block(st).None? ==> z == st
  {
    hide Spec.GetTrees, Spec.Decompress, Spec.StateOk, Spec.BadTrees, Spec.RawBlock, Spec.CompressedBlock;
  }

  /** Where a decompressor starts: nothing decoded, all code lengths zero, all recent offsets one. */
  ghost function StartOf(data: seq<byte>): Spec.State {
    Spec.State(Spec.StreamOf(data), false, seq(496, _ => 0), seq(249, _ => 0),
               Spec.Lz(seq(32768, _ => 0), 0, [1, 1, 1]))
  }

  lemma StartOk(data: seq<byte>)
    ensures Spec.StateOk(StartOf(data))
  {
  }

  /**
   Nothing that the input holds is missed: the reader fills the buffer, and the input fits it, or
   consists of whole words without an uncompressed block.
   */
  ghost predicate NothingMissed(data: seq<byte>, total: nat, portions: seq<nat>) {
    StartOk(data);
    portions == [] && (|data| <= 4096 || (|data| % 2 == 0 && Spec.NothingStored(StartOf(data), total)))
  }

  /** The chunk that the format describes, after the call translation. */
  ghost function ChunkOf(data: seq<byte>, total: nat): Option<seq<byte>>
    requires total <= 32768
  {
    StartOk(data);
    match Spec.Blocks(StartOf(data), total)
    case None => None
    case Some(st) => Some(DecodeE8(st.z.win[..total], 0))
  }

  /**
   NewReader and Read to the end, over a reader that returns `data` in any portions. The result is
   the chunk that the format describes. Over a reader from which nothing is missed there is an error
   exactly when the format describes none, but for the header panic, which takes an empty block.
   */
  method Uncompress(data: seq<byte>, total: nat, portions: seq<nat>) returns (r: seq<byte>, e: Outcome)
    ensures total > 32768 ==> e == Failed(TooLarge)
    ensures total <= 32768 && e.Done? ==> ChunkOf(data, total) == Some(r)
    ensures Spec.StateOk(StartOf(data))
    ensures total <= 32768 ==> EndsAs(e, StartOf(data), total, true, false)
    ensures total <= 32768 && portions == [] && |data| <= 4096 ==> EndsAs(e, StartOf(data), total, false, true)
    ensures total <= 32768 && NothingMissed(data, total, portions) ==>
              && (e.Done? || e == Panicked(WordRemains) <== ChunkOf(data, total).Some?)
              && (!Spec.HasEmptyBlock(StartOf(data), total) ==> (e.Done? <==> ChunkOf(data, total).Some?))
  {
    hide Spec.Blocks, Spec.HasEmptyBlock, Spec.NothingStored, DecodeE8, Spec.Stop, Spec.BadBlock, Spec.StateOk, EndsAs;
    hide Decompressor.Reading;
    StartOk(data);
    if total > 32768 {
      return [], Failed(TooLarge);
    }
    var f := new Decompressor(data, Eof, portions);
    assert f.mainlens[..] == seq(496, _ => 0);
    assert f.lenlens[..] == seq(249, _ => 0);
    assert f.window[..] == seq(32768, _ => 0);
    assert StateOf(f, 0) == StartOf(data);
    e := DecodeAll(f, total);
    r := if e == Done then f.window[..total] else [];
    if f.prompt {
      f.NothingLost();
    }
    RunEnded(e, StartOf(data), total, f.lost, f.prompt);
    Spec.StopIs(StartOf(data), total);
  }

  /** What the end of a run says of the chunk. */
  lemma {:induction false} RunEnded(e: Outcome, st: Spec.State, total: nat, lost: bool, prompt: bool)
    requires Spec.StateOk(st) && EndsAs(e, st, total, lost, prompt)
    ensures EndsAs(e, st, total, true, false)
    ensures !e.Done? && e != Panicked(WordRemains) && Spec.Blocks(st, total).Some? ==> lost
    ensures e == Panicked(WordRemains) && !Spec.HasEmptyBlock(st, total) ==> Spec.Blocks(st, total) == None
    ensures e.Done? ==> Spec.Blocks(st, total).Some?
  {
    hide Spec.Blocks, Spec.Stop, Spec.HasEmptyBlock, Spec.BadBlock, Spec.TooBig, Spec.CutShort, Spec.Overlong;
    hide Spec.StateOk;
    Spec.StopIs(st, total);
  }
}
