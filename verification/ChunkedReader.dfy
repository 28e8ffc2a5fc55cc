/**
 The reader of compressed resources (wim/decompress.go): a table of chunk offsets, and chunks of
 32768 bytes that are stored or compressed one by one.

 The decompressor of a chunk is a parameter. Readers report the end of file only with no bytes.
 */
module ChunkedReader {
  import opened Bits
  import opened Wrappers
  import opened LittleEndian

  const CHUNK := 32768

  /** What reading a chunk to its end gives: bytes and then the end of file, or an error. */
  datatype Opened = Data(bytes: seq<byte>) | Fails

  type Lzx = (seq<byte>, nat) -> Opened

  datatype Error = Ok | Eof | UnexpectedEof | Fault | Panic

  datatype Resource = Resource(section: seq<byte>, chunks: seq<int64>, originalSize: int64, lzx: Lzx) {

    function ChunkOffset(n: nat): int64
      requires n <= |chunks| && |section| < TWO_63
    {
      if n == |chunks| then |section| else chunks[n]
    }

    function ChunkSize(n: nat): int64
      requires n < |chunks| && |section| < TWO_63
    {
      Int64(ChunkOffset(n + 1) as int - ChunkOffset(n) as int)
    }

    /** Every chunk but the last is full. */
    function UncompressedSize(n: nat): (size: nat)
      requires originalSize > 0
      ensures 0 < size <= CHUNK
    {
      if n < |chunks| - 1 then CHUNK
      else if originalSize % CHUNK == 0 then CHUNK
      else originalSize % CHUNK
    }

    /** What the n-th chunk reads as: a chunk as long as its contents is stored. */
    function Chunk(n: nat): Opened
      requires n < |chunks| && |section| < TWO_63 && originalSize > 0
    {
      var bytes := SectionBytes(section, ChunkOffset(n), ChunkSize(n));
      if ChunkSize(n) != UncompressedSize(n) then lzx(bytes, UncompressedSize(n)) else Data(bytes)
    }

    ghost predicate Valid() {
      |section| < TWO_63 && originalSize > 0 && |chunks| == ChunkCount(originalSize)
    }
  }

  /** io.NewSectionReader(r, off, n), read to its end; a limit that overflows is no limit. */
  function SectionBytes(section: seq<byte>, off: int64, n: int64): seq<byte>
  {
    var limit := if off <= Int64(TWO_63 - 1 - n as int) then off as int + n as int else TWO_63 - 1;
    var end := if limit < |section| then limit else |section|;
    if 0 <= off < end then section[off..end] else []
  }

  /**
   (originalSize + chunkSize - 1) / chunkSize, which is zero or negative for sizes that overflow or
   are not positive.
   */
  function ChunkCount(originalSize: int64): int {
    var total: int := Int64(originalSize as int + CHUNK - 1);
    if total < 0 then -((-total) / CHUNK) else total / CHUNK
  }

  // ---------------------------------------------------------------- sequential decompression

  /** What sequential decompression yields: bytes, and whether an error follows them. */
  datatype Output = Output(bytes: seq<byte>, fails: bool)

  function Then(o: Opened, rest: Output): Output {
    match o
    case Fails => Output([], true)
    case Data(b) => Output(b + rest.bytes, rest.fails)
  }

  /** All chunks from the n-th on, one after the other. */
  function Sequential(res: Resource, n: nat): Output
    requires res.Valid() && n <= |res.chunks|
    decreases |res.chunks| - n
  {
    if n == |res.chunks| then Output([], false) else Then(res.Chunk(n), Sequential(res, n + 1))
  }

  /** Every chunk decompresses to as many bytes as it should. */
  ghost predicate Whole(res: Resource)
    requires res.Valid()
  {
    forall n :: 0 <= n < |res.chunks| ==> res.Chunk(n).Data? && |res.Chunk(n).bytes| == res.UncompressedSize(n)
  }

  function SizesFrom(res: Resource, n: nat): int
    requires res.Valid() && n <= |res.chunks|
    decreases |res.chunks| - n
  {
    if n == |res.chunks| then 0 else res.UncompressedSize(n) + SizesFrom(res, n + 1)
  }

  /** The chunks' sizes add up to the size of the resource. */
  lemma {:induction false} SizesAddUp(res: Resource, n: nat)
    requires res.Valid() && n <= |res.chunks|
    ensures SizesFrom(res, n) == if n == |res.chunks| then 0 else res.originalSize - n * CHUNK
    decreases |res.chunks| - n
  {
    if n < |res.chunks| {
      SizesAddUp(res, n + 1);
    }
  }

  /** A whole resource decompresses to its size, and from the n-th chunk on to all but the chunks before. */
  lemma {:induction false} SequentialFrom(res: Resource, n: nat)
    requires res.Valid() && Whole(res) && n <= |res.chunks|
    ensures !Sequential(res, n).fails && |Sequential(res, n).bytes| == SizesFrom(res, n)
    decreases |res.chunks| - n
  {
    if n < |res.chunks| {
      SequentialFrom(res, n + 1);
    }
  }

  /** An error is reported exactly when some chunk fails; a chunk that merely ends early goes unnoticed. */
  lemma {:induction false} FailsExactly(res: Resource, n: nat)
    requires res.Valid() && n <= |res.chunks|
    ensures Sequential(res, n).fails <==> exists i :: n <= i < |res.chunks| && res.Chunk(i).Fails?
    decreases |res.chunks| - n
  {
    hide Resource.Chunk;
    if n < |res.chunks| {
      FailsExactly(res, n + 1);
    }
  }

  lemma CountIs(originalSize: int64)
    requires originalSize > 0 && ChunkCount(originalSize) >= 0
    ensures (ChunkCount(originalSize) - 1) * CHUNK < originalSize <= ChunkCount(originalSize) * CHUNK
  {
  }

  lemma {:induction false} SequentialSkips(res: Resource, n: nat)
    requires res.Valid() && Whole(res) && n < |res.chunks|
    ensures |Sequential(res, 0).bytes| == res.originalSize && n * CHUNK <= res.originalSize
    ensures Sequential(res, n) == Output(Sequential(res, 0).bytes[n * CHUNK..], false)
  {
    hide Resource.Chunk;
    SequentialFrom(res, 0);
    SizesAddUp(res, 0);
    SequentialFrom(res, n);
    if n > 0 {
      SequentialSkips(res, n - 1);
      var all, prev, here := Sequential(res, 0).bytes, Sequential(res, n - 1).bytes, Sequential(res, n).bytes;
      assert prev == res.Chunk(n - 1).bytes + here;
      assert |res.Chunk(n - 1).bytes| == CHUNK;
      assert here == prev[CHUNK..];
      assert prev[CHUNK..] == all[n * CHUNK..];
    }
  }

  // ---------------------------------------------------------------- the chunk table

  /** Entry `i` of the table: an unsigned 32-bit or a signed 64-bit number. */
  function Word(section: seq<byte>, i: nat, wide: bool): int64
    requires |section| >= (i + 1) * if wide then 8 else 4
  {
    if wide then Int64(UnLe(section[8 * i..8 * i + 8]))
    else
      Pow256Values();
      UnLeBound(section[4 * i..4 * i + 4]);
      UnLe(section[4 * i..4 * i + 4])
  }

  function TableSize(count: nat, wide: bool): nat
    requires count > 0
  {
    if wide then (count - 1) * 8 else (count - 1) * 4
  }

  /** Where the n-th chunk starts: the table leaves out the first chunk, and counts from its own end. */
  function ChunkStart(section: seq<byte>, count: nat, wide: bool, n: nat): int64
    requires n < count && |section| >= TableSize(count, wide)
  {
    Int64((if n == 0 then 0 else Word(section, n - 1, wide) as int) + TableSize(count, wide))
  }

  method ReadTable(section: seq<byte>, count: nat, wide: bool) returns (chunks: seq<int64>, e: Error)
    requires count > 0
    ensures e == if |section| >= TableSize(count, wide) then Ok else if section == [] then Eof else UnexpectedEof
    ensures e == Ok ==>
              |chunks| == count && forall n :: 0 <= n < count ==> chunks[n] == ChunkStart(section, count, wide, n)
  {
    hide Word, Int64;
    chunks := [];
    var base := TableSize(count, wide);
    if |section| < base {
      return [], if section == [] then Eof else UnexpectedEof;
    }
    chunks := [0];
    for i := 0 to count - 1
      invariant |chunks| == i + 1 && chunks[0] == 0
      invariant forall n :: 1 <= n <= i ==> chunks[n] == Word(section, n - 1, wide)
    {
      chunks := chunks + [Word(section, i, wide)];
    }
    ghost var words := chunks;
    for i := 0 to count
      invariant |chunks| == count
      invariant forall n :: i <= n < count ==> chunks[n] == words[n]
      invariant forall n :: 0 <= n < i ==> chunks[n] == ChunkStart(section, count, wide, n)
    {
      chunks := chunks[i := Int64(chunks[i] as int + base)];
    }
    e := Ok;
  }

  // ---------------------------------------------------------------- compressedReader

  class CompressedReader {
    const res: Resource
    var curChunk: nat
    var d: Opened

    ghost predicate Valid()
      reads this
    {
      res.Valid() && curChunk < |res.chunks|
    }

    /** Everything still to be read. */
    ghost function Rest(): Output
      reads this
      requires Valid()
    {
      Then(d, Sequential(res, curChunk + 1))
    }

    constructor (res: Resource)
      requires res.Valid() && |res.chunks| > 0
      ensures this.res == res && Valid() && curChunk == 0 && d == Data([])
    {
      this.res, curChunk, d := res, 0, Data([]);
    }

    method Reset(n: nat) returns (e: Error)
      requires res.Valid()
      modifies this
      ensures n >= |res.chunks| ==> e == Eof && curChunk == old(curChunk) && d == old(d)
      ensures n < |res.chunks| ==> e == Ok && Valid() && curChunk == n && d == res.Chunk(n)
    {
      if n >= |res.chunks| {
        return Eof;
      }
      curChunk := n;
      var size, uncompressedSize := res.ChunkSize(n), res.UncompressedSize(n);
      var section := SectionBytes(res.section, res.ChunkOffset(n), size);
      d := if size != uncompressedSize then res.lzx(section, uncompressedSize) else Data(section);
      e := Ok;
    }

    /** Read of the chunk at hand, with a buffer of `n` bytes. */
    method ReadChunk(n: nat) returns (data: seq<byte>, e: Error)
      modifies this`d
      ensures d.Data? <==> old(d).Data?
      ensures old(d).Fails? ==> data == [] && e == Fault
      ensures old(d).Data? ==>
                && old(d).bytes == data + d.bytes && |data| <= n
                && (e == if old(d).bytes == [] then Eof else Ok)
                && (n > 0 && old(d).bytes != [] ==> data != [])
    {
      match d
      case Fails =>
        return [], Fault;
      case Data(bytes) =>
        if bytes == [] {
          return [], Eof;
        }
        var k: nat :| k <= n && k <= |bytes| && (n > 0 ==> k > 0);
        d := Data(bytes[k..]);
        return bytes[..k], Ok;
    }

    /** Read with a buffer of `n` bytes: the next bytes of the resource, across chunks. */
    method Read(n: nat) returns (data: seq<byte>, e: Error)
      requires Valid()
      modifies this
      ensures Valid() && |data| <= n
      ensures old(Rest()) == Output(data + Rest().bytes, Rest().fails)
      ensures e == if old(Rest()).bytes != [] then Ok else if old(Rest()).fails then Fault else Eof
      ensures n > 0 && old(Rest()).bytes != [] ==> data != []
    {
      hide Resource.Valid, Resource.Chunk;
      while true
        invariant Valid() && Rest() == old(Rest())
        decreases |res.chunks| - curChunk
      {
        ghost var was := d;
        data, e := ReadChunk(n);
        if e != Eof {
          assert was.Data? ==> (data + d.bytes) + Sequential(res, curChunk + 1).bytes == data + Rest().bytes;
          return;
        }
        assert Rest() == Sequential(res, curChunk + 1);
        e := Reset(curChunk + 1);
        if e != Ok {
          return;
        }
      }
    }

    /** io.CopyN(io.Discard, cr.d, n) */
    method DiscardFromChunk(n: nat) returns (e: Error)
      modifies this`d
      ensures old(d).Fails? ==> d == old(d) && e == if n > 0 then Fault else Ok
      ensures old(d).Data? ==> e == if n <= |old(d).bytes| then Ok else Eof
      ensures old(d).Data? && e == Ok ==> d == Data(old(d).bytes[n..])
    {
      ghost var was := d;
      var left := n;
      while left > 0
        invariant 0 <= left <= n && (was.Fails? ==> d == was && left == n)
        invariant was.Data? ==> n - left <= |was.bytes| && d == Data(was.bytes[n - left..])
      {
        var data;
        data, e := ReadChunk(left);
        if e != Ok {
          return;
        }
        left := left - |data|;
      }
      return Ok;
    }

    /** io.ReadAll of the resource, with any buffer sizes. */
    method ReadAll() returns (data: seq<byte>, e: Error)
      requires Valid()
      modifies this
      ensures data == old(Rest()).bytes && e == if old(Rest()).fails then Fault else Ok
    {
      hide Resource.Valid, Sequential;
      ghost var all := Rest();
      data := [];
      while true
        invariant Valid() && all == Output(data + Rest().bytes, Rest().fails)
        decreases |Rest().bytes|
      {
        var n: nat :| n > 0;
        var piece;
        ghost var rest := Rest().bytes;
        piece, e := Read(n);
        assert data + (piece + Rest().bytes) == (data + piece) + Rest().bytes;
        data := data + piece;
        if e != Ok {
          return data, if e == Eof then Ok else e;
        }
      }
    }
  }

  /** Where a reader opened at `offset` starts: Go's division takes offsets just below zero to the first chunk. */
  function From(offset: int64): nat {
    if offset < 0 then 0 else offset
  }

  /**
   newCompressedReader. It panics on sizes it cannot make a table for and on offsets a chunk or more
   below zero, fails if the table is cut short or the offset lies beyond the chunk it falls
   in, and otherwise is ready to read the rest of that chunk and all chunks after it.
   */
  method NewCompressedReader(section: seq<byte>, originalSize: int64, offset: int64, lzx: Lzx)
      returns (cr: Option<CompressedReader>, e: Error)
    requires |section| < TWO_63
    ensures e == Ok <==> cr.Some?
    ensures var count, wide := ChunkCount(originalSize), originalSize > 0xffff_ffff;
            && (e == Panic <==> count <= 0 || (|section| >= TableSize(count, wide) && offset <= -CHUNK))
            && (count > 0 && |section| < TableSize(count, wide) ==> e == if section == [] then Eof else UnexpectedEof)
            && (count > 0 && |section| >= TableSize(count, wide) && offset > -CHUNK ==>
                  var res, at := ResourceOf(section, originalSize, lzx), From(offset);
                  && res.Valid()
                  && e == OpenError(res, at)
                  && (e == Ok ==>
                        && cr.value.Valid() && cr.value.res == res && cr.value.curChunk == at / CHUNK
                        && cr.value.Rest() == LeftAt(res, at)))
  {
    hide Sequential, ChunkStart, SectionBytes;
    var count: int, wide := ChunkCount(originalSize), originalSize > 0xffff_ffff;
    if count <= 0 {
      return None, Panic;
    }
    var chunks;
    chunks, e := ReadTable(section, count, wide);
    if e != Ok {
      return None, e;
    }
    var res := Resource(section, chunks, originalSize, lzx);
    assert chunks == ResourceOf(section, originalSize, lzx).chunks;
    var r := new CompressedReader(res);
    var n: int := if offset < 0 then -((-(offset as int)) / CHUNK) else offset / CHUNK;
    if n < 0 {
      return None, Panic;
    }
    e := r.Reset(n);
    if e != Ok {
      return None, e;
    }
    var suboff: int := offset - n * CHUNK;
    if suboff != 0 {
      // io.CopyN copies nothing when asked for a negative number of bytes.
      e := r.DiscardFromChunk(if suboff < 0 then 0 else suboff);
      if e != Ok {
        return None, e;
      }
    }
    cr := Some(r);
  }

  /** The resource a section describes. */
  function ResourceOf(section: seq<byte>, originalSize: int64, lzx: Lzx): Resource
    requires ChunkCount(originalSize) > 0
    requires |section| >= TableSize(ChunkCount(originalSize), originalSize > 0xffff_ffff)
  {
    var count, wide := ChunkCount(originalSize), originalSize > 0xffff_ffff;
    Resource(section, seq(count, n requires 0 <= n < count => ChunkStart(section, count, wide, n)), originalSize, lzx)
  }

  /** How opening at an offset ends. */
  function OpenError(res: Resource, offset: nat): Error
    requires res.Valid()
  {
    var n, sub := offset / CHUNK, offset % CHUNK;
    if n >= |res.chunks| then Eof
    else if sub == 0 then Ok
    else
      match res.Chunk(n)
      case Fails => Fault
      case Data(b) => if sub <= |b| then Ok else Eof
  }

  function Skipped(o: Opened, n: nat): Opened {
    if o.Data? && n <= |o.bytes| then Data(o.bytes[n..]) else o
  }

  /** What a reader opened at `offset` has to read: the rest of that chunk, and the chunks after it. */
  function LeftAt(res: Resource, offset: nat): Output
    requires res.Valid() && offset / CHUNK < |res.chunks|
  {
    Then(Skipped(res.Chunk(offset / CHUNK), offset % CHUNK), Sequential(res, offset / CHUNK + 1))
  }

  /**
   Random access agrees with sequential decompression: at every offset of a whole resource the
   reader opens, and what it yields is the resource without its first `offset` bytes.
   */
  lemma {:induction false} OpenedAtOffset(res: Resource, offset: nat)
    requires res.Valid() && Whole(res)
    ensures |Sequential(res, 0).bytes| == res.originalSize && !Sequential(res, 0).fails
    ensures OpenError(res, offset) == Ok <==> offset <= res.originalSize && offset / CHUNK < |res.chunks|
    ensures offset < res.originalSize ==> OpenError(res, offset) == Ok
    ensures OpenError(res, offset) == Ok ==> LeftAt(res, offset) == Output(Sequential(res, 0).bytes[offset..], false)
  {
    hide Resource.Chunk, Int64;
    SequentialFrom(res, 0);
    SizesAddUp(res, 0);
    CountIs(res.originalSize);
    var n, sub := offset / CHUNK, offset % CHUNK;
    if n < |res.chunks| {
      SequentialSkips(res, n);
      var all, b, rest := Sequential(res, 0).bytes, res.Chunk(n).bytes, Sequential(res, n + 1).bytes;
      assert b + rest == all[n * CHUNK..];
      SequentialFrom(res, n + 1);
      if sub <= |b| {
        assert b[sub..] + rest == (b + rest)[sub..] == all[offset..];
      }
    }
  }

  // ---------------------------------------------------------------- the layout of a resource

  function Concat(cs: seq<seq<byte>>): seq<byte> {
    if cs == [] then [] else Concat(cs[..|cs| - 1]) + cs[|cs| - 1]
  }

  /** The offsets of chunks 1 to n - 1, counted from the end of the table. */
  function OffsetTable(cs: seq<seq<byte>>, n: nat, wide: bool): (b: seq<byte>)
    requires n <= |cs|
    ensures n > 0 ==> |b| == TableSize(n, wide)
  {
    if n <= 1 then [] else OffsetTable(cs, n - 1, wide) + Le(|Concat(cs[..n - 1])|, if wide then 8 else 4)
  }

  /** A resource of the stored chunks `cs`. */
  function Layout(cs: seq<seq<byte>>, wide: bool): seq<byte> {
    OffsetTable(cs, |cs|, wide) + Concat(cs)
  }

  /** The n-th chunk lies where the ones before it end. */
  lemma {:induction false} ConcatAt(cs: seq<seq<byte>>, n: nat, m: nat)
    requires n < m <= |cs|
    ensures |Concat(cs[..n])| + |cs[n]| == |Concat(cs[..n + 1])| <= |Concat(cs[..m])|
    ensures Concat(cs[..m])[|Concat(cs[..n])|..|Concat(cs[..n + 1])|] == cs[n]
  {
    assert cs[..n + 1][..n] == cs[..n];
    if n + 1 < m {
      ConcatAt(cs, n, m - 1);
      assert cs[..m][..m - 1] == cs[..m - 1];
    }
  }

  lemma {:induction false} TableAt(cs: seq<seq<byte>>, i: nat, n: nat, wide: bool)
    requires 1 <= i < n <= |cs|
    ensures wide ==> OffsetTable(cs, n, wide)[8 * (i - 1)..8 * i] == Le(|Concat(cs[..i])|, 8)
    ensures !wide ==> OffsetTable(cs, n, wide)[4 * (i - 1)..4 * i] == Le(|Concat(cs[..i])|, 4)
  {
    hide Concat, Le;
    if i + 1 < n {
      TableAt(cs, i, n - 1, wide);
    }
  }

  /** A table entry of a laid-out resource is read back. */
  lemma {:induction false} WordAt(cs: seq<seq<byte>>, i: nat, wide: bool)
    requires 1 <= i < |cs| && |Layout(cs, wide)| < TWO_63 && (!wide ==> |Concat(cs)| < 0x1_0000_0000)
    ensures |Layout(cs, wide)| >= TableSize(|cs|, wide) && Word(Layout(cs, wide), i - 1, wide) == |Concat(cs[..i])|
  {
    hide Concat, Le, UnLe, OffsetTable;
    assert cs[..|cs|] == cs;
    ConcatAt(cs, i, |cs|);
    TableAt(cs, i, |cs|, wide);
    var b, t, at := Layout(cs, wide), OffsetTable(cs, |cs|, wide), |Concat(cs[..i])|;
    Pow256Values();
    if wide {
      assert b[8 * (i - 1)..8 * (i - 1) + 8] == t[8 * (i - 1)..8 * i];
      UnLeLe(at, 8);
    } else {
      assert b[4 * (i - 1)..4 * (i - 1) + 4] == t[4 * (i - 1)..4 * i];
      UnLeLe(at, 4);
    }
  }

  lemma {:induction false} OffsetAt(cs: seq<seq<byte>>, n: nat, originalSize: int64, lzx: Lzx)
    requires originalSize > 0 && |cs| == ChunkCount(originalSize) && n <= |cs|
    requires |Layout(cs, originalSize > 0xffff_ffff)| < TWO_63
    requires originalSize <= 0xffff_ffff ==> |Concat(cs)| < 0x1_0000_0000
    ensures var wide := originalSize > 0xffff_ffff;
            var res := ResourceOf(Layout(cs, wide), originalSize, lzx);
            res.Valid() && res.ChunkOffset(n) == TableSize(|cs|, wide) + |Concat(cs[..n])|
  {
    hide Concat, Word, OffsetTable;
    var wide := originalSize > 0xffff_ffff;
    assert cs[..|cs|] == cs;
    NoChunks(cs);
    LayoutLong(cs, wide);
    if 0 < n < |cs| {
      WordAt(cs, n, wide);
      ConcatAt(cs, n, |cs|);
      var b := Layout(cs, wide);
      assert Word(b, n - 1, wide) as int + TableSize(|cs|, wide) <= |b|;
      assert ChunkStart(b, |cs|, wide, n) == Word(b, n - 1, wide) as int + TableSize(|cs|, wide);
    } else if n == 0 {
      assert ChunkStart(Layout(cs, wide), |cs|, wide, 0) == TableSize(|cs|, wide);
    } else {
      assert cs[..n] == cs;
    }
  }

  lemma LayoutLong(cs: seq<seq<byte>>, wide: bool)
    requires cs != []
    ensures |Layout(cs, wide)| == TableSize(|cs|, wide) + |Concat(cs)|
  {
  }

  lemma NoChunks(cs: seq<seq<byte>>)
    ensures Concat(cs[..0]) == []
  {
  }

  /** Every chunk of a laid-out resource is found, with 32-bit and with 64-bit tables. */
  lemma {:induction false} ChunkFound(cs: seq<seq<byte>>, n: nat, originalSize: int64, lzx: Lzx)
    requires originalSize > 0 && |cs| == ChunkCount(originalSize) && n < |cs|
    requires |Layout(cs, originalSize > 0xffff_ffff)| < TWO_63
    requires originalSize <= 0xffff_ffff ==> |Concat(cs)| < 0x1_0000_0000
    ensures var res := ResourceOf(Layout(cs, originalSize > 0xffff_ffff), originalSize, lzx);
            && res.Valid() && res.ChunkSize(n) == |cs[n]|
            && SectionBytes(res.section, res.ChunkOffset(n), res.ChunkSize(n)) == cs[n]
  {
    hide Concat, ResourceOf, OffsetTable, SectionBytes, TableSize, ChunkCount;
    var wide := originalSize > 0xffff_ffff;
    var t := OffsetTable(cs, |cs|, wide);
    OffsetAt(cs, n, originalSize, lzx);
    OffsetAt(cs, n + 1, originalSize, lzx);
    assert cs[..|cs|] == cs;
    ConcatAt(cs, n, |cs|);
    var a, z := |Concat(cs[..n])|, |Concat(cs[..n + 1])|;
    assert (t + Concat(cs))[|t| + a..|t| + z] == Concat(cs)[a..z];
    SectionIs(cs, originalSize, lzx);
    SectionInside(t + Concat(cs), |t| + a, |t| + z);
  }

  lemma SectionInside(section: seq<byte>, off: nat, end: nat)
    requires off <= end <= |section| < TWO_63
    ensures Int64(end - off) == end - off && SectionBytes(section, off, end - off) == section[off..end]
  {
  }

  lemma SectionIs(cs: seq<seq<byte>>, originalSize: int64, lzx: Lzx)
    requires originalSize > 0 && |cs| == ChunkCount(originalSize)
    requires |Layout(cs, originalSize > 0xffff_ffff)| < TWO_63
    ensures ResourceOf(Layout(cs, originalSize > 0xffff_ffff), originalSize, lzx).section ==
              Layout(cs, originalSize > 0xffff_ffff)
    ensures |OffsetTable(cs, |cs|, originalSize > 0xffff_ffff)| == TableSize(|cs|, originalSize > 0xffff_ffff)
  {
  }

  /** `stored` stands for the contents `plain`: stored if equally long, and otherwise compressed. */
  ghost predicate StandsFor(stored: seq<byte>, plain: seq<byte>, lzx: Lzx) {
    if |stored| == |plain| then stored == plain else lzx(stored, |plain|) == Data(plain)
  }

  /** Contents cut into chunks. */
  ghost predicate Cut(plain: seq<seq<byte>>, originalSize: int64) {
    && originalSize > 0 && |plain| == ChunkCount(originalSize)
    && forall n :: 0 <= n < |plain| ==>
         |plain[n]| == if n < |plain| - 1 || originalSize % CHUNK == 0 then CHUNK else originalSize % CHUNK
  }

  lemma {:induction false} SequentialIs(res: Resource, plain: seq<seq<byte>>, n: nat)
    requires res.Valid() && |plain| == |res.chunks| && n <= |plain|
    requires forall i :: 0 <= i < |plain| ==> res.Chunk(i) == Data(plain[i])
    ensures Concat(plain) == Concat(plain[..n]) + Sequential(res, n).bytes && !Sequential(res, n).fails
    decreases |plain| - n
  {
    hide Resource.Chunk;
    if n == |plain| {
      assert plain[..n] == plain;
    } else {
      SequentialIs(res, plain, n + 1);
      assert plain[..n + 1][..n] == plain[..n];
      assert Concat(plain[..n]) + (plain[n] + Sequential(res, n + 1).bytes)
          == Concat(plain[..n]) + plain[n] + Sequential(res, n + 1).bytes;
    }
  }

  /**
   The round trip: contents cut into chunks, each stored or compressed, and laid out behind a table
   of offsets, read back at every offset as the contents from that offset on.
   */
  lemma {:induction false} LaidOutIsRead(plain: seq<seq<byte>>, stored: seq<seq<byte>>, originalSize: int64, lzx: Lzx,
                                         offset: nat)
    requires Cut(plain, originalSize) && |stored| == |plain|
    requires forall n :: 0 <= n < |plain| ==> StandsFor(stored[n], plain[n], lzx)
    requires |Layout(stored, originalSize > 0xffff_ffff)| < TWO_63
    requires originalSize <= 0xffff_ffff ==> |Concat(stored)| < 0x1_0000_0000
    requires offset < originalSize
    ensures |Concat(plain)| == originalSize
    ensures var res := ResourceOf(Layout(stored, originalSize > 0xffff_ffff), originalSize, lzx);
            && res.Valid() && OpenError(res, offset) == Ok && offset / CHUNK < |res.chunks|
            && LeftAt(res, offset) == Output(Concat(plain)[offset..], false)
  {
    hide ResourceOf, Layout, Concat, SectionBytes, Sequential, LeftAt;
    LayoutLong(stored, originalSize > 0xffff_ffff);
    var res := ResourceOf(Layout(stored, originalSize > 0xffff_ffff), originalSize, lzx);
    ChunkFound(stored, 0, originalSize, lzx);
    ResourceIs(stored, originalSize, lzx);
    forall n | 0 <= n < |plain|
      ensures res.Chunk(n) == Data(plain[n]) && |plain[n]| == res.UncompressedSize(n)
    {
      ChunkFound(stored, n, originalSize, lzx);
    }
    SequentialIs(res, plain, 0);
    NoChunks(plain);
    OpenedAtOffset(res, offset);
  }

  lemma ResourceIs(cs: seq<seq<byte>>, originalSize: int64, lzx: Lzx)
    requires originalSize > 0 && |cs| == ChunkCount(originalSize)
    requires |Layout(cs, originalSize > 0xffff_ffff)| < TWO_63
    ensures var res := ResourceOf(Layout(cs, originalSize > 0xffff_ffff), originalSize, lzx);
            res.originalSize == originalSize && res.lzx == lzx && |res.chunks| == |cs|
  {
  }

  // ---------------------------------------------------------------- numbers

  /** As many chunks of 32768 bytes as it takes. */
  lemma ChunksNeeded(originalSize: int64)
    requires 0 < originalSize <= 0x4000_0000_0000_0000
    ensures (ChunkCount(originalSize) - 1) * 32768 < originalSize <= ChunkCount(originalSize) * 32768
  {
  }

  /**
   Two chunks, of two bytes and of one: one table entry of four or of eight bytes, which says where
   the second starts.
   */
  lemma {:induction false} TwoChunks()
    ensures Layout([[7, 8], [9]], false) == [2, 0, 0, 0, 7, 8, 9]
    ensures Layout([[7, 8], [9]], true) == [2, 0, 0, 0, 0, 0, 0, 0, 7, 8, 9]
  {
    hide Le;
    var cs: seq<seq<byte>> := [[7, 8], [9]];
    assert cs[..1] == [[7, 8]] && [[7, 8]][..0] == [];
    assert Concat(cs[..1]) == [] + [7, 8] && Concat(cs) == [7, 8] + [9];
    Twos();
  }

  lemma Twos()
    ensures Le(2, 4) == [2, 0, 0, 0] && Le(2, 8) == [2, 0, 0, 0, 0, 0, 0, 0]
  {
    assert Le(0, 3) == [0, 0, 0];
    assert Le(0, 7) == [0, 0, 0, 0] + Le(0, 3);
  }
}
