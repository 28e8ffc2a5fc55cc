/** The chunked reader of wim/decompress.go over the chunks of wim/lzx/lzx.go. */
module WimChunks {
  import opened Bits
  import opened Wrappers
  import opened ChunkedReader
  import opened LzxBlocks
  import Spec = LzxSpec
  import LzxReader
  import LzxTrees

  /**
   What the format makes of a compressed chunk: its bytes, none if an uncompressed block is cut
   short, or an error.
   */
  ghost function FormatChunk(data: seq<byte>, size: nat): Opened {
    if size > CHUNK then Fails
    else
      StartOk(data);
      match ChunkOf(data, size)
      case Some(r) => Data(r)
      case None => if Spec.CutShort(Spec.Stop(StartOf(data), size)) then Data([]) else Fails
  }

  /**
   A chunk read through the decompressor, by a section reader, which fills the buffer. The result is
   none if it panics. Where nothing is missed it is what the format makes of the chunk.
   */
  method ReadLzxChunk(data: seq<byte>, size: nat) returns (o: Option<Opened>)
    requires size <= CHUNK
    ensures Spec.StateOk(StartOf(data))
    ensures NothingMissed(data, size, []) && ChunkOf(data, size).Some? && !Spec.HasEmptyBlock(StartOf(data), size) ==>
              o == Some(FormatChunk(data, size))
    ensures |data| <= 4096 && o.Some? ==> o == Some(FormatChunk(data, size))
  {
    hide ChunkOf, NothingMissed, Spec.HasEmptyBlock, Spec.CutShort, Spec.StateOk, EndsAs, Spec.Stop;
    var r, e := Uncompress(data, size, []);
    o := match e
      case Done => Some(Data(r))
      case Failed(err) => Some(if err == LzxReader.Eof then Data([]) else Fails)
      case Panicked(_) => None;
    StartOk(data);
    if |data| <= 4096 && e.Failed? {
      ChunkEnds(e, data, size);
    }
  }

  /** Errors of a run from which nothing is missed. */
  lemma {:induction false} ChunkEnds(e: LzxTrees.Outcome, data: seq<byte>, size: nat)
    requires size <= CHUNK && Spec.StateOk(StartOf(data)) && EndsAs(e, StartOf(data), size, false, true) && e.Failed?
    ensures ChunkOf(data, size) == None
    ensures e.error == LzxReader.Eof <==> Spec.CutShort(Spec.Stop(StartOf(data), size))
  {
    hide Spec.Stop, Spec.Blocks, Spec.StateOk, Spec.CutShort, Spec.BadBlock, Spec.TooBig, Spec.HasEmptyBlock;
    hide Spec.Overlong;
    Spec.StopIs(StartOf(data), size);
  }

  /** `stored` is the contents themselves, or a chunk that the format decompresses to them. */
  ghost predicate Stores(stored: seq<byte>, plain: seq<byte>) {
    |plain| <= CHUNK && if |stored| == |plain| then stored == plain else ChunkOf(stored, |plain|) == Some(plain)
  }

  /**
   A resource of such chunks, laid out behind its table, reads back from every offset as the
   contents from there on.
   */
  lemma {:induction false} LzxResourceIsRead(plain: seq<seq<byte>>, stored: seq<seq<byte>>, originalSize: int64,
                                             offset: nat)
    requires Cut(plain, originalSize) && |stored| == |plain|
    requires forall n :: 0 <= n < |plain| ==> Stores(stored[n], plain[n])
    requires |Layout(stored, originalSize > 0xffff_ffff)| < TWO_63
    requires originalSize <= 0xffff_ffff ==> |Concat(stored)| < 0x1_0000_0000
    requires offset < originalSize
    ensures |Concat(plain)| == originalSize
    ensures var wide := originalSize > 0xffff_ffff;
            |Layout(stored, wide)| >= TableSize(ChunkCount(originalSize), wide)
    ensures var res := ResourceOf(Layout(stored, originalSize > 0xffff_ffff), originalSize, FormatChunk);
            && res.Valid() && OpenError(res, offset) == Ok && offset / CHUNK < |res.chunks|
            && LeftAt(res, offset) == Output(Concat(plain)[offset..], false)
  {
    hide ChunkOf, Layout, Concat, LeftAt, OpenError, ResourceOf;
    forall n | 0 <= n < |plain|
      ensures StandsFor(stored[n], plain[n], FormatChunk)
    {
      assert Stores(stored[n], plain[n]);
    }
    LayoutLong(stored, originalSize > 0xffff_ffff);
    LaidOutIsRead(plain, stored, originalSize, FormatChunk, offset);
  }
}
