/** Sparse files in a backup stream become dense files in a tar: copySparse of backuptar/tar.go. */
module Sparse {
  import opened Bits
  import opened Wrappers
  import opened BackupStream

  // ---------------------------------------------------------------- what a sparse map means

  datatype Block = Block(offset: nat, data: seq<byte>)

  /** Blocks in order, without overlap, from `cur` up to `end`. */
  ghost predicate Ascending(blocks: seq<Block>, cur: nat, end: int) {
    if blocks == [] then cur <= end
    else cur <= blocks[0].offset && Ascending(blocks[1..], blocks[0].offset + |blocks[0].data|, end)
  }

  predicate Covers(b: Block, j: int) {
    b.offset <= j < b.offset + |b.data|
  }

  function ZeroBytes(n: nat): (z: seq<byte>)
    ensures |z| == n
  {
    seq(n, _ => 0)
  }

  /** The file from `cur` to `end`: holes as zeros. */
  ghost function Render(blocks: seq<Block>, cur: nat, end: int): seq<byte>
    requires Ascending(blocks, cur, end)
  {
    if blocks == [] then ZeroBytes(end - cur)
    else
      var b := blocks[0];
      ZeroBytes(b.offset - cur) + b.data + Render(blocks[1..], b.offset + |b.data|, end)
  }

  lemma {:induction false} AscendingBounds(blocks: seq<Block>, cur: nat, end: int)
    requires Ascending(blocks, cur, end)
    ensures cur <= end
    ensures forall i :: 0 <= i < |blocks| ==> cur <= blocks[i].offset && blocks[i].offset + |blocks[i].data| <= end
  {
    if blocks != [] {
      AscendingBounds(blocks[1..], blocks[0].offset + |blocks[0].data|, end);
      forall i | 0 <= i < |blocks|
        ensures cur <= blocks[i].offset && blocks[i].offset + |blocks[i].data| <= end
      {
        if i > 0 {
          assert blocks[i] == blocks[1..][i - 1];
        }
      }
    }
  }

  /** No block covers byte `j`. */
  ghost predicate Hole(blocks: seq<Block>, j: int) {
    forall i :: 0 <= i < |blocks| ==> !Covers(blocks[i], j)
  }

  lemma {:induction false} RenderLength(blocks: seq<Block>, cur: nat, end: int)
    requires Ascending(blocks, cur, end)
    ensures |Render(blocks, cur, end)| == end - cur
  {
    if blocks != [] {
      RenderLength(blocks[1..], blocks[0].offset + |blocks[0].data|, end);
    }
  }

  /** One byte of the rendering. */
  lemma {:induction false} RenderAt(blocks: seq<Block>, cur: nat, end: int, j: int)
    requires Ascending(blocks, cur, end) && cur <= j < end
    ensures |Render(blocks, cur, end)| == end - cur
    ensures forall i :: 0 <= i < |blocks| && Covers(blocks[i], j) ==>
              Render(blocks, cur, end)[j - cur] == blocks[i].data[j - blocks[i].offset]
    ensures Hole(blocks, j) ==> Render(blocks, cur, end)[j - cur] == 0
  {
    RenderLength(blocks, cur, end);
    if blocks != [] {
      var b, rest := blocks[0], blocks[1..];
      var mid := b.offset + |b.data|;
      var r, tail := Render(blocks, cur, end), Render(rest, mid, end);
      assert r == ZeroBytes(b.offset - cur) + b.data + tail;
      assert forall i :: 0 < i < |blocks| ==> blocks[i] == rest[i - 1];
      AscendingBounds(rest, mid, end);
      if j >= mid {
        RenderAt(rest, mid, end, j);
        assert r[j - cur] == tail[j - mid];
        assert Hole(blocks, j) ==> Hole(rest, j) by {
          assert forall i :: 0 <= i < |rest| ==> rest[i] == blocks[i + 1];
        }
      } else {
        assert Hole(blocks, j) ==> !Covers(blocks[0], j);
      }
    }
  }

  /** The dense rendering of a sparse map: as long as the file, each block at its offset, zero everywhere else. */
  lemma {:induction false} RenderMeans(blocks: seq<Block>, end: int)
    requires Ascending(blocks, 0, end)
    ensures |Render(blocks, 0, end)| == end
    ensures forall i :: 0 <= i < |blocks| ==>
              && 0 <= blocks[i].offset && blocks[i].offset + |blocks[i].data| <= end
              && Render(blocks, 0, end)[blocks[i].offset..blocks[i].offset + |blocks[i].data|] == blocks[i].data
    ensures forall j :: 0 <= j < end && Hole(blocks, j) ==> Render(blocks, 0, end)[j] == 0
  {
    hide Render;
    RenderLength(blocks, 0, end);
    AscendingBounds(blocks, 0, end);
    forall j | 0 <= j < end && Hole(blocks, j)
      ensures Render(blocks, 0, end)[j] == 0
    {
      RenderAt(blocks, 0, end, j);
    }
    forall i | 0 <= i < |blocks|
      ensures Render(blocks, 0, end)[blocks[i].offset..blocks[i].offset + |blocks[i].data|] == blocks[i].data
    {
      forall k | 0 <= k < |blocks[i].data|
        ensures Render(blocks, 0, end)[blocks[i].offset + k] == blocks[i].data[k]
      {
        RenderAt(blocks, 0, end, blocks[i].offset + k);
      }
    }
  }

  // ---------------------------------------------------------------- the blocks in a backup stream

  /** A sparse block, at `cur` or later, in front of a stream. */
  ghost function BlockAt(u: seq<byte>, cur: nat): (r: Option<(Header, seq<byte>)>)
    ensures r.Some? ==> |r.value.1| < |u| && cur <= r.value.0.offset && 0 <= r.value.0.size <= |r.value.1|
  {
    match ParseHeader(u)
    case AtEnd => None
    case Truncated => None
    case Parsed(h, rest) =>
      ParseShortens(u);
      if h.id != BACKUP_SPARSE_BLOCK || h.offset < cur || h.size < 0 || h.size > |rest| then None else Some((h, rest))
  }

  datatype SparseMap = SparseMap(blocks: seq<Block>, end: int, rest: seq<byte>)

  /**
   The sparse blocks at the front of a stream, up to the empty one that ends them; the file is
   written front to back.
   */
  ghost function ReadMap(u: seq<byte>, cur: nat): (r: Option<SparseMap>)
    ensures r.Some? ==> Ascending(r.value.blocks, cur, r.value.end)
    decreases |u|
  {
    match BlockAt(u, cur)
    case None => None
    case Some((h, rest)) =>
      if h.size == 0 then Some(SparseMap([], h.offset, rest))
      else
        match ReadMap(rest[h.size..], h.offset as nat + h.size as nat)
        case None => None
        case Some(m) => Some(SparseMap([Block(h.offset, rest[..h.size])] + m.blocks, m.end, m.rest))
  }

  // ---------------------------------------------------------------- the same, over records

  datatype RecordMap = RecordMap(blocks: seq<Block>, end: int, rest: seq<Record>)

  /** The sparse map that a list of records begins with, and the records after it. */
  ghost function MapRecords(rs: seq<Record>, cur: nat): (r: Option<RecordMap>)
    ensures r.Some? ==> Ascending(r.value.blocks, cur, r.value.end) && |r.value.rest| < |rs|
  {
    if rs == [] then None
    else
      var h := rs[0].hdr;
      if h.id != BACKUP_SPARSE_BLOCK || h.offset < cur then None
      else if rs[0].data == [] then Some(RecordMap([], h.offset, rs[1..]))
      else
        match MapRecords(rs[1..], h.offset as nat + |rs[0].data|)
        case None => None
        case Some(m) => Some(RecordMap([Block(h.offset, rs[0].data)] + m.blocks, m.end, m.rest))
  }

  lemma {:induction false} MapAgrees(u: seq<byte>, rs: seq<Record>, cur: nat)
    requires RecordsOf(u) == Some(rs)
    ensures ReadMap(u, cur).Some? <==> MapRecords(rs, cur).Some?
    ensures ReadMap(u, cur).Some? ==>
              var m, v := ReadMap(u, cur).value, MapRecords(rs, cur).value;
              m.blocks == v.blocks && m.end == v.end && RecordsOf(m.rest) == Some(v.rest)
    decreases |rs|
  {
    hide ParseHeader;
    match ParseHeader(u)
    case AtEnd =>
    case Parsed(h, rest) =>
      var tail := RecordsOf(rest[h.size..]).value;
      assert rs[0] == Record(h, rest[..h.size]) && rs[1..] == tail;
      if h.id == BACKUP_SPARSE_BLOCK && h.offset >= cur {
        if h.size > 0 {
          MapAgrees(rest[h.size..], tail, h.offset as nat + h.size as nat);
        } else {
          assert rest[0..] == rest;
        }
      }
  }

  /** What follows a sparse map in a cut stream is cut. */
  lemma {:induction false} MapCut(u: seq<byte>, cur: nat)
    requires IsCut(u) && ReadMap(u, cur).Some?
    ensures IsCut(ReadMap(u, cur).value.rest)
    decreases |u|
  {
    hide ParseHeader;
    var p := ParseHeader(u);
    ParseShortens(u);
    if p.hdr.size > 0 {
      MapCut(p.rest[p.hdr.size..], p.hdr.offset as nat + p.hdr.size as nat);
    } else {
      assert p.rest[0..] == p.rest;
    }
  }

  // ---------------------------------------------------------------- a sparse map as it is written

  /** One record for each block, and an empty one at the end of the file. */
  ghost function SparseRecords(blocks: seq<Block>, end: int): seq<Record>
    requires 0 <= end < TWO_63 && forall i :: 0 <= i < |blocks| ==> blocks[i].offset + |blocks[i].data| <= end
  {
    if blocks == [] then [Record(Header(9, 0, 0, [], end), [])]
    else
      [Record(Header(9, 0, |blocks[0].data|, [], blocks[0].offset), blocks[0].data)] + SparseRecords(blocks[1..], end)
  }

  /** A sparse file's blocks, of which none is empty, are read back with the file's size and whatever follows. */
  lemma {:induction false} SparseReadBack(blocks: seq<Block>, cur: nat, end: int, rest: seq<Record>)
    requires Ascending(blocks, cur, end) && end < TWO_63 && forall i :: 0 <= i < |blocks| ==> blocks[i].data != []
    ensures end >= 0 && forall i :: 0 <= i < |blocks| ==> blocks[i].offset + |blocks[i].data| <= end
    ensures MapRecords(SparseRecords(blocks, end) + rest, cur) == Some(RecordMap(blocks, end, rest))
    decreases |blocks|
  {
    AscendingBounds(blocks, cur, end);
    var rs := SparseRecords(blocks, end) + rest;
    if blocks == [] {
      assert rs[1..] == rest;
    } else {
      var b := blocks[0];
      SparseReadBack(blocks[1..], b.offset + |b.data|, end, rest);
      assert rs[1..] == SparseRecords(blocks[1..], end) + rest;
      assert [Block(b.offset, b.data)] + blocks[1..] == blocks;
    }
  }

  // ---------------------------------------------------------------- copySparse

  /** The body of the current tar entry: the writer takes `room` more bytes. */
  class TarBody {
    var out: seq<byte>
    var room: nat

    constructor (room: nat)
      ensures out == [] && this.room == room
    {
      out, this.room := [], room;
    }

    method Write(b: seq<byte>) returns (e: Error)
      modifies this
      ensures e == Ok <==> |b| <= old(room)
      ensures e == Ok ==> out == old(out) + b && room == old(room) - |b|
    {
      var n := if |b| <= room then |b| else room;
      out := out + b[..n];
      room := room - n;
      e := if n == |b| then Ok else WriteFailed;
    }
  }

  /** io.CopyN(t, zeroReader{}, n) */
  method WriteZeros(t: TarBody, n: nat) returns (e: Error)
    modifies t
    ensures e == Ok <==> n <= old(t.room)
    ensures e == Ok ==> t.out == old(t.out) + ZeroBytes(n) && t.room == old(t.room) - n
  {
    var left := n;
    while left > 0
      invariant 0 <= left <= n && n - left <= old(t.room)
      invariant t.out == old(t.out) + ZeroBytes(n - left) && t.room == old(t.room) - (n - left)
    {
      var k: nat :| 0 < k <= left;
      e := t.Write(ZeroBytes(k));
      if e != Ok {
        return;
      }
      left := left - k;
    }
    return Ok;
  }

  /** io.Copy(t, br): the rest of the current record. */
  method CopyRecord(t: TarBody, br: Reader) returns (n: nat, e: Error)
    modifies t, br
    ensures old(br.bytesLeft) >= 0 ==>
              (e == Ok <==> old(br.bytesLeft) <= |old(br.unread)| && old(br.bytesLeft) <= old(t.room))
    ensures old(br.bytesLeft) < 0 ==> e == Panic
    ensures |br.unread| <= |old(br.unread)|
    ensures e == Ok ==>
              && n == old(br.bytesLeft) && br.bytesLeft == 0
              && br.unread == old(br.unread)[n..]
              && t.out == old(t.out) + old(br.unread)[..n] && t.room == old(t.room) - n
  {
    ghost var was, left := br.unread, br.bytesLeft;
    n := 0;
    while true
      invariant left >= 0 ==> br.bytesLeft == left - n && n <= |was| && n <= old(t.room) && br.bytesLeft >= 0
      invariant left < 0 ==> br.bytesLeft == left
      invariant n <= |was| && br.unread == was[n..] && t.out == old(t.out) + was[..n] && t.room == old(t.room) - n
      decreases br.bytesLeft
    {
      var data, re := br.Read(32768);
      if re == Panic {
        return n, Panic;
      }
      assert was[..n] + data == was[..n + |data|];
      e := t.Write(data);
      if e != Ok {
        return;
      }
      n := n + |data|;
      if re == Eof {
        return n, Ok;
      }
      if re != Ok {
        return n, re;
      }
    }
  }

  /** A sparse block that can be placed at or after `cur`. */
  ghost predicate Placeable(p: Parsed, cur: nat) {
    p.Parsed? && p.hdr.id == BACKUP_SPARSE_BLOCK && p.hdr.offset >= cur && 0 <= p.hdr.size <= |p.rest|
  }

  /** One turn of the loop in copySparse: fill up with zeros, then copy the block. */
  method CopyBlock(t: TarBody, br: Reader, cur: nat) returns (h: Header, e: Error)
    requires br.bytesLeft <= 0
    modifies t, br
    ensures var p := ParseHeader(old(br.unread));
            && (e == Ok <==> Placeable(p, cur) && p.hdr.offset - cur + p.hdr.size <= old(t.room))
            && (e == Ok ==>
                  && h == p.hdr && br.bytesLeft == 0 && br.unread == p.rest[h.size..]
                  && t.room == old(t.room) - (h.offset - cur + h.size)
                  && t.out == old(t.out) + (ZeroBytes(h.offset - cur) + p.rest[..h.size]))
  {
    hide ParseHeader;
    h, e := br.Next();
    if e == Eof {
      e := UnexpectedEof;
    }
    if e != Ok {
      return;
    }
    if h.id != BACKUP_SPARSE_BLOCK {
      return h, UnexpectedStream;
    }
    if h.offset < cur {
      return h, SeekBack;
    }
    e := WriteZeros(t, h.offset - cur);
    if e != Ok || h.size == 0 {
      return;
    }
    var n;
    n, e := CopyRecord(t, br);
  }

  lemma {:induction false} BlockAtIs(u: seq<byte>, cur: nat, h: Header, rest: seq<byte>)
    requires ParseHeader(u) == Parsed(h, rest) && Placeable(ParseHeader(u), cur)
    ensures BlockAt(u, cur) == Some((h, rest)) && |rest| < |u| && cur <= h.offset && 0 <= h.size <= |rest|
  {
    hide ParseHeader;
    ParseShortens(u);
  }

  /** What the first block says of the whole map. */
  lemma {:induction false} MapStep(u: seq<byte>, cur: nat, h: Header, rest: seq<byte>)
    requires ParseHeader(u) == Parsed(h, rest) && Placeable(ParseHeader(u), cur)
    ensures |rest| < |u|
    ensures h.size == 0 ==> ReadMap(u, cur) == Some(SparseMap([], h.offset, rest))
    ensures h.size > 0 ==>
              var next := ReadMap(rest[h.size..], h.offset as nat + h.size as nat);
              ReadMap(u, cur) ==
                if next.None? then None
                else Some(SparseMap([Block(h.offset, rest[..h.size])] + next.value.blocks, next.value.end,
                    next.value.rest))
  {
    hide ParseHeader, Placeable, BlockAt;
    BlockAtIs(u, cur, h, rest);
  }

  lemma {:induction false} MapNone(u: seq<byte>, cur: nat)
    requires !Placeable(ParseHeader(u), cur)
    ensures ReadMap(u, cur) == None
  {
    hide ParseHeader;
  }

  lemma {:induction false} MapEnd(u: seq<byte>, cur: nat)
    requires ReadMap(u, cur).Some?
    ensures Placeable(ParseHeader(u), cur)
    ensures ReadMap(u, cur).value.end >= ParseHeader(u).hdr.offset as int + ParseHeader(u).hdr.size as int
  {
    hide ParseHeader;
    var m := ReadMap(u, cur).value;
    AscendingBounds(m.blocks, cur, m.end);
  }

  /** The rendering, one block further on. */
  lemma {:induction false} RenderStep(b: Block, blocks: seq<Block>, cur: nat, end: int)
    requires cur <= b.offset && Ascending(blocks, b.offset + |b.data|, end)
    ensures Ascending([b] + blocks, cur, end)
    ensures Render([b] + blocks, cur, end) ==
              (ZeroBytes(b.offset - cur) + b.data) + Render(blocks, b.offset + |b.data|, end)
  {
    assert ([b] + blocks)[1..] == blocks;
  }

  /** `out`, with the file from `cur` on still to be rendered from `u`, stands for the rendering of the whole map. */
  ghost predicate Rendering(whole: Option<SparseMap>, start: seq<byte>, out: seq<byte>, u: seq<byte>, cur: nat)
    requires whole.Some? ==> Ascending(whole.value.blocks, 0, whole.value.end)
  {
    var todo := ReadMap(u, cur);
    && (whole.Some? <==> todo.Some?)
    && (whole.Some? ==>
          && whole.value.end == todo.value.end && whole.value.rest == todo.value.rest
          && start + Render(whole.value.blocks, 0, whole.value.end)
             == out + Render(todo.value.blocks, cur, todo.value.end))
  }

  lemma {:induction false} RenderingStep(whole: Option<SparseMap>, start: seq<byte>, out: seq<byte>, u: seq<byte>,
                                         cur: nat, h: Header, rest: seq<byte>)
    requires whole.Some? ==> Ascending(whole.value.blocks, 0, whole.value.end)
    requires ParseHeader(u) == Parsed(h, rest) && Placeable(ParseHeader(u), cur) && h.size > 0
    requires Rendering(whole, start, out, u, cur)
    ensures Rendering(whole, start, out + (ZeroBytes(h.offset - cur) + rest[..h.size]), rest[h.size..],
              h.offset as nat + h.size as nat)
  {
    hide ParseHeader, ReadMap, Render, Placeable;
    MapStep(u, cur, h, rest);
    assert h.offset >= cur && h.size <= |rest| by {
      PlaceableBounds(u, cur, h, rest);
    }
    var next := ReadMap(rest[h.size..], h.offset as nat + h.size as nat);
    if next.Some? {
      RenderStep(Block(h.offset, rest[..h.size]), next.value.blocks, cur, next.value.end);
    }
  }

  lemma PlaceableBounds(u: seq<byte>, cur: nat, h: Header, rest: seq<byte>)
    requires ParseHeader(u) == Parsed(h, rest) && Placeable(ParseHeader(u), cur)
    ensures h.offset >= cur && 0 <= h.size <= |rest|
  {
  }

  /**
   copySparse: succeeds exactly on a well-formed sparse map that fits the tar entry, and has then
   written its dense rendering.
   */
  method CopySparse(t: TarBody, br: Reader) returns (e: Error)
    requires br.bytesLeft <= 0 && t.room < TWO_63
    modifies t, br
    ensures e == Ok <==> ReadMap(old(br.unread), 0).Some? && ReadMap(old(br.unread), 0).value.end <= old(t.room)
    ensures e == Ok ==>
              var m := ReadMap(old(br.unread), 0).value;
              && t.out == old(t.out) + Render(m.blocks, 0, m.end) && t.room == old(t.room) - m.end
              && br.unread == m.rest && br.bytesLeft == 0
  {
    hide ParseHeader, ReadMap, Render, Ascending;
    ghost var whole, room := ReadMap(br.unread, 0), t.room;
    var curOffset: nat := 0;
    while true
      invariant br.bytesLeft <= 0 && t.room == room - curOffset && room < TWO_63
      invariant Rendering(whole, old(t.out), t.out, br.unread, curOffset)
      decreases |br.unread|
    {
      ghost var u, out := br.unread, t.out;
      if !Placeable(ParseHeader(u), curOffset) {
        MapNone(u, curOffset);
      }
      if whole.Some? {
        MapEnd(u, curOffset);
      }
      var h;
      h, e := CopyBlock(t, br, curOffset);
      if e != Ok {
        return;
      }
      MapStep(u, curOffset, h, ParseHeader(u).rest);
      if h.size == 0 {
        EmptyRender(curOffset, h.offset);
        assert ParseHeader(u).rest[..0] == [] && ParseHeader(u).rest[0..] == ParseHeader(u).rest;
        break;
      }
      RenderingStep(whole, old(t.out), out, u, curOffset, h, ParseHeader(u).rest);
      curOffset := h.offset + h.size;
    }
    return Ok;
  }

  lemma EmptyRender(cur: nat, end: int)
    requires cur <= end
    ensures Ascending([], cur, end) && Render([], cur, end) == ZeroBytes(end - cur) + []
  {
  }
}
