/**
 The Win32 backup stream codec of backup.go.

 Stream names are kept as UTF-16 code units: converting them to and from Go strings is an inverse
 pair outside this model. Integers wrap as in the source.
 */
module BackupStream {
  import opened Bits
  import opened Wrappers
  import opened LittleEndian

  const BACKUP_DATA := 1
  const BACKUP_EA_DATA := 2
  const BACKUP_SECURITY := 3
  const BACKUP_ALTERNATE_DATA := 4
  const BACKUP_LINK := 5
  const BACKUP_PROPERTY_DATA := 6
  const BACKUP_OBJECT_ID := 7
  const BACKUP_REPARSE_DATA := 8
  const BACKUP_SPARSE_BLOCK := 9
  const BACKUP_TXFS_DATA := 10

  datatype Header = Header(id: u32, attributes: u32, size: int64, name: seq<u16>, offset: int64)

  datatype Record = Record(hdr: Header, data: seq<byte>)

  // ---------------------------------------------------------------- the format

  function NameBytes(name: seq<u16>): (b: seq<byte>)
    ensures |b| == 2 * |name|
  {
    if name == [] then [] else Le(name[0], 2) + NameBytes(name[1..])
  }

  function NameUnits(b: seq<byte>): (name: seq<u16>)
    requires |b| % 2 == 0
    ensures |name| == |b| / 2
  {
    if b == [] then []
    else
      Pow256Values();
      UnLeBound(b[..2]);
      [UnLe(b[..2])] + NameUnits(b[2..])
  }

  /** windows.UTF16ToString stops at the first NUL. */
  function CutNul(name: seq<u16>): seq<u16> {
    if name == [] || name[0] == 0 then [] else [name[0]] + CutNul(name[1..])
  }

  /** The bytes WriteHeader writes; for a sparse block the size includes the offset that follows. */
  function HeaderBytes(h: Header): seq<byte> {
    var sparse := h.id == BACKUP_SPARSE_BLOCK;
    Le(h.id, 4) + Le(h.attributes, 4) + Le(U64(h.size as int + if sparse then 8 else 0), 8)
    + Le((2 * |h.name|) % 0x1_0000_0000, 4)
    + NameBytes(h.name) + (if sparse then Le(U64(h.offset), 8) else [])
  }

  datatype Parsed = AtEnd | Truncated | Parsed(hdr: Header, rest: seq<byte>)

  /** Reads the sparse offset, if there is one. */
  function ParseOffset(id: u32, attributes: u32, size: int64, name: seq<u16>, b: seq<byte>): Parsed {
    if id != BACKUP_SPARSE_BLOCK then Parsed(Header(id, attributes, size, name, 0), b)
    else if b == [] then AtEnd
    else if |b| < 8 then Truncated
    else Parsed(Header(id, attributes, Int64(size as int - 8), name, Int64(UnLe(b[..8]))), b[8..])
  }

  /** What Next makes of the bytes at a record boundary; a stream cut between two fields looks like its end. */
  function ParseHeader(b: seq<byte>): Parsed {
    if b == [] then AtEnd
    else if |b| < 20 then Truncated
    else
      Pow256Values();
      UnLeBound(b[0..4]);
      UnLeBound(b[4..8]);
      var nameSize := UnLe(b[16..20]) / 2 * 2;
      if |b| == 20 && nameSize > 0 then AtEnd
      else if |b| < 20 + nameSize then Truncated
      else
        ParseOffset(UnLe(b[0..4]), UnLe(b[4..8]), Int64(UnLe(b[8..16])),
                    CutNul(NameUnits(b[20..20 + nameSize])), b[20 + nameSize..])
  }

  /** Headers that the format can carry: offsets only on sparse blocks, names without NUL. */
  predicate WellFormed(h: Header) {
    && h.size >= 0
    && 2 * |h.name| < 0x1_0000_0000
    && (forall i :: 0 <= i < |h.name| ==> h.name[i] != 0)
    && (h.id != BACKUP_SPARSE_BLOCK ==> h.offset == 0)
  }

  lemma {:induction false} NameRoundTrip(name: seq<u16>)
    requires forall i :: 0 <= i < |name| ==> name[i] != 0
    ensures CutNul(NameUnits(NameBytes(name))) == name
  {
    hide Le, UnLe;
    if name != [] {
      var b := NameBytes(name);
      assert b[..2] == Le(name[0], 2) && b[2..] == NameBytes(name[1..]);
      Pow256Values();
      UnLeLe(name[0], 2);
      NameRoundTrip(name[1..]);
      var units := NameUnits(b);
      assert units[0] == name[0] && units[1..] == NameUnits(NameBytes(name[1..]));
    }
  }

  lemma WrapRoundTrip(x: int64, k: int)
    ensures U64(x as int + k) < TWO_64
    ensures Int64(Int64(U64(x as int + k)) as int - k) == x
    ensures k == 0 ==> Int64(U64(x)) == x
  {
  }

  /** A written header is read back, whatever follows it. */
  lemma {:induction false} HeaderRoundTrip(h: Header, tail: seq<byte>)
    requires WellFormed(h)
    ensures ParseHeader(HeaderBytes(h) + tail) == Parsed(h, tail)
  {
    hide Le, UnLe, NameBytes, NameUnits, CutNul, Int64, U64;
    var sparse := h.id == BACKUP_SPARSE_BLOCK;
    var size := U64(h.size as int + if sparse then 8 else 0);
    var b := HeaderBytes(h) + tail;
    var n := 2 * |h.name|;
    Pow256Values();
    WrapRoundTrip(h.size, if sparse then 8 else 0);
    WrapRoundTrip(h.offset, 0);
    assert b[0..4] == Le(h.id, 4);
    assert b[4..8] == Le(h.attributes, 4);
    assert b[8..16] == Le(size, 8);
    assert b[16..20] == Le(n, 4);
    assert b[20..20 + n] == NameBytes(h.name);
    UnLeLe(h.id, 4);
    UnLeLe(h.attributes, 4);
    UnLeLe(size, 8);
    UnLeLe(n, 4);
    NameRoundTrip(h.name);
    var rest := b[20 + n..];
    if sparse {
      assert rest == Le(U64(h.offset), 8) + tail;
      assert rest[..8] == Le(U64(h.offset), 8) && rest[8..] == tail;
      assert U64(h.offset as int + 0) == U64(h.offset);
      UnLeLe(U64(h.offset), 8);
    } else {
      assert rest == tail;
    }
  }

  /** The length of the name that 20 bytes of header announce. */
  function NameSize(u: seq<byte>): nat
    requires |u| >= 20
  {
    UnLe(u[16..20]) / 2 * 2
  }

  /** The stream looks ended exactly when it is, or is cut before a name or before the offset of a sparse block. */
  lemma {:induction false} LooksEnded(u: seq<byte>)
    ensures ParseHeader(u) == AtEnd <==>
              || u == []
              || (|u| == 20 && NameSize(u) > 0)
              || (|u| >= 20 && |u| == 20 + NameSize(u) && UnLe(u[0..4]) == BACKUP_SPARSE_BLOCK)
  {
    hide UnLe, CutNul, NameUnits, Int64;
  }

  /**
   Every header with a name, cut before the name, and every sparse header, cut before its offset,
   looks like the end.
   */
  lemma {:induction false} CutHeaderLooksEnded(h: Header)
    requires WellFormed(h)
    ensures h.name != [] ==> ParseHeader(HeaderBytes(h)[..20]) == AtEnd
    ensures h.id == BACKUP_SPARSE_BLOCK ==> ParseHeader(HeaderBytes(h)[..20 + 2 * |h.name|]) == AtEnd
  {
    hide Le, UnLe, NameBytes, ParseHeader, U64;
    var b := HeaderBytes(h);
    Pow256Values();
    UnLeLe(2 * |h.name|, 4);
    UnLeLe(h.id, 4);
    var short, long := b[..20], b[..20 + 2 * |h.name|];
    assert b[0..4] == Le(h.id, 4);
    assert b[16..20] == Le(2 * |h.name|, 4);
    assert short[16..20] == b[16..20];
    assert long[16..20] == b[16..20];
    assert long[0..4] == b[0..4];
    LooksEnded(short);
    LooksEnded(long);
  }

  // ---------------------------------------------------------------- a stream of records

  predicate Complete(r: Record) {
    WellFormed(r.hdr) && |r.data| == r.hdr.size
  }

  predicate AllComplete(rs: seq<Record>) {
    forall i :: 0 <= i < |rs| ==> Complete(rs[i])
  }

  function Serialize(rs: seq<Record>): seq<byte> {
    if rs == [] then [] else HeaderBytes(rs[0].hdr) + rs[0].data + Serialize(rs[1..])
  }

  lemma {:induction false} SerializeSnoc(rs: seq<Record>, r: Record)
    ensures Serialize(rs + [r]) == Serialize(rs) + (HeaderBytes(r.hdr) + r.data)
  {
    hide HeaderBytes;
    if rs == [] {
      assert rs + [r] == [r] && [r][1..] == [];
      assert Serialize([r]) == HeaderBytes(r.hdr) + r.data + [];
    } else {
      assert (rs + [r])[1..] == rs[1..] + [r];
      SerializeSnoc(rs[1..], r);
    }
  }

  // ---------------------------------------------------------------- the writer

  datatype Error =
    | Ok | Eof | UnexpectedEof | MissingBytes | TooManyBytes | WriteFailed | Panic
    | UnexpectedStream | SeekBack | SizeMismatch | InvalidAttributes | NegativeSize

  /** BackupStreamWriter over a writer that takes `room` more bytes and then fails. */
  class Writer {
    var out: seq<byte>
    var room: nat
    var bytesLeft: int

    constructor (room: nat)
      ensures out == [] && this.room == room && bytesLeft == 0
    {
      out, this.room, bytesLeft := [], room, 0;
    }

    /** The underlying writer. */
    method Emit(b: seq<byte>) returns (n: nat, e: Error)
      modifies this`out, this`room
      ensures n == (if |b| <= old(room) then |b| else old(room)) && room == old(room) - n
      ensures out == old(out) + b[..n]
      ensures e == if n == |b| then Ok else WriteFailed
    {
      n := if |b| <= room then |b| else room;
      out := out + b[..n];
      room := room - n;
      e := if n == |b| then Ok else WriteFailed;
    }

    method WriteHeader(h: Header) returns (e: Error)
      modifies this
      ensures old(bytesLeft) != 0 ==>
                e == MissingBytes && out == old(out) && bytesLeft == old(bytesLeft) && room == old(room)
      ensures old(bytesLeft) == 0 ==> (e == Ok <==> |HeaderBytes(h)| <= old(room))
      ensures e == Ok ==>
                out == old(out) + HeaderBytes(h) && bytesLeft == h.size && room == old(room) - |HeaderBytes(h)|
      ensures old(bytesLeft) == 0 && e != Ok ==> e == WriteFailed && bytesLeft == 0
    {
      hide Le, NameBytes;
      if bytesLeft != 0 {
        return MissingBytes;
      }
      var sparse := h.id == BACKUP_SPARSE_BLOCK;
      var size := U64(h.size as int + if sparse then 8 else 0);
      var fixed := Le(h.id, 4) + Le(h.attributes, 4) + Le(size, 8) + Le((2 * |h.name|) % 0x1_0000_0000, 4);
      var n;
      n, e := Emit(fixed);
      if e != Ok {
        return;
      }
      if |h.name| != 0 {
        n, e := Emit(NameBytes(h.name));
        if e != Ok {
          return;
        }
      }
      if sparse {
        n, e := Emit(Le(U64(h.offset), 8));
        if e != Ok {
          return;
        }
      }
      bytesLeft := h.size;
      assert out == old(out) + HeaderBytes(h);
    }

    method Write(b: seq<byte>) returns (n: nat, e: Error)
      modifies this
      ensures old(bytesLeft) < |b| ==> e == TooManyBytes && n == 0 && out == old(out) && bytesLeft == old(bytesLeft)
      ensures old(bytesLeft) >= |b| ==>
                && n <= |b| && out == old(out) + b[..n] && bytesLeft == old(bytesLeft) - n && room == old(room) - n
                && (e == Ok <==> n == |b|) && (e == Ok <==> |b| <= old(room)) && (e == Ok || e == WriteFailed)
    {
      if bytesLeft < |b| {
        return 0, TooManyBytes;
      }
      n, e := Emit(b);
      bytesLeft := bytesLeft - n;
    }
  }

  /** What a sequence of successful calls amounts to, as values. */
  datatype Written = Written(out: seq<byte>, bytesLeft: int)

  datatype WriteCall = CallHeader(h: Header) | CallWrite(b: seq<byte>)

  /** The call is accepted. */
  predicate Accepted(w: Written, c: WriteCall) {
    match c
    case CallHeader(_) => w.bytesLeft == 0
    case CallWrite(b) => w.bytesLeft >= |b|
  }

  function AfterCall(w: Written, c: WriteCall): Written {
    match c
    case CallHeader(h) => Written(w.out + HeaderBytes(h), h.size)
    case CallWrite(b) => Written(w.out + b, w.bytesLeft - |b|)
  }

  ghost predicate Writes(w: Written, calls: seq<WriteCall>, v: Written)
    decreases |calls|
  {
    if calls == [] then w == v
    else Accepted(w, calls[0]) && Writes(AfterCall(w, calls[0]), calls[1..], v)
  }

  /** The records that calls describe, starting from the records `rs`: chunks of one record are joined. */
  function Records(rs: seq<Record>, calls: seq<WriteCall>): seq<Record>
    decreases |calls|
  {
    if calls == [] then rs
    else
      match calls[0]
      case CallHeader(h) => Records(rs + [Record(h, [])], calls[1..])
      case CallWrite(b) =>
        Records(if rs == [] then rs else rs[|rs| - 1 := Record(rs[|rs| - 1].hdr, rs[|rs| - 1].data + b)], calls[1..])
  }

  /** All records complete but the last, which lacks `left` bytes. */
  ghost predicate Building(rs: seq<Record>, w: Written) {
    && w.out == Serialize(rs)
    && (rs == [] ==> w.bytesLeft == 0)
    && (forall i :: 0 <= i < |rs| - 1 ==> |rs[i].data| == rs[i].hdr.size)
    && (rs != [] ==> w.bytesLeft == rs[|rs| - 1].hdr.size - |rs[|rs| - 1].data|)
  }

  lemma {:induction false} ExtendLast(rs: seq<Record>, b: seq<byte>)
    requires rs != []
    ensures Serialize(rs[|rs| - 1 := Record(rs[|rs| - 1].hdr, rs[|rs| - 1].data + b)]) == Serialize(rs) + b
  {
    hide HeaderBytes, Serialize;
    var n := |rs| - 1;
    var r := rs[n];
    var r' := Record(r.hdr, r.data + b);
    assert rs == rs[..n] + [r] && rs[n := r'] == rs[..n] + [r'];
    SerializeSnoc(rs[..n], r);
    SerializeSnoc(rs[..n], r');
    assert Serialize(rs[..n]) + (HeaderBytes(r.hdr) + (r.data + b)) ==
        Serialize(rs[..n]) + (HeaderBytes(r.hdr) + r.data) + b;
  }

  /** In any chunking the writer has written its records one after the other. */
  lemma {:induction false} WriterSerializes(rs: seq<Record>, w: Written, calls: seq<WriteCall>, v: Written)
    requires Building(rs, w) && Writes(w, calls, v)
    ensures Building(Records(rs, calls), v)
    decreases |calls|
  {
    hide HeaderBytes, Serialize;
    if calls != [] {
      match calls[0]
      case CallHeader(h) =>
        SerializeSnoc(rs, Record(h, []));
        assert HeaderBytes(h) + [] == HeaderBytes(h);
        WriterSerializes(rs + [Record(h, [])], AfterCall(w, calls[0]), calls[1..], v);
      case CallWrite(b) =>
        if rs != [] {
          ExtendLast(rs, b);
          var last := Record(rs[|rs| - 1].hdr, rs[|rs| - 1].data + b);
          WriterSerializes(rs[|rs| - 1 := last], AfterCall(w, calls[0]), calls[1..], v);
        } else {
          assert w.out + b == w.out;
          WriterSerializes(rs, AfterCall(w, calls[0]), calls[1..], v);
        }
    }
  }

  // ---------------------------------------------------------------- the reader

  /** The stream after skipping `left` bytes of payload, or none if a reader that cannot seek runs out. */
  function Skip(unread: seq<byte>, left: int, seekable: bool): (r: (bool, seq<byte>)) {
    if left <= 0 then (true, unread)
    else if left <= |unread| then (true, unread[left..])
    else (seekable, [])
  }

  /** Skipping by seek and by discard agree exactly when the payload is all there. */
  lemma SkippingAgrees(unread: seq<byte>, left: int)
    ensures Skip(unread, left, true) == Skip(unread, left, false) <==> left <= 0 || left <= |unread|
  {
  }

  /** BackupStreamReader over a reader with `unread` bytes to come, which reports end of file only with no bytes. */
  class Reader {
    var unread: seq<byte>
    const seekable: bool
    var bytesLeft: int

    constructor (data: seq<byte>, seekable: bool)
      ensures unread == data && this.seekable == seekable && bytesLeft == 0
    {
      unread, this.seekable, bytesLeft := data, seekable, 0;
    }

    /** Read with a buffer of `n` bytes. */
    method Read(n: nat) returns (data: seq<byte>, e: Error)
      modifies this
      ensures old(bytesLeft) == 0 ==> data == [] && e == Eof && unread == old(unread) && bytesLeft == 0
      ensures old(bytesLeft) < 0 ==> data == [] && e == Panic && unread == old(unread) && bytesLeft == old(bytesLeft)
      ensures old(bytesLeft) > 0 ==>
                && |data| <= n && |data| <= old(bytesLeft)
                && old(unread) == data + unread && bytesLeft == old(bytesLeft) - |data|
                && (data == [] <==> n == 0 || old(unread) == [])
                && e == if n > 0 && old(unread) == [] then UnexpectedEof else if bytesLeft == 0 then Eof else Ok
    {
      data := [];
      if bytesLeft == 0 {
        return [], Eof;
      }
      if bytesLeft < 0 {
        // b[:bytesLeft] with a negative bound.
        return [], Panic;
      }
      var cap := if n > bytesLeft then bytesLeft else n;
      if cap > 0 && unread == [] {
        return [], UnexpectedEof;
      }
      var k: nat :| k <= cap && k <= |unread| && (cap > 0 ==> k > 0);
      data := unread[..k];
      unread := unread[k..];
      bytesLeft := bytesLeft - k;
      e := if bytesLeft == 0 then Eof else Ok;
    }

    /** io.Copy(io.Discard, r). */
    method Discard() returns (e: Error)
      requires bytesLeft >= 0
      modifies this
      ensures e == Ok <==> old(bytesLeft) <= |old(unread)|
      ensures e == Ok ==> unread == old(unread)[old(bytesLeft)..] && bytesLeft == 0
      ensures e == Ok || e == UnexpectedEof
    {
      ghost var was, left := unread, bytesLeft;
      while true
        invariant 0 <= bytesLeft <= left && left - bytesLeft <= |was| && unread == was[left - bytesLeft..]
        decreases bytesLeft
      {
        ghost var before := unread;
        var data;
        data, e := Read(32768);
        if e != Ok {
          break;
        }
      }
      if e == Eof {
        e := Ok;
      }
    }

    /** Next: skips what is left of the record, then reads a header. */
    method Next() returns (h: Header, e: Error)
      modifies this
      ensures var (ok, u) := Skip(old(unread), old(bytesLeft), seekable);
              if !ok then e == UnexpectedEof
              else
                match ParseHeader(u)
                case Parsed(hdr, rest) => e == Ok && h == hdr && unread == rest && bytesLeft == hdr.size
                case AtEnd => e == Eof && unread == [] && bytesLeft == if old(bytesLeft) > 0 then 0 else old(bytesLeft)
                case Truncated => e == UnexpectedEof
    {
      hide Le, UnLe, ParseHeader;
      h := Header(0, 0, 0, [], 0);
      ghost var (ok, u) := Skip(unread, bytesLeft, seekable);
      if bytesLeft > 0 {
        if seekable {
          unread := if bytesLeft <= |unread| then unread[bytesLeft..] else [];
          bytesLeft := 0;
        }
        e := Discard();
        if e != Ok {
          return;
        }
      }
      assert unread == u;
      var p := ParseHeader(unread);
      match p
      case AtEnd =>
        unread := [];
        return h, Eof;
      case Truncated =>
        unread := [];
        return h, UnexpectedEof;
      case Parsed(hdr, rest) =>
        unread := rest;
        bytesLeft := hdr.size;
        return hdr, Ok;
    }
  }

  /** A stream that ends after 20 bytes of its only header, which announces a name: Next reports the regular end. */
  method CutStreamEnds(seekable: bool) returns (whole: seq<byte>, h: Header, e: Error)
    ensures e == Eof && ParseHeader(whole).Parsed?
  {
    hide ParseHeader, HeaderBytes;
    var hdr := Header(BACKUP_ALTERNATE_DATA, 0, 0, [58, 120], 0);
    CutHeaderLooksEnded(hdr);
    HeaderRoundTrip(hdr, []);
    whole := HeaderBytes(hdr);
    assert whole + [] == whole;
    HeaderLong(hdr);
    var br := new Reader(whole[..20], seekable);
    h, e := br.Next();
  }

  lemma HeaderLong(h: Header)
    ensures |HeaderBytes(h)| >= 20
  {
  }

  // ---------------------------------------------------------------- any run of reads

  /** Where a reader is, and the records it has reported so far with the data it returned of each. */
  datatype Progress = Progress(unread: seq<byte>, bytesLeft: int, seen: seq<Record>)

  datatype ReadCall = CallNext | CallRead(n: nat, k: nat)

  /** A read with a buffer of `n` bytes may return `k`. */
  ghost predicate MayReturn(p: Progress, n: nat, k: nat) {
    if p.bytesLeft <= 0 then k == 0
    else k <= n && k <= p.bytesLeft && k <= |p.unread| && (n > 0 && p.unread != [] ==> k > 0)
  }

  function Seen(seen: seq<Record>, data: seq<byte>): seq<Record> {
    if seen == [] then seen else seen[|seen| - 1 := Record(seen[|seen| - 1].hdr, seen[|seen| - 1].data + data)]
  }

  datatype Outcome = Progressed(p: Progress) | Ended | Broken

  function AfterNext(p: Progress, seekable: bool): Outcome {
    var (ok, u) := Skip(p.unread, p.bytesLeft, seekable);
    if !ok then Broken
    else
      match ParseHeader(u)
      case Parsed(h, rest) => Progressed(Progress(rest, h.size, p.seen + [Record(h, [])]))
      case AtEnd => Ended
      case Truncated => Broken
  }

  function AfterRead(p: Progress, k: nat): Progress
    requires k <= |p.unread|
  {
    Progress(p.unread[k..], p.bytesLeft - k, Seen(p.seen, p.unread[..k]))
  }

  /** The payload bytes of the current record still to come. */
  ghost function Remaining(rs: seq<Record>, seen: seq<Record>): seq<byte>
    requires |seen| <= |rs| && forall i :: 0 <= i < |seen| ==> |seen[i].data| <= |rs[i].data|
  {
    if seen == [] then [] else rs[|seen| - 1].data[|seen[|seen| - 1].data|..]
  }

  /**
   The reader has reported the first records, each header exactly and of each payload a prefix, and
   the rest is to come.
   */
  ghost predicate Following(rs: seq<Record>, p: Progress) {
    && AllComplete(rs)
    && |p.seen| <= |rs|
    && (forall i :: 0 <= i < |p.seen| ==> p.seen[i].hdr == rs[i].hdr && p.seen[i].data <= rs[i].data)
    && p.unread == Remaining(rs, p.seen) + Serialize(rs[|p.seen|..])
    && p.bytesLeft == |Remaining(rs, p.seen)|
  }

  lemma FollowingStart(rs: seq<Record>)
    requires AllComplete(rs)
    ensures Following(rs, Progress(Serialize(rs), 0, []))
  {
    assert rs[0..] == rs;
    assert [] + Serialize(rs) == Serialize(rs);
  }

  /** Next reports the next record, or the end exactly when there is none, whichever way it skips. */
  lemma {:induction false} NextFollows(rs: seq<Record>, p: Progress, seekable: bool)
    requires Following(rs, p)
    ensures |p.seen| == |rs| ==> AfterNext(p, seekable) == Ended
    ensures |p.seen| < |rs| ==> AfterNext(p, seekable).Progressed? && Following(rs, AfterNext(p, seekable).p)
    ensures |p.seen| < |rs| ==> AfterNext(p, seekable).p.seen == p.seen + [Record(rs[|p.seen|].hdr, [])]
  {
    hide HeaderBytes, ParseHeader;
    var i := |p.seen|;
    var tail := rs[i..];
    var rem := Remaining(rs, p.seen);
    assert (rem + Serialize(tail))[|rem|..] == Serialize(tail);
    assert Skip(p.unread, p.bytesLeft, seekable) == (true, Serialize(tail));
    if i == |rs| {
      EndOfStream();
    } else {
      var r := rs[i];
      assert tail[0] == r && tail[1..] == rs[i + 1..];
      assert Serialize(tail) == HeaderBytes(r.hdr) + (r.data + Serialize(rs[i + 1..]));
      HeaderRoundTrip(r.hdr, r.data + Serialize(rs[i + 1..]));
      var q := AfterNext(p, seekable).p;
      assert r.data[0..] == r.data;
    }
  }

  lemma EndOfStream()
    ensures ParseHeader([]) == AtEnd
  {
  }

  /** A read returns the next bytes of the current record and of no other. */
  lemma {:induction false} ReadFollows(rs: seq<Record>, p: Progress, n: nat, k: nat)
    requires Following(rs, p) && MayReturn(p, n, k)
    ensures k <= |p.unread| && Following(rs, AfterRead(p, k))
    ensures p.bytesLeft > 0 ==> p.unread != []
  {
    hide HeaderBytes, Serialize;
    var i := |p.seen|;
    if i > 0 {
      var rem := Remaining(rs, p.seen);
      var q := AfterRead(p, k);
      assert p.unread[..k] == rem[..k];
      var last := p.seen[i - 1];
      assert q.seen[i - 1].data == last.data + rem[..k] == rs[i - 1].data[..|last.data| + k];
      assert Remaining(rs, q.seen) == rem[k..];
      assert p.unread[k..] == rem[k..] + Serialize(rs[i..]);
    }
  }

  /** Some run of calls that did not reach the end leads from `p` to `q`. */
  ghost predicate Reads(p: Progress, seekable: bool, calls: seq<ReadCall>, q: Progress)
    decreases |calls|
  {
    if calls == [] then p == q
    else
      match calls[0]
      case CallNext => AfterNext(p, seekable).Progressed? && Reads(AfterNext(p, seekable).p, seekable, calls[1..], q)
      case CallRead(n, k) => MayReturn(p, n, k) && k <= |p.unread| && Reads(AfterRead(p, k), seekable, calls[1..], q)
  }

  lemma {:induction false} ReadsFollow(rs: seq<Record>, p: Progress, seekable: bool, calls: seq<ReadCall>, q: Progress)
    requires Following(rs, p) && Reads(p, seekable, calls, q)
    ensures Following(rs, q)
    decreases |calls|
  {
    hide Following, AfterNext, AfterRead, MayReturn;
    if calls != [] {
      match calls[0]
      case CallNext =>
        NextFollowsOn(rs, p, seekable);
        ReadsFollow(rs, AfterNext(p, seekable).p, seekable, calls[1..], q);
      case CallRead(n, k) =>
        ReadFollows(rs, p, n, k);
        ReadsFollow(rs, AfterRead(p, k), seekable, calls[1..], q);
    }
  }

  lemma {:induction false} NextFollowsOn(rs: seq<Record>, p: Progress, seekable: bool)
    requires Following(rs, p)
    ensures AfterNext(p, seekable).Progressed? ==> Following(rs, AfterNext(p, seekable).p)
  {
    hide AfterNext;
    NextFollows(rs, p, seekable);
  }

  /**
   The codec's law: records written in any chunking are reported by any run of Next and Read, with
   any buffer sizes, short reads and way of skipping: the same headers in order, of each payload
   a prefix, and the end of the stream exactly after the last record.
   */
  lemma {:induction false} WrittenIsRead(calls: seq<WriteCall>, w: Written, seekable: bool, readCalls: seq<ReadCall>,
                                         q: Progress)
    requires Writes(Written([], 0), calls, w) && w.bytesLeft == 0
    requires forall i :: 0 <= i < |Records([], calls)| ==> WellFormed(Records([], calls)[i].hdr)
    requires Reads(Progress(w.out, 0, []), seekable, readCalls, q)
    ensures var rs := Records([], calls);
            && |q.seen| <= |rs|
            && (forall i :: 0 <= i < |q.seen| ==> q.seen[i].hdr == rs[i].hdr && q.seen[i].data <= rs[i].data)
            && (|q.seen| == |rs| <==> AfterNext(q, seekable) == Ended)
            && AfterNext(q, seekable) != Broken
            && (q.seen != [] && q.bytesLeft == 0 ==> q.seen[|q.seen| - 1].data == rs[|q.seen| - 1].data)
  {
    hide AfterNext, Serialize, HeaderBytes;
    var rs := Records([], calls);
    assert Building([], Written([], 0)) by {
      SerializeNothing();
    }
    WriterSerializes([], Written([], 0), calls, w);
    FollowingStart(rs);
    ReadsFollow(rs, Progress(w.out, 0, []), seekable, readCalls, q);
    NextFollows(rs, q, seekable);
  }

  lemma SerializeNothing()
    ensures Serialize([]) == []
  {
  }

  // ---------------------------------------------------------------- the records of any stream

  /** The records of a stream read to its end, if every payload is complete. */
  function RecordsOf(u: seq<byte>): (rs: Option<seq<Record>>)
    ensures rs.Some? ==> forall i :: 0 <= i < |rs.value| ==> |rs.value[i].data| == rs.value[i].hdr.size
    decreases |u|
  {
    match ParseHeader(u)
    case AtEnd => Some([])
    case Truncated => None
    case Parsed(h, rest) =>
      if h.size < 0 || h.size > |rest| then None
      else
        ParseShortens(u);
        match RecordsOf(rest[h.size..])
        case None => None
        case Some(rs) => Some([Record(h, rest[..h.size])] + rs)
  }

  lemma ParseShortens(u: seq<byte>)
    requires ParseHeader(u).Parsed?
    ensures |ParseHeader(u).rest| < |u|
  {
  }

  /** The stream is cut within a header or a payload, with no negative size before. */
  ghost predicate IsCut(u: seq<byte>)
    decreases |u|
  {
    match ParseHeader(u)
    case AtEnd => false
    case Truncated => true
    case Parsed(h, rest) =>
      h.size >= 0
      && (h.size > |rest| || (
            ParseShortens(u);
            IsCut(rest[h.size..])))
  }

  /** The same of a reader with `left` bytes of the current payload to come. */
  ghost predicate CutAt(unread: seq<byte>, left: int) {
    left >= 0 && (left > |unread| || IsCut(unread[left..]))
  }

  lemma {:induction false} CutIsNoRecords(u: seq<byte>)
    requires IsCut(u)
    ensures RecordsOf(u) == None
    decreases |u|
  {
    hide ParseHeader;
    var p := ParseHeader(u);
    if p.Parsed? && p.hdr.size <= |p.rest| {
      ParseShortens(u);
      CutIsNoRecords(p.rest[p.hdr.size..]);
    }
  }

  /** Next on a cut stream, by a reader that cannot seek: never the regular end, and what remains is cut. */
  lemma {:induction false} NextOnCut(unread: seq<byte>, left: int)
    requires CutAt(unread, left)
    ensures var (ok, u) := Skip(unread, left, false);
            var p := ParseHeader(u);
            ok ==> p != AtEnd && (p.Parsed? ==> CutAt(p.rest, p.hdr.size))
  {
    hide ParseHeader;
    if left == 0 {
      assert unread[0..] == unread;
    }
  }

  /** Serialized records are read back. */
  lemma {:induction false} RecordsOfSerialize(rs: seq<Record>)
    requires AllComplete(rs)
    ensures RecordsOf(Serialize(rs)) == Some(rs)
  {
    hide HeaderBytes, ParseHeader;
    if rs == [] {
      EndOfStream();
    } else {
      var rest := rs[0].data + Serialize(rs[1..]);
      assert Serialize(rs) == HeaderBytes(rs[0].hdr) + rest;
      HeaderRoundTrip(rs[0].hdr, rest);
      assert rest[|rs[0].data|..] == Serialize(rs[1..]) && rest[..|rs[0].data|] == rs[0].data;
      RecordsOfSerialize(rs[1..]);
      assert rs == [rs[0]] + rs[1..];
    }
  }

  /** After `left` more bytes the records from `i` on follow. */
  ghost predicate Positioned(unread: seq<byte>, left: int, rs: seq<Record>, i: nat) {
    i <= |rs| && 0 <= left <= |unread| && RecordsOf(unread[left..]) == Some(rs[i..])
  }

  /** The header of record `i` has been read, and its payload comes next. */
  ghost predicate InRecord(unread: seq<byte>, left: int, rs: seq<Record>, i: nat) {
    i < |rs| && left == |rs[i].data| && Positioned(unread, left, rs, i + 1) && unread[..left] == rs[i].data
  }

  /** Next at such a position. */
  lemma {:induction false} NextAt(unread: seq<byte>, left: int, rs: seq<Record>, i: nat, seekable: bool)
    requires Positioned(unread, left, rs, i)
    ensures Skip(unread, left, seekable) == (true, unread[left..])
    ensures i == |rs| ==> ParseHeader(unread[left..]) == AtEnd
    ensures i < |rs| ==>
              var p := ParseHeader(unread[left..]);
              p.Parsed? && p.hdr == rs[i].hdr && InRecord(p.rest, p.hdr.size, rs, i)
  {
    hide ParseHeader;
    var p := ParseHeader(unread[left..]);
    if p.Parsed? {
      var tail := RecordsOf(p.rest[p.hdr.size..]).value;
      assert rs[i..] == [Record(p.hdr, p.rest[..p.hdr.size])] + tail;
      assert rs[i..][1..] == rs[i + 1..] && rs[i..][0] == rs[i];
    }
  }

  // ---------------------------------------------------------------- the bytes

  /** Where the fields of a header are; the size of a sparse block counts the offset. */
  lemma {:induction false} FieldsAt(h: Header)
    requires WellFormed(h) && h.size < TWO_63 - 8
    ensures var b, n := HeaderBytes(h), 2 * |h.name|;
            && |b| == 20 + n + (if h.id == BACKUP_SPARSE_BLOCK then 8 else 0)
            && b[0..4] == Le(h.id, 4) && b[4..8] == Le(h.attributes, 4)
            && b[8..16] == Le(h.size as int + (if h.id == BACKUP_SPARSE_BLOCK then 8 else 0), 8)
            && b[16..20] == Le(n, 4) && b[20..20 + n] == NameBytes(h.name)
            && (h.id == BACKUP_SPARSE_BLOCK && h.offset >= 0 ==> b[20 + n..] == Le(h.offset, 8))
  {
    hide Le, NameBytes;
  }

  lemma {:induction false} NameAt(name: seq<u16>, i: nat)
    requires i < |name|
    ensures NameBytes(name)[2 * i] == name[i] % 256 && NameBytes(name)[2 * i + 1] == name[i] / 256
  {
    hide Le;
    if i == 0 {
      LeAt(name[0], 2, 0);
      LeAt(name[0], 2, 1);
      assert Pow256(0) == 1 && Pow256(1) == 256;
    } else {
      NameAt(name[1..], i - 1);
    }
  }

  /** The stream numbers, and the attribute of sparse streams, are those of the Windows interface. */
  lemma StreamNumbers()
    ensures BACKUP_DATA == 1 && BACKUP_EA_DATA == 2 && BACKUP_SECURITY == 3 && BACKUP_ALTERNATE_DATA == 4
    ensures BACKUP_LINK == 5 && BACKUP_PROPERTY_DATA == 6 && BACKUP_OBJECT_ID == 7 && BACKUP_REPARSE_DATA == 8
    ensures BACKUP_SPARSE_BLOCK == 9 && BACKUP_TXFS_DATA == 10
  {
  }

  /** An alternate stream `:x` of five bytes. */
  lemma {:induction false} OneHeader()
    ensures HeaderBytes(Header(4, 0, 5, [58, 120], 0)) ==
              [4, 0, 0, 0, 0, 0, 0, 0, 5, 0, 0, 0, 0, 0, 0, 0, 4, 0, 0, 0, 58, 0, 120, 0]
  {
    hide Le, NameBytes, U64;
    SmallNumbers();
  }

  lemma SmallNumbers()
    ensures Le(4, 4) == [4, 0, 0, 0] && Le(0, 4) == [0, 0, 0, 0] && Le(U64(5), 8) == [5, 0, 0, 0, 0, 0, 0, 0]
    ensures NameBytes([58, 120]) == [58, 0, 120, 0]
  {
    FourBytes(4);
    FourBytes(0);
    assert Le(5, 8) == [5] + Le(0, 7);
    assert Le(0, 7) == [0, 0, 0] + Le(0, 4);
    NameAt([58, 120], 0);
    NameAt([58, 120], 1);
  }
}
