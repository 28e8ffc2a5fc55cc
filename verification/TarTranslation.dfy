/** WriteTarFileFromBackupStream of backuptar/tar.go, against BackupTar. */
module TarTranslation {
  import opened Bits
  import opened Wrappers
  import opened BackupStream
  import opened BackupTar
  import EA = ExtendedAttributes
  import Sparse

  // ---------------------------------------------------------------- the tar container

  /** A tar writer: finished entries, and the header and body of the current one. */
  class TarWriter {
    var finished: seq<Entry>
    var current: Option<TarHeader>
    const body: Sparse.TarBody

    constructor ()
      ensures finished == [] && current == None && fresh(body) && body.out == [] && body.room == 0
    {
      finished, current := [], None;
      body := new Sparse.TarBody(0);
    }

    ghost function Entries(): seq<Entry>
      reads this, body
    {
      finished + if current.Some? then [Entry(current.value, body.out)] else []
    }

    /** tar.Writer.WriteHeader: the previous body must be complete. */
    method WriteHeader(h: TarHeader) returns (e: Error)
      modifies this, body
      ensures e == Ok <==> old(body.room) == 0 && h.size >= 0
      ensures e == Ok ==>
                && finished == old(Entries()) && current == Some(h) && body.out == [] && body.room == BodySize(h)
                && Entries() == old(Entries()) + [Entry(h, [])]
    {
      if body.room > 0 {
        return MissingBytes;
      }
      if h.size < 0 {
        return NegativeSize;
      }
      finished := finished + if current.Some? then [Entry(current.value, body.out)] else [];
      current := Some(h);
      body.out := [];
      body.room := BodySize(h);
      return Ok;
    }
  }

  // ---------------------------------------------------------------- reading records
  //
  // Every method below works on any stream. `good` says that the stream consists of the records
  // `rs`, each with its whole payload, and the contracts say what happens then. They also say
  // that a stream cut within a record stays cut, and is not taken for ended by a reader that cannot seek.

  method NextRecord(br: Reader, ghost good: bool, ghost rs: seq<Record>, ghost i: nat) returns (h: Header, e: Error)
    requires good ==> Positioned(br.unread, br.bytesLeft, rs, i)
    modifies br
    ensures e == Ok ==> |br.unread| < |old(br.unread)| && br.bytesLeft == h.size
    ensures !br.seekable && old(CutAt(br.unread, br.bytesLeft)) ==>
              e != Eof && (e == Ok ==> CutAt(br.unread, br.bytesLeft))
    ensures good && i == |rs| ==> e == Eof && br.bytesLeft == 0 && br.unread == []
    ensures good && i < |rs| ==> e == Ok && h == rs[i].hdr && InRecord(br.unread, br.bytesLeft, rs, i)
  {
    hide ParseHeader, RecordsOf, IsCut;
    ghost var u := br.unread;
    if CutAt(br.unread, br.bytesLeft) {
      NextOnCut(br.unread, br.bytesLeft);
    }
    if good {
      NextAt(br.unread, br.bytesLeft, rs, i, br.seekable);
    }
    h, e := br.Next();
    if e == Ok {
      ParseShortens(Skip(u, old(br.bytesLeft), br.seekable).1);
    }
  }

  /** io.ReadAll(br) */
  method ReadAll(br: Reader) returns (data: seq<byte>, e: Error)
    modifies br
    ensures |br.unread| <= |old(br.unread)|
    ensures 0 <= old(br.bytesLeft) <= |old(br.unread)| ==>
              && e == Ok && data == old(br.unread)[..old(br.bytesLeft)]
              && br.bytesLeft == 0 && br.unread == old(br.unread)[old(br.bytesLeft)..]
    ensures old(br.bytesLeft) > |old(br.unread)| ==>
              && e == UnexpectedEof && data == old(br.unread)
              && br.unread == [] && br.bytesLeft == old(br.bytesLeft) - |data|
    ensures old(br.bytesLeft) < 0 ==> e == Panic
  {
    ghost var was, left := br.unread, br.bytesLeft;
    data := [];
    while true
      invariant |data| <= |was| && data == was[..|data|] && br.unread == was[|data|..]
      invariant left >= 0 ==> br.bytesLeft == left - |data| && br.bytesLeft >= 0
      decreases br.bytesLeft
    {
      var n: nat :| n > 0;
      var chunk;
      ghost var k := |data|;
      chunk, e := br.Read(n);
      if e == Panic {
        return data, Panic;
      }
      assert was[..k] + chunk == was[..k + |chunk|];
      data := data + chunk;
      if e == Eof {
        return data, Ok;
      }
      if e != Ok {
        return;
      }
    }
  }

  /** The whole payload of the current record. */
  method ReadPayload(br: Reader, ghost good: bool, ghost rs: seq<Record>, ghost i: nat)
      returns (data: seq<byte>, e: Error)
    requires good ==> InRecord(br.unread, br.bytesLeft, rs, i)
    modifies br
    ensures |br.unread| <= |old(br.unread)|
    ensures old(CutAt(br.unread, br.bytesLeft)) ==> CutAt(br.unread, br.bytesLeft)
    ensures good ==> e == Ok && data == rs[i].data && Positioned(br.unread, br.bytesLeft, rs, i + 1)
  {
    hide RecordsOf, IsCut;
    data, e := ReadAll(br);
    assert br.unread[0..] == br.unread;
  }

  // ---------------------------------------------------------------- the first pass

  lemma HeaderStepsSnoc(h: TarHeader, rs: seq<Record>, i: nat)
    requires i < |rs|
    ensures HeaderSteps(h, rs[..i + 1]) ==
            (match HeaderSteps(h, rs[..i]) case None => None case Some(h1) => HeaderStep(h1, rs[i]))
  {
    assert rs[..i + 1][..i] == rs[..i];
  }

  /** hdr.PAXRecords[hdrEaPrefix+ea.Name] = ... for every attribute. */
  method StoreEas(pax: map<PaxKey, seq<byte>>, eas: seq<EA.Ea>) returns (r: map<PaxKey, seq<byte>>)
    ensures r == PutEas(pax, eas)
  {
    r := pax;
    for i := 0 to |eas|
      invariant r == PutEas(pax, eas[..i])
    {
      assert eas[..i + 1][..i] == eas[..i];
      r := r[Xattr(eas[i].name) := eas[i].value];
    }
    assert eas[..|eas|] == eas;
  }

  /** The switch of the first pass: what one record adds to the header. */
  method AddToHeader(br: Reader, h: TarHeader, bhdr: Header, ghost good: bool, ghost rs: seq<Record>, ghost i: nat)
      returns (h1: TarHeader, e: Error)
    requires bhdr.id != BACKUP_DATA
    requires good ==> InRecord(br.unread, br.bytesLeft, rs, i) && bhdr == rs[i].hdr
    modifies br
    ensures |br.unread| <= |old(br.unread)| && h1.size == h.size
    ensures old(CutAt(br.unread, br.bytesLeft)) ==> CutAt(br.unread, br.bytesLeft)
    ensures good ==> (e == Ok <==> HeaderStep(h, rs[i]).Some?)
    ensures good && e == Ok ==> HeaderStep(h, rs[i]) == Some(h1) && Positioned(br.unread, br.bytesLeft, rs, i + 1)
  {
    hide RecordsOf, EA.Decode, CutAt;
    h1, e := h, Ok;
    if bhdr.id == BACKUP_SECURITY {
      var sd;
      sd, e := ReadPayload(br, good, rs, i);
      h1 := h.(pax := h.pax[RawSecurityDescriptor := sd]);
    } else if bhdr.id == BACKUP_REPARSE_DATA {
      var buffer, _ := ReadPayload(br, good, rs, i);
      h1 := h.(typeflag := Symlink, link := buffer);
    } else if bhdr.id == BACKUP_EA_DATA {
      var eab;
      eab, e := ReadPayload(br, good, rs, i);
      if e != Ok {
        return;
      }
      var eas, ee := EA.DecodeExtendedAttributes(eab);
      if ee != EA.Ok {
        return h, InvalidAttributes;
      }
      var pax := StoreEas(h.pax, eas);
      h1 := h.(pax := pax);
    } else if bhdr.id == BACKUP_ALTERNATE_DATA || Ignored(bhdr.id) {
    } else {
      e := UnexpectedStream;
    }
  }

  /** The records the first pass looks at: all of them, or those up to the data. */
  ghost function Used(rs: seq<Record>, twice: bool): seq<Record> {
    if twice || DataAt(rs) == |rs| then rs else rs[..DataAt(rs) + 1]
  }

  /** The first pass: collects the header, stopping at the data unless the stream will be read again. */
  method CollectHeader(br: Reader, h0: TarHeader, twice: bool, ghost good: bool, ghost rs: seq<Record>)
      returns (h: TarHeader, dataHdr: Option<Header>, e: Error)
    requires good ==> Positioned(br.unread, br.bytesLeft, rs, 0)
    modifies br
    ensures h.size == h0.size && (e == Ok && twice ==> dataHdr == None)
    ensures !br.seekable && old(CutAt(br.unread, br.bytesLeft)) && e == Ok ==>
              dataHdr.Some? && CutAt(br.unread, br.bytesLeft)
    ensures e == Ok && dataHdr.Some? ==> br.bytesLeft == dataHdr.value.size
    ensures good ==> (e == Ok <==> HeaderSteps(h0, Used(rs, twice)).Some?)
    ensures good && e == Ok ==> HeaderSteps(h0, Used(rs, twice)) == Some(h)
    ensures good && e == Ok && (twice || DataAt(rs) == |rs|) ==> dataHdr == None && br.bytesLeft == 0 && br.unread == []
    ensures good && e == Ok && !twice && DataAt(rs) < |rs| ==>
              dataHdr == Some(rs[DataAt(rs)].hdr) && InRecord(br.unread, br.bytesLeft, rs, DataAt(rs))
  {
    hide RecordsOf, HeaderSteps, HeaderStep, DataAt, CutAt;
    h, dataHdr := h0, None;
    ghost var i: nat := 0;
    HeaderStepsNone(h0, rs);
    while true
      invariant dataHdr == None && h.size == h0.size
      invariant !br.seekable && old(CutAt(br.unread, br.bytesLeft)) ==> CutAt(br.unread, br.bytesLeft)
      invariant good ==> Positioned(br.unread, br.bytesLeft, rs, i) && HeaderSteps(h0, rs[..i]) == Some(h)
      invariant good ==> twice || i <= DataAt(rs)
      decreases |br.unread|
    {
      var bhdr;
      bhdr, e := NextRecord(br, good, rs, i);
      if e == Eof {
        assert good ==> rs[..i] == rs;
        DataAtBound(rs);
        break;
      }
      if e != Ok {
        return;
      }
      if good {
        HeaderStepsSnoc(h0, rs, i);
        DataAtIs(rs, i);
      }
      if bhdr.id == BACKUP_DATA {
        if good {
          DataStep(h, rs[i]);
        }
        if !twice {
          return h, Some(bhdr), Ok;
        }
      } else {
        h, e := AddToHeader(br, h, bhdr, good, rs, i);
        if e != Ok {
          if good {
            HeaderFails(h0, rs, i + 1, twice);
          }
          return;
        }
      }
      i := i + 1;
    }
    e := Ok;
  }

  lemma HeaderStepsNone(h: TarHeader, rs: seq<Record>)
    ensures HeaderSteps(h, rs[..0]) == Some(h)
  {
  }

  lemma DataStep(h: TarHeader, r: Record)
    requires r.hdr.id == BACKUP_DATA
    ensures HeaderStep(h, r) == Some(h)
  {
  }

  lemma DataAtBound(rs: seq<Record>)
    ensures DataAt(rs) <= |rs|
  {
  }

  lemma DataAtIs(rs: seq<Record>, i: nat)
    requires i < |rs|
    ensures i <= DataAt(rs) && rs[i].hdr.id == BACKUP_DATA ==> DataAt(rs) == i
    ensures i <= DataAt(rs) && rs[i].hdr.id != BACKUP_DATA ==> i < DataAt(rs)
  {
  }

  /** A failure on the way is a failure of the whole pass. */
  lemma {:induction false} HeaderFails(h0: TarHeader, rs: seq<Record>, i: nat, twice: bool)
    requires i <= |rs| && HeaderSteps(h0, rs[..i]) == None && (twice || i <= DataAt(rs) + 1)
    ensures HeaderSteps(h0, Used(rs, twice)) == None
  {
    HeaderStepsPrefix(h0, rs, i, |Used(rs, twice)|);
    assert rs[..|rs|] == rs;
  }

  lemma {:induction false} HeaderStepsPrefix(h0: TarHeader, rs: seq<Record>, i: nat, n: nat)
    requires i <= n <= |rs| && HeaderSteps(h0, rs[..i]) == None
    ensures HeaderSteps(h0, rs[..n]) == None
  {
    if i < n {
      HeaderStepsPrefix(h0, rs, i, n - 1);
      HeaderStepsSnoc(h0, rs, n - 1);
    }
  }

  // ---------------------------------------------------------------- the second pass

  /** Back to the data stream. */
  method FindData(br: Reader, ghost good: bool, ghost rs: seq<Record>) returns (dataHdr: Option<Header>, e: Error)
    requires good ==> Positioned(br.unread, br.bytesLeft, rs, 0)
    modifies br
    ensures e == Ok && dataHdr.Some? ==> br.bytesLeft == dataHdr.value.size
    ensures good ==> e == Ok
    ensures good && DataAt(rs) == |rs| ==> dataHdr == None && br.bytesLeft == 0 && br.unread == []
    ensures good && DataAt(rs) < |rs| ==>
              dataHdr == Some(rs[DataAt(rs)].hdr) && InRecord(br.unread, br.bytesLeft, rs, DataAt(rs))
  {
    hide RecordsOf, DataAt;
    dataHdr := None;
    ghost var i: nat := 0;
    DataAtBound(rs);
    while true
      invariant good ==> Positioned(br.unread, br.bytesLeft, rs, i) && i <= DataAt(rs)
      decreases |br.unread|
    {
      var bhdr;
      bhdr, e := NextRecord(br, good, rs, i);
      if e == Eof {
        return None, Ok;
      }
      if e != Ok {
        return;
      }
      if good {
        DataAtIs(rs, i);
      }
      if bhdr.id == BACKUP_DATA {
        return Some(bhdr), Ok;
      }
      i := i + 1;
    }
  }

  // ---------------------------------------------------------------- the data

  /** Copies the contents of the file, dense or sparse; `i` is the data record. */
  method CopyContents(t: TarWriter, br: Reader, dataHdr: Header, size: int64, ghost good: bool, ghost rs: seq<Record>,
                      ghost i: nat)
      returns (e: Error, ghost tail: seq<Record>)
    requires good ==> InRecord(br.unread, br.bytesLeft, rs, i) && dataHdr == rs[i].hdr
    requires t.body.out == [] && t.body.room < TWO_63
    requires br.bytesLeft == dataHdr.size
    modifies t.body, br
    ensures old(CutAt(br.unread, br.bytesLeft)) && e == Ok ==> CutAt(br.unread, br.bytesLeft)
    ensures good ==> (e == Ok <==> Contents(rs[i], rs[i + 1..], size, old(t.body.room)).Some?)
    ensures good && e == Ok ==>
              && Contents(rs[i], rs[i + 1..], size, old(t.body.room)) == Some((t.body.out, tail))
              && t.body.room == old(t.body.room) - |t.body.out| && Positioned(br.unread, br.bytesLeft, tail, 0)
  {
    hide RecordsOf, IsSparse, Sparse.Render, Sparse.MapRecords, Sparse.ReadMap, Sparse.Ascending, IsCut;
    tail := if good then rs[i + 1..] else [];
    assert tail[0..] == tail;
    assert forall s: seq<byte> :: [] + s == s;
    e := Ok;
    if Plain(dataHdr) {
      if size != dataHdr.size {
        return SizeMismatch, tail;
      }
      var n;
      n, e := Sparse.CopyRecord(t.body, br);
      assert br.unread[0..] == br.unread;
    } else if size > 0 {
      ghost var u := br.unread;
      assert u[0..] == u;
      if good {
        Sparse.MapAgrees(u, tail, 0);
      }
      if IsCut(u) && Sparse.ReadMap(u, 0).Some? {
        Sparse.MapCut(u, 0);
      }
      e := Sparse.CopySparse(t.body, br);
      assert br.unread[0..] == br.unread;
      if good && e == Ok {
        tail := Sparse.MapRecords(tail, 0).value.rest;
        assert tail[0..] == tail;
        RenderedLength(u);
      }
    }
  }

  lemma RenderedLength(u: seq<byte>)
    requires Sparse.ReadMap(u, 0).Some?
    ensures var m := Sparse.ReadMap(u, 0).value; |Sparse.Render(m.blocks, 0, m.end)| == m.end
  {
    hide Sparse.ReadMap;
    var m := Sparse.ReadMap(u, 0).value;
    Sparse.RenderLength(m.blocks, 0, m.end);
  }

  // ---------------------------------------------------------------- the alternate streams

  /** What the record after `rs[..i]` adds to the entries of the alternate streams. */
  lemma TailEntriesSnoc(name: text, rs: seq<Record>, i: nat)
    requires i < |rs| && TailEntries(name, rs[..i]).Some?
    ensures var es, r := TailEntries(name, rs[..i]).value, rs[i];
            TailEntries(name, rs[..i + 1]) ==
              if r.hdr.id == BACKUP_ALTERNATE_DATA then
                if IsSparse(r.hdr) then None else Some(es + [Entry(StreamHeader(name, r.hdr), r.data)])
              else if r.hdr.id == BACKUP_EA_DATA || Ignored(r.hdr.id) then Some(es)
              else None
  {
    assert rs[..i + 1][..i] == rs[..i];
  }

  lemma {:induction false} TailFails(name: text, rs: seq<Record>, i: nat, n: nat)
    requires i <= n <= |rs| && TailEntries(name, rs[..i]) == None
    ensures TailEntries(name, rs[..n]) == None
  {
    if i < n {
      TailFails(name, rs, i, n - 1);
      assert rs[..n][..n - 1] == rs[..n - 1];
    }
  }

  /** Entries once written stay. */
  lemma {:induction false} TailGrows(name: text, rs: seq<Record>, i: nat, n: nat)
    requires i <= n <= |rs| && TailEntries(name, rs[..n]).Some?
    ensures TailEntries(name, rs[..i]).Some? && TailEntries(name, rs[..i]).value <= TailEntries(name, rs[..n]).value
  {
    if i < n {
      assert rs[..n][..n - 1] == rs[..n - 1];
      TailGrows(name, rs, i, n - 1);
    }
  }

  /** One alternate stream becomes one entry. */
  method WriteStream(t: TarWriter, br: Reader, name: text, bhdr: Header, ghost good: bool, ghost rs: seq<Record>,
                     ghost i: nat)
      returns (e: Error)
    requires br.bytesLeft == bhdr.size
    requires good ==> InRecord(br.unread, br.bytesLeft, rs, i) && bhdr == rs[i].hdr
    modifies t, t.body, br
    ensures |br.unread| <= |old(br.unread)|
    ensures old(CutAt(br.unread, br.bytesLeft)) && e == Ok ==> CutAt(br.unread, br.bytesLeft)
    ensures good ==> (e == Ok <==> old(t.body.room) == 0)
    ensures good && e == Ok ==>
              && t.Entries() == old(t.Entries()) + [Entry(StreamHeader(name, bhdr), rs[i].data)]
              && t.body.room == 0 && Positioned(br.unread, br.bytesLeft, rs, i + 1)
  {
    hide RecordsOf, TrimData, IsCut;
    var h := StreamHeader(name, bhdr);
    e := t.WriteHeader(h);
    if e != Ok {
      return;
    }
    assert [] + br.unread[..|br.unread|] == br.unread;
    var n;
    n, e := Sparse.CopyRecord(t.body, br);
    assert br.unread[0..] == br.unread;
    if good && e == Ok {
      assert t.body.out == rs[i].data;
    }
  }

  /** The last loop: one entry for each alternate stream after the data. */
  method WriteStreams(t: TarWriter, br: Reader, name: text, ghost good: bool, ghost rs: seq<Record>) returns (e: Error)
    requires good ==> Positioned(br.unread, br.bytesLeft, rs, 0)
    modifies t, t.body, br
    ensures good ==>
              (e == Ok <==> TailEntries(name, rs).Some? && (TailEntries(name, rs).value == [] || old(t.body.room) == 0))
    ensures good && e == Ok ==> t.Entries() == old(t.Entries()) + TailEntries(name, rs).value
    ensures !br.seekable && old(CutAt(br.unread, br.bytesLeft)) ==> e != Ok
  {
    hide RecordsOf, TailEntries, IsSparse, TarWriter.Entries, StreamHeader, CutAt;
    ghost var i: nat, es := 0, [];
    NoTail(name, rs);
    assert t.Entries() + [] == t.Entries();
    while true
      invariant good ==> Positioned(br.unread, br.bytesLeft, rs, i) && TailEntries(name, rs[..i]) == Some(es)
      invariant !br.seekable && old(CutAt(br.unread, br.bytesLeft)) ==> CutAt(br.unread, br.bytesLeft)
      invariant good ==> t.Entries() == old(t.Entries()) + es
      invariant good ==> if es == [] then t.body.room == old(t.body.room) else old(t.body.room) == 0 && t.body.room == 0
      decreases |br.unread|
    {
      var bhdr;
      bhdr, e := NextRecord(br, good, rs, i);
      if e == Eof {
        assert good ==> rs[..i] == rs;
        return Ok;
      }
      if e != Ok {
        return;
      }
      if good {
        TailEntriesSnoc(name, rs, i);
        assert rs[..|rs|] == rs;
        if TailEntries(name, rs[..i + 1]).None? {
          TailFails(name, rs, i + 1, |rs|);
        } else if TailEntries(name, rs).Some? {
          TailGrows(name, rs, i + 1, |rs|);
        }
      }
      if bhdr.id == BACKUP_ALTERNATE_DATA {
        if IsSparse(bhdr) {
          return UnexpectedStream;
        }
        e := WriteStream(t, br, name, bhdr, good, rs, i);
        if e != Ok {
          return;
        }
        es := if good then es + [Entry(StreamHeader(name, bhdr), rs[i].data)] else es;
      } else if bhdr.id == BACKUP_EA_DATA || Ignored(bhdr.id) {
      } else {
        return UnexpectedStream;
      }
      i := i + 1;
    }
  }

  lemma NoTail(name: text, rs: seq<Record>)
    ensures TailEntries(name, rs[..0]) == Some([])
  {
  }

  // ---------------------------------------------------------------- the whole translation

  /**
   WriteTarFileFromBackupStream: on a stream of complete records it succeeds exactly when the file
   has a tar form, and has then added that form to the archive. On a stream that is cut within a record
   it fails, unless the reader can seek, and so may skip what is not there.
   */
  method WriteTarFileFromBackupStream(t: TarWriter, input: seq<byte>, seekable: bool, name: text, size: int64,
                                      isDir: bool)
      returns (e: Error)
    modifies t, t.body
    ensures RecordsOf(input).Some? ==>
              (e == Ok <==> old(t.body.room) == 0 && TarOf(RecordsOf(input).value, name, size, isDir, seekable).Some?)
    ensures !seekable && IsCut(input) ==> e != Ok
    ensures RecordsOf(input).Some? && e == Ok ==>
              t.Entries() == old(t.Entries()) + TarOf(RecordsOf(input).value, name, size, isDir, seekable).value
  {
    hide RecordsOf, TailEntries, HeaderSteps, DataAt, Contents, IsCut;
    ghost var good := RecordsOf(input).Some?;
    ghost var rs := if good then RecordsOf(input).value else [];
    assert rs[0..] == rs && input[0..] == input;
    var br := new Reader(input, seekable);
    var h, dataHdr;
    h, dataHdr, e := CollectHeader(br, FirstHeader(name, size, isDir), seekable, good, rs);
    if e != Ok {
      return;
    }
    e := t.WriteHeader(h);
    if e != Ok {
      return;
    }
    if seekable {
      br.unread := input;
      dataHdr, e := FindData(br, good, rs);
      if e != Ok {
        return;
      }
    }
    ghost var tail: seq<Record> := [];
    if dataHdr.Some? {
      e, tail := CopyContents(t, br, dataHdr.value, size, good, rs, if good then DataAt(rs) else 0);
      if e != Ok {
        return;
      }
    } else {
      NothingLeft();
    }
    e := WriteStreams(t, br, name, good, tail);
  }

  lemma NothingLeft()
    ensures Positioned([], 0, [], 0) && forall name :: TailEntries(name, []) == Some([])
  {
  }
}
