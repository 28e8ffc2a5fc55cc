/** WriteBackupStreamFromTarFile of backuptar/tar.go, against BackupTar. */
module BackupFromTar {
  import opened Bits
  import opened Wrappers
  import opened BackupStream
  import opened BackupTar
  import EA = ExtendedAttributes

  // ---------------------------------------------------------------- the tar container

  /** A tar reader: the rest of the current body, how much of it the archive lacks, and the entries after it. */
  class TarReader {
    var unread: seq<byte>
    var missing: nat
    var entries: seq<Entry>

    constructor (entries: seq<Entry>)
      ensures unread == [] && missing == 0 && this.entries == entries
    {
      unread, missing, this.entries := [], 0, entries;
    }

    /** tar.Reader.Next skips what is left of the current body, which fails if the archive is cut there. */
    method Next() returns (h: Option<TarHeader>, e: Error)
      requires AllWithin(entries)
      modifies this
      ensures AllWithin(entries)
      ensures old(missing) > 0 ==> h == None && e == UnexpectedEof
      ensures old(missing) == 0 && old(entries) == [] ==> h == None && e == Eof && entries == []
      ensures old(missing) == 0 && old(entries) != [] ==>
                var first := old(entries)[0];
                && h == Some(first.hdr) && e == Ok && unread == first.body && entries == old(entries)[1..]
                && |unread| + missing == BodySize(first.hdr)
    {
      if missing > 0 {
        return None, UnexpectedEof;
      }
      if entries == [] {
        unread := [];
        return None, Eof;
      }
      var first := entries[0];
      h, unread, entries := Some(first.hdr), first.body, entries[1..];
      missing := BodySize(first.hdr) - |unread|;
      e := Ok;
    }

    /** Some bytes of the body, and none only where the archive has no more of it. */
    method Read(n: nat) returns (data: seq<byte>, e: Error)
      requires n > 0
      modifies this`unread
      ensures data + unread == old(unread) && |data| <= n && (data == [] <==> old(unread) == [])
      ensures e == if old(unread) != [] then Ok else if missing > 0 then UnexpectedEof else Eof
    {
      var k: nat :| k <= n && k <= |unread| && (k == 0 <==> unread == []);
      data, unread := unread[..k], unread[k..];
      e := if data != [] then Ok else if missing > 0 then UnexpectedEof else Eof;
    }
  }

  /** A body is no longer than its header says; a shorter one is all that is left of the archive. */
  ghost predicate Within(h: TarHeader, body: seq<byte>) {
    |body| <= BodySize(h) < TWO_63
  }

  ghost predicate AllWithin(es: seq<Entry>) {
    forall i :: 0 <= i < |es| ==> Within(es[i].hdr, es[i].body)
  }

  ghost predicate Whole(h: TarHeader, body: seq<byte>) {
    |body| == BodySize(h)
  }

  ghost predicate AllWhole(es: seq<Entry>) {
    forall i :: 0 <= i < |es| ==> Whole(es[i].hdr, es[i].body)
  }

  // ---------------------------------------------------------------- attributes of a header

  /** ExtendedAttributesFromTarHeader, up to the encoding: goes over the pax records in any order. */
  method ListEas(pax: map<PaxKey, seq<byte>>) returns (eas: seq<EA.Ea>)
    ensures Lists(eas, pax)
  {
    eas := [];
    var todo := pax.Keys;
    while todo != {}
      invariant todo <= pax.Keys
      invariant forall i :: 0 <= i < |eas| ==>
                  Xattr(eas[i].name) in pax && Xattr(eas[i].name) !in todo && eas[i].value == pax[Xattr(eas[i].name)]
      invariant forall i, j :: 0 <= i < j < |eas| ==> eas[i].name != eas[j].name
      invariant forall k :: k in pax && k !in todo && k.Xattr? ==> exists i :: 0 <= i < |eas| && eas[i].name == k.name
    {
      var k :| k in todo;
      todo := todo - {k};
      if k.Xattr? {
        ghost var was := eas;
        eas := eas + [EA.Ea(k.name, pax[k], 0)];
        Listed(was, eas, pax, todo, k);
      }
    }
  }

  lemma Listed(was: seq<EA.Ea>, eas: seq<EA.Ea>, pax: map<PaxKey, seq<byte>>, todo: set<PaxKey>, done: PaxKey)
    requires done.Xattr? && done in pax && eas == was + [EA.Ea(done.name, pax[done], 0)]
    requires forall k :: k in pax && k !in todo && k != done && k.Xattr? ==>
              exists i :: 0 <= i < |was| && was[i].name == k.name
    ensures forall k :: k in pax && k !in todo && k.Xattr? ==> exists i :: 0 <= i < |eas| && eas[i].name == k.name
  {
    forall k | k in pax && k !in todo && k.Xattr?
      ensures exists i :: 0 <= i < |eas| && eas[i].name == k.name
    {
      if k == done {
        assert eas[|was|].name == k.name;
      } else {
        var i :| 0 <= i < |was| && was[i].name == k.name;
        assert eas[i].name == k.name;
      }
    }
  }

  // ---------------------------------------------------------------- writing records

  /** The records `rs` have been written after `out0`, into `room0` bytes of room. */
  ghost predicate Has(w: Writer, out0: seq<byte>, room0: nat, rs: seq<Record>)
    reads w
  {
    w.bytesLeft == 0 && w.out == out0 + Serialize(rs) && w.room + |Serialize(rs)| == room0
  }

  lemma {:induction false} SerializeSplit(a: seq<Record>, b: seq<Record>)
    ensures Serialize(a + b) == Serialize(a) + Serialize(b)
  {
    hide HeaderBytes;
    if a == [] {
      assert a + b == b;
    } else {
      assert (a + b)[0] == a[0] && (a + b)[1..] == a[1..] + b;
      SerializeSplit(a[1..], b);
    }
  }

  /** Records that do not fit do not fit with more after them. */
  lemma {:induction false} Longer(a: seq<Record>, b: seq<Record>)
    ensures |Serialize(a)| <= |Serialize(a + b)|
  {
    SerializeSplit(a, b);
  }

  /** bw.WriteHeader for a stream of `size` bytes. */
  method PutHeader(w: Writer, h: Header, ghost out0: seq<byte>, ghost room0: nat, ghost rs: seq<Record>)
      returns (e: Error)
    requires Has(w, out0, room0, rs)
    modifies w
    ensures e == Ok <==> |Serialize(rs)| + |HeaderBytes(h)| <= room0
    ensures e == Ok ==>
              && w.bytesLeft == h.size && w.out == out0 + Serialize(rs) + HeaderBytes(h)
              && w.room == room0 - |Serialize(rs)| - |HeaderBytes(h)|
    ensures e != Eof
  {
    hide HeaderBytes, Serialize;
    e := w.WriteHeader(h);
  }

  /** A record with its payload in one piece. */
  method PutRecord(w: Writer, id: u32, data: seq<byte>, ghost out0: seq<byte>, ghost room0: nat, ghost rs: seq<Record>)
      returns (e: Error)
    requires |data| < TWO_63 && Has(w, out0, room0, rs)
    modifies w
    ensures e == Ok <==> |Serialize(rs + [MakeRecord(id, [], data)])| <= room0
    ensures e == Ok ==> Has(w, out0, room0, rs + [MakeRecord(id, [], data)])
    ensures e != Eof
  {
    hide HeaderBytes, Serialize;
    ghost var r := MakeRecord(id, [], data);
    SerializeSnoc(rs, r);
    e := PutHeader(w, Header(id, 0, |data|, [], 0), out0, room0, rs);
    if e != Ok {
      return;
    }
    var n;
    n, e := w.Write(data);
    if e == Ok {
      assert out0 + Serialize(rs) + HeaderBytes(r.hdr) + data == out0 + (Serialize(rs) + (HeaderBytes(r.hdr) + data));
    }
  }

  /** io.Copy(bw, t) */
  method CopyBody(w: Writer, t: TarReader) returns (e: Error)
    requires w.bytesLeft == |t.unread| + t.missing
    modifies w, t`unread
    ensures e == Ok <==> t.missing == 0 && |old(t.unread)| <= old(w.room)
    ensures e == Ok ==>
              w.out == old(w.out) + old(t.unread) && w.bytesLeft == 0 && w.room == old(w.room) - |old(t.unread)|
    ensures e != Eof
  {
    ghost var done: seq<byte> := [];
    while true
      invariant done + t.unread == old(t.unread) && w.out == old(w.out) + done && w.bytesLeft == |t.unread| + t.missing
      invariant w.room == old(w.room) - |done|
      decreases |t.unread|
    {
      var data, re := t.Read(32768);
      if re == Eof {
        return Ok;
      }
      if re != Ok {
        return re;
      }
      var n;
      ghost var rest := t.unread;
      n, e := w.Write(data);
      if e != Ok {
        return;
      }
      assert (done + data) + rest == done + (data + rest);
      done := done + data;
    }
  }

  /** A record whose payload is the body of the current entry. */
  method PutBody(w: Writer, t: TarReader, id: u32, name: text, size: int64, ghost out0: seq<byte>, ghost room0: nat,
                 ghost rs: seq<Record>)
      returns (e: Error)
    requires size == |t.unread| + t.missing && Has(w, out0, room0, rs)
    modifies w, t`unread
    ensures e == Ok <==> t.missing == 0 && |Serialize(rs + [MakeRecord(id, name, old(t.unread))])| <= room0
    ensures e == Ok ==> Has(w, out0, room0, rs + [MakeRecord(id, name, old(t.unread))])
    ensures e != Eof
  {
    hide HeaderBytes, Serialize;
    ghost var r := MakeRecord(id, name, t.unread);
    SerializeSnoc(rs, r);
    e := PutHeader(w, Header(id, 0, size, name, 0), out0, room0, rs);
    if e != Ok {
      return;
    }
    e := CopyBody(w, t);
    if e == Ok {
      assert out0 + Serialize(rs) + HeaderBytes(r.hdr) + r.data ==
          out0 + (Serialize(rs) + (HeaderBytes(r.hdr) + r.data));
    }
  }

  // ---------------------------------------------------------------- the records before the data

  /** Nothing in the header is longer than a 64-bit size can say. */
  ghost predicate InMemory(h: TarHeader) {
    && |h.link| < TWO_63
    && (RawSecurityDescriptor in h.pax ==> |h.pax[RawSecurityDescriptor]| < TWO_63)
    && (forall eas :: Lists(eas, h.pax) && EA.AllFit(eas) ==> |EA.Encode(eas)| < TWO_63)
  }

  lemma EncodedIsNotEmpty(eas: seq<EA.Ea>)
    requires EA.AllFit(eas)
    ensures EA.Encode(eas) == [] <==> eas == []
  {
    if eas != [] {
      assert |EA.EncodeWith(eas, EA.Padding(eas[|eas| - 1]))| >= |EA.Body(eas[0], 0)|;
    }
  }

  /** The descriptor, the attributes and the reparse point, as far as the header has them. */
  method WriteFront(w: Writer, hdr: TarHeader, ghost out0: seq<byte>, ghost room0: nat)
      returns (e: Error, ghost eas: seq<EA.Ea>)
    requires InMemory(hdr) && Has(w, out0, room0, [])
    modifies w
    ensures Lists(eas, hdr.pax)
    ensures e == Ok <==> EA.AllFit(eas) && |Serialize(FrontRecords(hdr, eas))| <= room0
    ensures e == Ok ==> Has(w, out0, room0, FrontRecords(hdr, eas))
    ensures e != Eof
  {
    hide Serialize, EA.Encode, EA.AllFit, Lists, EA.Decode;
    var listed := ListEas(hdr.pax);
    eas := listed;
    ghost var sds := SdRecords(hdr);
    var sd := if RawSecurityDescriptor in hdr.pax then hdr.pax[RawSecurityDescriptor] else [];
    assert forall rs: seq<Record> :: rs + [] == rs;
    if EA.AllFit(eas) {
      Longer(sds, EaRecords(eas) + LinkRecords(hdr));
      Longer(sds + EaRecords(eas), LinkRecords(hdr));
      assert sds + EaRecords(eas) + LinkRecords(hdr) == sds + (EaRecords(eas) + LinkRecords(hdr));
      EncodedIsNotEmpty(eas);
    }
    if |sd| != 0 {
      e := PutRecord(w, BACKUP_SECURITY, sd, out0, room0, []);
      assert [] + sds == sds;
      if e != Ok {
        return;
      }
    }
    var eadata, ee := EA.EncodeExtendedAttributes(listed);
    if ee != EA.Ok {
      return InvalidAttributes, eas;
    }
    if |eadata| != 0 {
      e := PutRecord(w, BACKUP_EA_DATA, eadata, out0, room0, sds);
      if e != Ok {
        return;
      }
    }
    if hdr.typeflag == Symlink {
      e := PutRecord(w, BACKUP_REPARSE_DATA, hdr.link, out0, room0, sds + EaRecords(eas));
    } else {
      e := Ok;
      HasFits(w, out0, room0, sds + EaRecords(eas));
    }
  }

  // ---------------------------------------------------------------- data and alternate streams

  /** How many entries at the front are alternate streams of `name`. */
  function StreamCount(es: seq<Entry>, name: text): (k: nat)
    ensures k <= |es|
    ensures forall i :: 0 <= i < k ==> IsStream(es[i], name)
    ensures k < |es| ==> !IsStream(es[k], name)
  {
    if es == [] || !IsStream(es[0], name) then 0 else 1 + StreamCount(es[1..], name)
  }

  /** The last loop: one record for each alternate stream, up to the first entry that is none. */
  method PutStreams(w: Writer, t: TarReader, name: text, ghost out0: seq<byte>, ghost room0: nat, ghost rs: seq<Record>)
      returns (next: Option<TarHeader>, e: Error)
    requires AllWithin(t.entries) && t.missing == 0 && Has(w, out0, room0, rs)
    modifies w, t
    ensures var es := old(t.entries);
            var k := StreamCount(es, name);
            && (e == Ok || e == Eof <==> AllWhole(es[..k]) && |Serialize(rs + StreamRecords(es[..k], name))| <= room0)
            && (e == Ok || e == Eof ==> Has(w, out0, room0, rs + StreamRecords(es[..k], name)))
            && (e == Eof ==> k == |es| && next == None)
            && (e == Ok ==> k < |es| && next == Some(es[k].hdr) && t.unread == es[k].body && t.entries == es[k + 1..])
  {
    hide Serialize, StreamCount, StreamRecords, IsStream, Has;
    ghost var es := t.entries;
    ghost var k := CountBounds(es, name);
    ghost var i: nat := 0;
    NoStreams(es, name);
    assert rs + [] == rs;
    while true
      invariant i <= k && t.entries == es[i..] && Has(w, out0, room0, rs + StreamRecords(es[..i], name))
      invariant t.missing == 0 && AllWhole(es[..i])
      decreases |t.entries|
    {
      var ahdr;
      ahdr, e := t.Next();
      if e != Ok {
        HasFits(w, out0, room0, rs + StreamRecords(es[..i], name));
        return None, Eof;
      }
      assert ahdr.value == es[i].hdr && t.unread == es[i].body && t.entries == es[i + 1..];
      if ahdr.value.typeflag != Regular || !HasPrefix(ahdr.value.name, name + COLON) {
        StreamOrNot(es[i], name);
        HasFits(w, out0, room0, rs + StreamRecords(es[..i], name));
        return ahdr, Ok;
      }
      StreamOrNot(es[i], name);
      StreamsGrow(es, name, i, k, rs);
      e := PutBody(w, t, BACKUP_ALTERNATE_DATA, ahdr.value.name[|name|..] + DATA_SUFFIX, ahdr.value.size, out0, room0,
                   rs + StreamRecords(es[..i], name));
      assert es[..k][i] == es[i];
      if e != Ok {
        return None, e;
      }
      assert es[..i + 1] == es[..i] + [es[i]];
      i := i + 1;
    }
  }

  lemma HasFits(w: Writer, out0: seq<byte>, room0: nat, rs: seq<Record>)
    requires Has(w, out0, room0, rs)
    ensures |Serialize(rs)| <= room0
  {
  }

  lemma CountBounds(es: seq<Entry>, name: text) returns (k: nat)
    ensures k == StreamCount(es, name) && k <= |es| && (forall i :: 0 <= i < k ==> IsStream(es[i], name))
    ensures k < |es| ==> !IsStream(es[k], name)
  {
    k := StreamCount(es, name);
  }

  lemma NoStreams(es: seq<Entry>, name: text)
    ensures es[0..] == es && StreamRecords(es[..0], name) == []
  {
  }

  lemma StreamOrNot(e: Entry, name: text)
    ensures IsStream(e, name) <==> e.hdr.typeflag == Regular && HasPrefix(e.hdr.name, name + COLON)
    ensures IsStream(e, name) && Within(e.hdr, e.body) ==>
              |name| <= |e.hdr.name| && e.hdr.size == BodySize(e.hdr)
              && StreamRecord(e, name) == MakeRecord(BACKUP_ALTERNATE_DATA, e.hdr.name[|name|..] + DATA_SUFFIX, e.body)
  {
  }

  /** The records of one more stream, which are no more than those of all streams. */
  lemma {:induction false} StreamsGrow(es: seq<Entry>, name: text, i: nat, k: nat, rs: seq<Record>)
    requires i < k <= |es| && AllWithin(es) && forall j :: 0 <= j < k ==> IsStream(es[j], name)
    ensures rs + StreamRecords(es[..i], name) + [StreamRecord(es[i], name)] == rs + StreamRecords(es[..i + 1], name)
    ensures |Serialize(rs + StreamRecords(es[..i + 1], name))| <= |Serialize(rs + StreamRecords(es[..k], name))|
    decreases k
  {
    hide Serialize;
    assert es[..i + 1][..i] == es[..i];
    if i + 1 < k {
      StreamsGrow(es, name, i, k - 1, rs);
      assert es[..k][..k - 1] == es[..k - 1];
      Longer(rs + StreamRecords(es[..k - 1], name), [StreamRecord(es[k - 1], name)]);
      assert rs + StreamRecords(es[..k - 1], name) + [StreamRecord(es[k - 1], name)] ==
          rs + StreamRecords(es[..k], name);
    }
  }

  // ---------------------------------------------------------------- the whole translation

  /** The entries of the file that the reader is at: the current one and its alternate streams. */
  ghost function FileEntries(hdr: TarHeader, body: seq<byte>, es: seq<Entry>): seq<Entry> {
    [Entry(hdr, body)] + es[..StreamCount(es, hdr.name)]
  }

  /** The file's entries can be turned into records. */
  lemma FileEntriesFit(hdr: TarHeader, body: seq<byte>, es: seq<Entry>)
    requires Within(hdr, body) && AllWithin(es)
    ensures var fs := FileEntries(hdr, body, es);
            && fs[0] == Entry(hdr, body) && fs[1..] == es[..StreamCount(es, hdr.name)]
            && forall i :: 1 <= i < |fs| ==> IsStream(fs[i], hdr.name) && |fs[i].body| < TWO_63
  {
    hide IsStream;
    var k := CountBounds(es, hdr.name);
    assert forall i :: 1 <= i < k + 1 ==> FileEntries(hdr, body, es)[i] == es[i - 1];
  }

  /** The stream written for a file. */
  ghost function Translated(hdr: TarHeader, body: seq<byte>, es: seq<Entry>, eas: seq<EA.Ea>): seq<byte>
    requires Within(hdr, body) && AllWithin(es) && InMemory(hdr) && Lists(eas, hdr.pax) && EA.AllFit(eas)
  {
    FileEntriesFit(hdr, body, es);
    Serialize(BackRecords(FileEntries(hdr, body, es), eas))
  }

  /**
   WriteBackupStreamFromTarFile: writes the records of the file and its alternate streams and
   returns the first header after them, or the end of the archive. It fails exactly if the archive is
   cut within one of them, an attribute does not fit its fields, or the output has no room.
   */
  method WriteBackupStreamFromTarFile(w: Writer, t: TarReader, hdr: TarHeader)
      returns (next: Option<TarHeader>, e: Error, ghost eas: seq<EA.Ea>)
    requires w.bytesLeft == 0 && InMemory(hdr) && AllWithin(t.entries)
    requires |t.unread| + t.missing == BodySize(hdr) < TWO_63
    modifies w, t
    ensures Lists(eas, hdr.pax)
    ensures e == Ok || e == Eof <==>
              && old(t.missing) == 0 && AllWhole(old(t.entries)[..StreamCount(old(t.entries), hdr.name)])
              && EA.AllFit(eas) && |Translated(hdr, old(t.unread), old(t.entries), eas)| <= old(w.room)
    ensures e == Ok || e == Eof ==> w.out == old(w.out) + Translated(hdr, old(t.unread), old(t.entries), eas)
    ensures var es := old(t.entries);
            var k := StreamCount(es, hdr.name);
            && (e == Eof ==> k == |es| && next == None)
            && (e == Ok ==> k < |es| && next == Some(es[k].hdr) && t.unread == es[k].body && t.entries == es[k + 1..])
  {
    hide Serialize, StreamCount, StreamRecords, IsStream, Lists, FrontRecords, InMemory, EA.AllFit, EA.Encode;
    hide AllWhole, AllWithin;
    ghost var out0, room0, body, es := w.out, w.room, t.unread, t.entries;
    Start(w);
    e, eas := WriteFront(w, hdr, out0, room0);
    ghost var k := CountBounds(es, hdr.name);
    next := None;
    ghost var front, data, streams: seq<Record> := [], [], [];
    if EA.AllFit(eas) {
      FileEntriesFit(hdr, body, es);
      front := FrontOf(hdr, eas);
      data := if hdr.typeflag == Regular then [MakeRecord(BACKUP_DATA, [], body)] else [];
      streams := StreamRecords(es[..k], hdr.name);
      assert BackRecords(FileEntries(hdr, body, es), eas) == front + data + streams;
      Longer(front, data);
      Longer(front + data, streams);
    }
    if e != Ok {
      return;
    }
    if hdr.typeflag == Regular {
      e := PutBody(w, t, BACKUP_DATA, [], hdr.size, out0, room0, front);
      if e != Ok {
        return;
      }
    } else {
      assert front + data == front;
    }
    next, e := PutStreams(w, t, hdr.name, out0, room0, front + data);
  }

  lemma FrontOf(hdr: TarHeader, eas: seq<EA.Ea>) returns (front: seq<Record>)
    requires InMemory(hdr) && Lists(eas, hdr.pax) && EA.AllFit(eas)
    ensures Encodable(hdr, eas) && front == FrontRecords(hdr, eas)
  {
    front := FrontRecords(hdr, eas);
  }

  lemma Start(w: Writer)
    requires w.bytesLeft == 0
    ensures Has(w, w.out, w.room, [])
  {
  }

  // ---------------------------------------------------------------- there and back

  lemma {:induction false} TailComplete(name: text, rs: seq<Record>)
    requires TailShape(rs)
    ensures TailEntries(name, rs).Some? && AllStreams(TailEntries(name, rs).value, name)
    ensures AllComplete(StreamRecords(TailEntries(name, rs).value, name))
  {
    hide TailEntries, StreamRecords, StreamName, IsSparse, TailShape, StreamRecord, TrimData, AllComplete, Complete;
    hide IsStream;
    TailPreserved(NO_FILE, name, rs);
    if rs == [] {
      TailNothing(NO_FILE, name);
      assert AllComplete([]) by {
        NoneComplete();
      }
    } else {
      var p, r := rs[..|rs| - 1], rs[|rs| - 1];
      assert p + [r] == rs;
      TailShapeLast(rs);
      TailComplete(name, p);
      if r.hdr.id == BACKUP_ALTERNATE_DATA {
        var e := Entry(StreamHeader(name, r.hdr), r.data);
        StreamComplete(name, r);
        TailSnoc(name, p, r);
        StreamRecordsSnoc(TailEntries(name, p).value, e, name);
        CompleteSnoc(StreamRecords(TailEntries(name, p).value, name), StreamRecord(e, name));
      } else {
        IgnoredStep(NO_FILE, name, p, r);
      }
    }
  }

  lemma NoneComplete()
    ensures AllComplete([])
  {
  }

  lemma CompleteSnoc(rs: seq<Record>, r: Record)
    requires AllComplete(rs) && Complete(r)
    ensures AllComplete(rs + [r])
  {
  }

  lemma {:induction false} StreamComplete(name: text, r: Record)
    requires Complete(r) && StreamName(r.hdr.name) && r.hdr.id == BACKUP_ALTERNATE_DATA
    ensures var e := Entry(StreamHeader(name, r.hdr), r.data);
            IsStream(e, name) && |e.body| < TWO_63 && Complete(StreamRecord(e, name))
  {
    hide TrimData, StreamName, DATA_SUFFIX;
    StreamNameRestored(name, r.hdr.name);
  }

  lemma {:induction false} FrontComplete(h: TarHeader, eas: seq<EA.Ea>)
    requires Encodable(h, eas)
    ensures AllComplete(FrontRecords(h, eas))
  {
    hide EA.Encode, EA.AllFit;
  }

  /** Entries that are all streams of `name` are taken together, up to the first that is not. */
  lemma {:induction false} StreamsCounted(es: seq<Entry>, others: seq<Entry>, name: text)
    requires forall i :: 0 <= i < |es| ==> IsStream(es[i], name)
    requires others != [] ==> !IsStream(others[0], name)
    ensures StreamCount(es + others, name) == |es|
  {
    hide IsStream;
    if es == [] {
      assert es + others == others;
    } else {
      assert (es + others)[0] == es[0] && (es + others)[1..] == es[1..] + others;
      StreamsCounted(es[1..], others, name);
    }
  }

  /**
   Backup stream to tar to backup stream, byte by byte: the archive written for the file, followed
   by any entries that are not its alternate streams, is turned into a stream of records that
   describe the same file.
   */
  lemma {:induction false} ThereAndBack(
      name: text, front: seq<Record>, d: Record, tail: seq<Record>, twice: bool, eas: seq<EA.Ea>,
      others: seq<Entry>, hdr: TarHeader)
    requires FrontShape(front) && TailShape(tail) && Complete(d) && d.hdr.id == BACKUP_DATA
    requires others != [] ==> !IsStream(others[0], name)
    requires HeaderSteps(FirstHeader(name, d.hdr.size, false), front) == Some(hdr)
    requires AllWithin(others) && InMemory(hdr) && Lists(eas, hdr.pax)
    ensures EA.AllFit(eas)
    ensures TarOf(front + [d] + tail, name, d.hdr.size, false, twice).Some?
    ensures var es := TarOf(front + [d] + tail, name, d.hdr.size, false, twice).value;
            && es[0] == Entry(hdr, d.data) && Whole(hdr, d.data) && AllWhole(es[1..])
            && Within(hdr, d.data) && AllWithin(es[1..] + others)
            && var back := RecordsOf(Translated(hdr, d.data, es[1..] + others, eas));
            back.Some? && Meaning(NO_FILE, back.value) == Meaning(NO_FILE, front + [d] + tail)
  {
    hide HeaderSteps, TailEntries, Meaning, TarOf, FrontRecords, StreamRecords, Agrees, Lists, DATA_SUFFIX, COLON;
    hide FrontShape, TailShape, Serialize, RecordsOf, StreamCount, InMemory, EA.Encode, EA.AllFit;
    TarOfFile(name, front, d, tail, twice);
    AgreesSd(hdr, Meaning(NO_FILE, front));
    HeaderFits(FirstHeader(name, d.hdr.size, false), front);
    ListedFit(eas, hdr.pax);
    var encodable := FrontOf(hdr, eas);
    TranslationPreservesMeaning(name, front, d, tail, twice, eas);
    TailComplete(name, tail);
    var es := TarOf(front + [d] + tail, name, d.hdr.size, false, twice).value;
    var streams := TailEntries(name, tail).value;
    assert es[1..] == streams;
    StreamsCounted(streams, others, name);
    assert (streams + others)[..|streams|] == streams;
    assert FileEntries(hdr, d.data, streams + others) == es;
    FrontComplete(hdr, eas);
    assert AllComplete(BackRecords(es, eas));
    RecordsOfSerialize(BackRecords(es, eas));
  }
}
