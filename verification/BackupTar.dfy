/**
 Translating files between backup streams and tar (backuptar/tar.go), record by record.

 Strings are sequences of UTF-16 code units throughout. The tar container is a sequence of headers
 with bodies; base64 and the reparse-point layout are inverse pairs, so that their plain values
 appear here. Names, times and attributes of the basic file information pass through
 untouched and are not shown.
 */
module BackupTar {
  import opened Bits
  import opened Wrappers
  import opened BackupStream
  import EA = ExtendedAttributes
  import Sparse

  type text = seq<u16>

  const COLON: text := [58]

  /** ":$DATA" */
  const DATA_SUFFIX: text := [58, 36, 68, 65, 84, 65]

  /** Keys of the pax records; `Xattr(n)` is the extended-attribute prefix followed by `n`. */
  datatype PaxKey = RawSecurityDescriptor | Xattr(name: seq<byte>)

  datatype Typeflag = Regular | Directory | Symlink

  datatype TarHeader = TarHeader(name: text, typeflag: Typeflag, size: int, pax: map<PaxKey, seq<byte>>,
      link: seq<byte>)

  datatype Entry = Entry(hdr: TarHeader, body: seq<byte>)

  // ---------------------------------------------------------------- what a backup stream means

  /** The file a stream describes: no descriptor and an empty one are the same. */
  datatype File = File(
    sd: seq<byte>, eas: map<seq<byte>, seq<byte>>, reparse: Option<seq<byte>>, data: Option<seq<byte>>,
    streams: seq<(text, seq<byte>)>)

  const NO_FILE := File([], map[], None, None, [])

  /** Later attributes replace earlier ones of the same name. */
  function EaMap(eas: seq<EA.Ea>): map<seq<byte>, seq<byte>> {
    if eas == [] then map[] else EaMap(eas[..|eas| - 1])[eas[|eas| - 1].name := eas[|eas| - 1].value]
  }

  /** Adds one record to the file described so far. */
  function AddRecord(f: File, r: Record): File {
    if r.hdr.id == BACKUP_SECURITY then f.(sd := r.data)
    else if r.hdr.id == BACKUP_EA_DATA then
      f.(eas := f.eas + match EA.Decode(r.data) case Some(eas) => EaMap(eas) case None => map[])
    else if r.hdr.id == BACKUP_REPARSE_DATA then f.(reparse := Some(r.data))
    else if r.hdr.id == BACKUP_DATA then f.(data := if f.data.None? then Some(r.data) else f.data)
    else if r.hdr.id == BACKUP_ALTERNATE_DATA then f.(streams := f.streams + [(r.hdr.name, r.data)])
    else f
  }

  function Meaning(f: File, rs: seq<Record>): File {
    if rs == [] then f else AddRecord(Meaning(f, rs[..|rs| - 1]), rs[|rs| - 1])
  }

  lemma {:induction false} MeaningSplit(f: File, a: seq<Record>, b: seq<Record>)
    ensures Meaning(f, a + b) == Meaning(Meaning(f, a), b)
  {
    hide AddRecord;
    if b == [] {
      assert a + b == a;
    } else {
      assert (a + b)[..|a + b| - 1] == a + b[..|b| - 1];
      MeaningSplit(f, a, b[..|b| - 1]);
    }
  }

  // ---------------------------------------------------------------- backup stream to tar

  predicate Ignored(id: u32) {
    || id == BACKUP_LINK || id == BACKUP_PROPERTY_DATA || id == BACKUP_OBJECT_ID || id == BACKUP_TXFS_DATA
  }

  predicate IsSparse(h: Header) {
    h.attributes / 8 % 2 == 1
  }

  /** What one record contributes to the tar header. */
  function HeaderStep(h: TarHeader, r: Record): Option<TarHeader> {
    var id := r.hdr.id;
    if id == BACKUP_DATA || id == BACKUP_ALTERNATE_DATA || Ignored(id) then Some(h)
    else if id == BACKUP_SECURITY then Some(h.(pax := h.pax[RawSecurityDescriptor := r.data]))
    else if id == BACKUP_REPARSE_DATA then Some(h.(typeflag := Symlink, link := r.data))
    else if id == BACKUP_EA_DATA then
      match EA.Decode(r.data)
      case None => None
      case Some(eas) => Some(h.(pax := PutEas(h.pax, eas)))
    else None
  }

  function PutEas(pax: map<PaxKey, seq<byte>>, eas: seq<EA.Ea>): map<PaxKey, seq<byte>> {
    if eas == [] then pax
    else PutEas(pax, eas[..|eas| - 1])[Xattr(eas[|eas| - 1].name) := eas[|eas| - 1].value]
  }

  function HeaderSteps(h: TarHeader, rs: seq<Record>): Option<TarHeader> {
    if rs == [] then Some(h)
    else
      match HeaderSteps(h, rs[..|rs| - 1])
      case None => None
      case Some(h1) => HeaderStep(h1, rs[|rs| - 1])
  }

  /** Index of the first data record, or the number of records. */
  function DataAt(rs: seq<Record>): (i: nat)
    ensures i <= |rs|
    ensures i < |rs| ==> rs[i].hdr.id == BACKUP_DATA
    ensures forall j :: 0 <= j < i ==> rs[j].hdr.id != BACKUP_DATA
  {
    if rs == [] then 0 else if rs[0].hdr.id == BACKUP_DATA then 0 else 1 + DataAt(rs[1..])
  }

  /** strings.TrimSuffix(s, ":$DATA") */
  function TrimData(s: text): text {
    if |s| >= 6 && s[|s| - 6..] == DATA_SUFFIX then s[..|s| - 6] else s
  }

  /** The header of the entry for an alternate stream. */
  function StreamHeader(name: text, h: Header): TarHeader {
    TarHeader(name + TrimData(h.name), Regular, h.size, map[], [])
  }

  /** The entries for the records after the data, in order. */
  function TailEntries(name: text, rs: seq<Record>): Option<seq<Entry>> {
    if rs == [] then Some([])
    else
      match TailEntries(name, rs[..|rs| - 1])
      case None => None
      case Some(es) =>
        var r := rs[|rs| - 1];
        if r.hdr.id == BACKUP_ALTERNATE_DATA then
          if IsSparse(r.hdr) then None
          else Some(es + [Entry(StreamHeader(name, r.hdr), r.data)])
        else if r.hdr.id == BACKUP_EA_DATA || Ignored(r.hdr.id) then Some(es)
        else None
  }

  // ---------------------------------------------------------------- tar to backup stream

  /** The attributes of a tar header, in some order of iteration over its pax records. */
  ghost predicate Lists(eas: seq<EA.Ea>, pax: map<PaxKey, seq<byte>>) {
    && (forall i :: 0 <= i < |eas| ==> Xattr(eas[i].name) in pax && eas[i].value == pax[Xattr(eas[i].name)])
    && (forall i, j :: 0 <= i < j < |eas| ==> eas[i].name != eas[j].name)
    && (forall k :: k in pax && k.Xattr? ==> exists i :: 0 <= i < |eas| && eas[i].name == k.name)
  }

  function MakeRecord(id: u32, name: text, data: seq<byte>): Record
    requires |data| < TWO_63
  {
    Record(Header(id, 0, |data|, name, 0), data)
  }

  function SdRecords(hdr: TarHeader): seq<Record>
    requires RawSecurityDescriptor in hdr.pax ==> |hdr.pax[RawSecurityDescriptor]| < TWO_63
  {
    if RawSecurityDescriptor in hdr.pax && hdr.pax[RawSecurityDescriptor] != [] then
      [MakeRecord(BACKUP_SECURITY, [], hdr.pax[RawSecurityDescriptor])]
    else []
  }

  function EaRecords(eas: seq<EA.Ea>): seq<Record>
    requires EA.AllFit(eas) && |EA.Encode(eas)| < TWO_63
  {
    if eas != [] then [MakeRecord(BACKUP_EA_DATA, [], EA.Encode(eas))] else []
  }

  function LinkRecords(hdr: TarHeader): seq<Record>
    requires |hdr.link| < TWO_63
  {
    if hdr.typeflag == Symlink then [MakeRecord(BACKUP_REPARSE_DATA, [], hdr.link)] else []
  }

  /** The records that precede the data. */
  function FrontRecords(hdr: TarHeader, eas: seq<EA.Ea>): seq<Record>
    requires EA.AllFit(eas) && |EA.Encode(eas)| < TWO_63 && |hdr.link| < TWO_63
    requires RawSecurityDescriptor in hdr.pax ==> |hdr.pax[RawSecurityDescriptor]| < TWO_63
  {
    SdRecords(hdr) + EaRecords(eas) + LinkRecords(hdr)
  }

  predicate HasPrefix(s: text, p: text) {
    p <= s
  }

  /** Entries that WriteBackupStreamFromTarFile takes as alternate streams of the file `name`. */
  predicate IsStream(e: Entry, name: text) {
    e.hdr.typeflag == Regular && HasPrefix(e.hdr.name, name + COLON)
  }

  function StreamRecord(e: Entry, name: text): Record
    requires IsStream(e, name) && |e.body| < TWO_63
  {
    MakeRecord(BACKUP_ALTERNATE_DATA, e.hdr.name[|name|..] + DATA_SUFFIX, e.body)
  }

  function StreamRecords(es: seq<Entry>, name: text): seq<Record>
    requires forall i :: 0 <= i < |es| ==> IsStream(es[i], name) && |es[i].body| < TWO_63
  {
    if es == [] then [] else StreamRecords(es[..|es| - 1], name) + [StreamRecord(es[|es| - 1], name)]
  }

  // ---------------------------------------------------------------- the translation preserves meaning

  /** Descriptor, attributes that decode, reparse point, and records that are ignored. */
  ghost predicate MetaShape(rs: seq<Record>) {
    forall i :: 0 <= i < |rs| ==>
      && Complete(rs[i])
      && (rs[i].hdr.id == BACKUP_SECURITY || Ignored(rs[i].hdr.id) || rs[i].hdr.id == BACKUP_REPARSE_DATA
          || (rs[i].hdr.id == BACKUP_EA_DATA && EA.Decode(rs[i].data).Some?))
  }

  ghost predicate Unlinked(rs: seq<Record>) {
    forall i :: 0 <= i < |rs| ==> rs[i].hdr.id != BACKUP_REPARSE_DATA
  }

  /** The files the translation is for: descriptor and attributes, then plain data, then streams named `:x:$DATA`. */
  ghost predicate FrontShape(rs: seq<Record>) {
    MetaShape(rs) && Unlinked(rs)
  }

  ghost predicate StreamName(s: text) {
    |s| >= 7 && s[0] == 58 && s[|s| - 6..] == DATA_SUFFIX
  }

  ghost predicate TailShape(rs: seq<Record>) {
    forall i :: 0 <= i < |rs| ==>
      && Complete(rs[i])
      && (Ignored(rs[i].hdr.id)
          || (rs[i].hdr.id == BACKUP_ALTERNATE_DATA && !IsSparse(rs[i].hdr) && StreamName(rs[i].hdr.name)))
  }

  /** The header says of descriptor, attributes and reparse point what the records read so far say. */
  ghost predicate Agrees(h: TarHeader, f: File) {
    && h.typeflag == (if f.reparse.Some? then Symlink else Regular) && (f.reparse.Some? ==> h.link == f.reparse.value)
    && f.sd == (if RawSecurityDescriptor in h.pax then h.pax[RawSecurityDescriptor] else [])
    && (forall n :: Xattr(n) in h.pax <==> n in f.eas)
    && (forall n :: Xattr(n) in h.pax ==> h.pax[Xattr(n)] == f.eas[n])
  }

  lemma {:induction false} PutEasAgree(h: TarHeader, f: File, eas: seq<EA.Ea>)
    requires Agrees(h, f)
    ensures Agrees(h.(pax := PutEas(h.pax, eas)), f.(eas := f.eas + EaMap(eas)))
  {
    if eas == [] {
      assert f.eas + map[] == f.eas;
    } else {
      PutEasAgree(h, f, eas[..|eas| - 1]);
    }
  }

  lemma {:induction false} FrontAgrees(h: TarHeader, f: File, rs: seq<Record>)
    requires MetaShape(rs) && Agrees(h, f)
    ensures HeaderSteps(h, rs).Some?
    ensures Agrees(HeaderSteps(h, rs).value, Meaning(f, rs))
    ensures HeaderSteps(h, rs).value.name == h.name && HeaderSteps(h, rs).value.size == h.size
    ensures Meaning(f, rs).data == f.data && Meaning(f, rs).streams == f.streams
    ensures Unlinked(rs) ==> Meaning(f, rs).reparse == f.reparse
  {
    hide EA.Decode, EA.AllFit, PutEas, EaMap;
    if rs != [] {
      var p, r := rs[..|rs| - 1], rs[|rs| - 1];
      FrontAgrees(h, f, p);
      if r.hdr.id == BACKUP_EA_DATA {
        PutEasAgree(HeaderSteps(h, p).value, Meaning(f, p), EA.Decode(r.data).value);
      }
    }
  }

  /** Records after the data leave the header alone. */
  lemma {:induction false} TailKeepsHeader(h: TarHeader, a: seq<Record>, b: seq<Record>)
    requires HeaderSteps(h, a).Some?
    requires forall i :: 0 <= i < |b| ==>
              b[i].hdr.id == BACKUP_DATA || b[i].hdr.id == BACKUP_ALTERNATE_DATA || Ignored(b[i].hdr.id)
    ensures HeaderSteps(h, a + b) == HeaderSteps(h, a)
  {
    if b == [] {
      assert a + b == a;
    } else {
      TailKeepsHeader(h, a, b[..|b| - 1]);
      assert (a + b)[..|a + b| - 1] == a + b[..|b| - 1];
    }
  }

  lemma {:induction false} StreamNameRestored(name: text, s: text)
    requires StreamName(s)
    ensures HasPrefix(name + TrimData(s), name + COLON)
    ensures (name + TrimData(s))[|name|..] + DATA_SUFFIX == s
  {
    var t := TrimData(s);
    assert t == s[..|s| - 6] && t[0] == 58;
    assert (name + t)[|name|..] == t;
    assert t == COLON + t[1..];
    assert name + t == (name + COLON) + t[1..];
  }

  /** Entries that come back as alternate streams of `name`, whole. */
  ghost predicate AllStreams(es: seq<Entry>, name: text) {
    forall i :: 0 <= i < |es| ==> IsStream(es[i], name) && |es[i].body| < TWO_63 && es[i].hdr.size == |es[i].body|
  }

  /** The alternate streams come back as they were, in order. */
  lemma {:induction false} TailPreserved(f: File, name: text, rs: seq<Record>)
    requires TailShape(rs)
    ensures TailEntries(name, rs).Some? && AllStreams(TailEntries(name, rs).value, name)
    ensures Meaning(f, StreamRecords(TailEntries(name, rs).value, name)) == Meaning(f, rs)
  {
    hide Meaning, TailEntries, AllStreams, StreamRecords, AddRecord, StreamName, IsSparse, TailShape;
    if rs == [] {
      TailNothing(f, name);
    } else {
      var p, r := rs[..|rs| - 1], rs[|rs| - 1];
      assert p + [r] == rs;
      assert TailShape(p) && Complete(r)
             && (Ignored(r.hdr.id)
                 || (r.hdr.id == BACKUP_ALTERNATE_DATA && !IsSparse(r.hdr) && StreamName(r.hdr.name))) by {
        TailShapeLast(rs);
      }
      TailPreserved(f, name, p);
      if r.hdr.id == BACKUP_ALTERNATE_DATA {
        StreamStep(f, name, p, r);
      } else {
        IgnoredStep(f, name, p, r);
      }
    }
  }

  lemma TailShapeLast(rs: seq<Record>)
    requires TailShape(rs) && rs != []
    ensures var r := rs[|rs| - 1];
            && TailShape(rs[..|rs| - 1]) && Complete(r)
            && (Ignored(r.hdr.id) || (r.hdr.id == BACKUP_ALTERNATE_DATA && !IsSparse(r.hdr) && StreamName(r.hdr.name)))
  {
  }

  lemma TailNothing(f: File, name: text)
    ensures TailEntries(name, []) == Some([]) && AllStreams([], name) && StreamRecords([], name) == []
    ensures Meaning(f, []) == f
  {
  }

  lemma {:induction false} IgnoredStep(f: File, name: text, p: seq<Record>, r: Record)
    requires TailEntries(name, p).Some? && Ignored(r.hdr.id)
    ensures TailEntries(name, p + [r]) == TailEntries(name, p) && Meaning(f, p + [r]) == Meaning(f, p)
  {
    assert (p + [r])[..|p|] == p;
  }

  lemma {:induction false} StreamStep(f: File, name: text, p: seq<Record>, r: Record)
    requires TailEntries(name, p).Some? && AllStreams(TailEntries(name, p).value, name)
    requires Meaning(f, StreamRecords(TailEntries(name, p).value, name)) == Meaning(f, p)
    requires Complete(r) && r.hdr.id == BACKUP_ALTERNATE_DATA && !IsSparse(r.hdr) && StreamName(r.hdr.name)
    ensures TailEntries(name, p + [r]).Some? && AllStreams(TailEntries(name, p + [r]).value, name)
    ensures Meaning(f, StreamRecords(TailEntries(name, p + [r]).value, name)) == Meaning(f, p + [r])
  {
    hide TrimData, StreamName, DATA_SUFFIX, IsSparse, COLON, TailEntries, StreamRecords, Meaning;
    var e := Entry(StreamHeader(name, r.hdr), r.data);
    var es := TailEntries(name, p).value;
    StreamNameRestored(name, r.hdr.name);
    TailSnoc(name, p, r);
    StreamRecordsSnoc(es, e, name);
    MeaningSnoc(f, StreamRecords(es, name), StreamRecord(e, name));
    MeaningSnoc(f, p, r);
  }

  lemma TailSnoc(name: text, p: seq<Record>, r: Record)
    requires TailEntries(name, p).Some? && r.hdr.id == BACKUP_ALTERNATE_DATA && !IsSparse(r.hdr)
    ensures TailEntries(name, p + [r])
         == Some(TailEntries(name, p).value + [Entry(StreamHeader(name, r.hdr), r.data)])
  {
    assert (p + [r])[..|p|] == p;
  }

  lemma StreamRecordsSnoc(es: seq<Entry>, e: Entry, name: text)
    requires AllStreams(es, name) && IsStream(e, name) && |e.body| < TWO_63
    ensures StreamRecords(es + [e], name) == StreamRecords(es, name) + [StreamRecord(e, name)]
  {
    assert (es + [e])[..|es|] == es;
  }

  lemma MeaningSnoc(f: File, rs: seq<Record>, r: Record)
    ensures Meaning(f, rs + [r]) == AddRecord(Meaning(f, rs), r)
  {
    assert (rs + [r])[..|rs|] == rs;
  }

  lemma {:induction false} EaMapOf(eas: seq<EA.Ea>)
    requires forall i, j :: 0 <= i < j < |eas| ==> eas[i].name != eas[j].name
    ensures forall n :: n in EaMap(eas) <==> exists i :: 0 <= i < |eas| && eas[i].name == n
    ensures forall i :: 0 <= i < |eas| ==> EaMap(eas)[eas[i].name] == eas[i].value
  {
    if eas != [] {
      EaMapOf(eas[..|eas| - 1]);
    }
  }

  /** The listed attributes form the same map as the header's. */
  lemma {:induction false} ListsMap(eas: seq<EA.Ea>, h: TarHeader, f: File)
    requires Lists(eas, h.pax) && Agrees(h, f)
    ensures EaMap(eas) == f.eas
  {
    hide EaMap;
    EaMapOf(eas);
    var m := EaMap(eas);
    forall n | n in f.eas
      ensures n in m && m[n] == f.eas[n]
    {
      assert Xattr(n) in h.pax;
      var i :| 0 <= i < |eas| && eas[i].name == n;
      assert m[eas[i].name] == eas[i].value;
    }
    forall n | n in m
      ensures n in f.eas
    {
      var i :| 0 <= i < |eas| && eas[i].name == n;
      assert Xattr(eas[i].name) in h.pax;
    }
  }

  ghost predicate Encodable(h: TarHeader, eas: seq<EA.Ea>) {
    && EA.AllFit(eas) && |EA.Encode(eas)| < TWO_63 && |h.link| < TWO_63
    && (RawSecurityDescriptor in h.pax ==> |h.pax[RawSecurityDescriptor]| < TWO_63)
  }

  /** No length in the header needs more than 63 bits. */
  ghost predicate Bounded(h: TarHeader, eas: seq<EA.Ea>) {
    && (EA.AllFit(eas) ==> |EA.Encode(eas)| < TWO_63) && |h.link| < TWO_63
    && (RawSecurityDescriptor in h.pax ==> |h.pax[RawSecurityDescriptor]| < TWO_63)
  }

  /** Attributes in the header fit their encoding. */
  ghost predicate AttributesFit(pax: map<PaxKey, seq<byte>>) {
    forall n :: Xattr(n) in pax ==> |n| <= 255 && |pax[Xattr(n)]| <= 65535
  }

  lemma {:induction false} PutEasFit(pax: map<PaxKey, seq<byte>>, eas: seq<EA.Ea>)
    requires AttributesFit(pax) && EA.AllFit(eas)
    ensures AttributesFit(PutEas(pax, eas))
  {
    if eas != [] {
      PutEasFit(pax, eas[..|eas| - 1]);
    }
  }

  /** Attributes that were decoded can be encoded again. */
  lemma {:induction false} HeaderFits(h: TarHeader, rs: seq<Record>)
    requires AttributesFit(h.pax)
    ensures HeaderSteps(h, rs).Some? ==> AttributesFit(HeaderSteps(h, rs).value.pax)
  {
    hide EA.Decode;
    if rs != [] {
      HeaderFits(h, rs[..|rs| - 1]);
      var r := rs[|rs| - 1];
      if HeaderSteps(h, rs).Some? && r.hdr.id == BACKUP_EA_DATA {
        DecodedFit(r.data);
        PutEasFit(HeaderSteps(h, rs[..|rs| - 1]).value.pax, EA.Decode(r.data).value);
      }
    }
  }

  lemma DecodedFit(b: seq<byte>)
    ensures EA.Decode(b).Some? ==> EA.AllFit(EA.Decode(b).value)
  {
  }

  lemma ListedFit(eas: seq<EA.Ea>, pax: map<PaxKey, seq<byte>>)
    requires AttributesFit(pax) && Lists(eas, pax)
    ensures EA.AllFit(eas)
  {
    forall i | 0 <= i < |eas|
      ensures EA.Fits(eas[i])
    {
      assert Xattr(eas[i].name) in pax;
    }
  }

  lemma {:induction false} SdPreserved(h: TarHeader)
    requires RawSecurityDescriptor in h.pax ==> |h.pax[RawSecurityDescriptor]| < TWO_63
    ensures Meaning(NO_FILE, SdRecords(h)) ==
              NO_FILE.(sd := if RawSecurityDescriptor in h.pax then h.pax[RawSecurityDescriptor] else [])
  {
    if SdRecords(h) != [] {
      MeaningOne(NO_FILE, SdRecords(h)[0]);
    }
  }

  lemma {:induction false} EasPreserved(f: File, eas: seq<EA.Ea>)
    requires EA.AllFit(eas) && |EA.Encode(eas)| < TWO_63 && f.eas == map[]
    ensures Meaning(f, EaRecords(eas)) == f.(eas := EaMap(eas))
  {
    hide EA.Encode, EA.Decode;
    if eas != [] {
      EA.RoundTrip(eas, []);
      MeaningOne(f, EaRecords(eas)[0]);
      assert map[] + EaMap(eas) == EaMap(eas);
    }
  }

  /** Descriptor and attributes come back. */
  lemma {:induction false} FrontPreserved(h: TarHeader, f: File, eas: seq<EA.Ea>)
    requires Agrees(h, f) && f.data == None && f.streams == [] && Lists(eas, h.pax) && Encodable(h, eas)
    ensures Meaning(NO_FILE, FrontRecords(h, eas)) == f
  {
    hide EA.Encode, EaMap, Lists, Agrees, Meaning, SdRecords, EaRecords, LinkRecords;
    ListsMap(eas, h, f);
    AgreesSd(h, f);
    MeaningSplit(NO_FILE, SdRecords(h), EaRecords(eas));
    MeaningSplit(NO_FILE, SdRecords(h) + EaRecords(eas), LinkRecords(h));
    SdPreserved(h);
    EasPreserved(NO_FILE.(sd := f.sd), eas);
    LinkPreserved(NO_FILE.(sd := f.sd, eas := f.eas), h);
  }

  lemma {:induction false} LinkPreserved(f: File, h: TarHeader)
    requires |h.link| < TWO_63 && f.reparse == None
    ensures Meaning(f, LinkRecords(h)) == if h.typeflag == Symlink then f.(reparse := Some(h.link)) else f
  {
    if LinkRecords(h) != [] {
      MeaningOne(f, LinkRecords(h)[0]);
    }
  }

  lemma AgreesSd(h: TarHeader, f: File)
    requires Agrees(h, f)
    ensures f.sd == if RawSecurityDescriptor in h.pax then h.pax[RawSecurityDescriptor] else []
    ensures h.typeflag == (if f.reparse.Some? then Symlink else Regular)
    ensures f.reparse.Some? ==> h.link == f.reparse.value
  {
  }

  lemma MeaningOne(f: File, r: Record)
    ensures Meaning(f, [r]) == AddRecord(f, r)
  {
    assert [r][..0] == [];
  }

  /** Entries of one file, with nothing in them too long for a record. */
  ghost predicate Returnable(es: seq<Entry>, eas: seq<EA.Ea>) {
    && es != [] && Encodable(es[0].hdr, eas) && |es[0].body| < TWO_63
    && forall i :: 1 <= i < |es| ==> IsStream(es[i], es[0].hdr.name) && |es[i].body| < TWO_63
  }

  /** The records WriteBackupStreamFromTarFile makes of a file's entries. */
  function BackRecords(es: seq<Entry>, eas: seq<EA.Ea>): seq<Record>
    requires Returnable(es, eas)
  {
    FrontRecords(es[0].hdr, eas)
    + (if es[0].hdr.typeflag == Regular then [MakeRecord(BACKUP_DATA, [], es[0].body)] else [])
    + StreamRecords(es[1..], es[0].hdr.name)
  }

  function FirstHeader(name: text, size: int, isDir: bool): TarHeader {
    if isDir then TarHeader(name, Directory, 0, map[], []) else TarHeader(name, Regular, size, map[], [])
  }

  /** Room for a body in a tar entry. */
  function BodySize(h: TarHeader): int {
    if h.typeflag == Regular then h.size else 0
  }

  /** A data record that is copied as it is, not expanded from sparse blocks. */
  predicate Plain(h: Header) {
    h.size > 0 || !IsSparse(h)
  }

  /** The body made of the data record `d`, given the records after it, and the records that remain. */
  ghost function Contents(d: Record, rs: seq<Record>, size: int, room: int): Option<(seq<byte>, seq<Record>)> {
    if Plain(d.hdr) then
      if size != d.hdr.size || |d.data| > room then None else Some((d.data, rs))
    else if size > 0 then
      match Sparse.MapRecords(rs, 0)
      case None => None
      case Some(m) => if m.end > room then None else Some((Sparse.Render(m.blocks, 0, m.end), m.rest))
    else Some(([], rs))
  }

  /** The entries written for a file whose records are `rs`; a reader that can seek is read twice. */
  ghost function TarOf(rs: seq<Record>, name: text, size: int, isDir: bool, twice: bool): Option<seq<Entry>> {
    var d := DataAt(rs);
    match HeaderSteps(FirstHeader(name, size, isDir), if twice || d == |rs| then rs else rs[..d + 1])
    case None => None
    case Some(h) =>
      if h.size < 0 then None
      else if d == |rs| then Some([Entry(h, [])])
      else
        match Contents(rs[d], rs[d + 1..], size, BodySize(h))
        case None => None
        case Some((body, tail)) =>
          match TailEntries(name, tail)
          case None => None
          case Some(es) => if es != [] && |body| < BodySize(h) then None else Some([Entry(h, body)] + es)
  }

  lemma AddData(f: File, d: Record)
    requires d.hdr.id == BACKUP_DATA && f.data == None
    ensures Meaning(f, [d]) == f.(data := Some(d.data))
  {
    MeaningOne(f, d);
  }

  lemma {:induction false} DataAtSplit(front: seq<Record>, d: Record, tail: seq<Record>)
    requires d.hdr.id == BACKUP_DATA && forall i :: 0 <= i < |front| ==> front[i].hdr.id != BACKUP_DATA
    ensures DataAt(front + [d] + tail) == |front|
  {
    var rs := front + [d] + tail;
    assert rs[|front|] == d;
    assert forall i :: 0 <= i < |front| ==> rs[i] == front[i];
  }

  /** What the tar of such a file looks like, read once or twice. */
  lemma {:induction false} TarOfFile(name: text, front: seq<Record>, d: Record, tail: seq<Record>, twice: bool)
    requires FrontShape(front) && TailShape(tail) && Complete(d) && d.hdr.id == BACKUP_DATA
    ensures HeaderSteps(FirstHeader(name, d.hdr.size, false), front).Some? && TailEntries(name, tail).Some?
    ensures var h := HeaderSteps(FirstHeader(name, d.hdr.size, false), front).value;
            && Agrees(h, Meaning(NO_FILE, front)) && h.name == name && h.size == d.hdr.size
            && TarOf(front + [d] + tail, name, d.hdr.size, false, twice)
               == Some([Entry(h, d.data)] + TailEntries(name, tail).value)
    ensures Meaning(NO_FILE, front).data == None && Meaning(NO_FILE, front).streams == []
    ensures Meaning(NO_FILE, front).reparse == None
  {
    hide HeaderSteps, TailEntries, DataAt, Meaning, EA.Decode, StreamName;
    var h0 := FirstHeader(name, d.hdr.size, false);
    var rs := front + [d] + tail;
    FrontAgrees(h0, NO_FILE, front);
    TailPreserved(NO_FILE, name, tail);
    DataAtSplit(front, d, tail);
    assert rs[|front| + 1..] == tail && rs[..|front| + 1] == front + [d] && rs[|front|] == d;
    assert rs == front + ([d] + tail);
    TailKeepsHeader(h0, front, [d] + tail);
    TailKeepsHeader(h0, front, [d]);
    AgreesSd(HeaderSteps(h0, front).value, Meaning(NO_FILE, front));
  }

  /**
   Backup stream to tar to backup stream keeps the file: the descriptor, the attributes as a map
   from names to values whatever order the tar header lists them in, the data, and the
   alternate streams in order.
   */
  lemma {:induction false} TranslationPreservesMeaning(
      name: text, front: seq<Record>, d: Record, tail: seq<Record>, twice: bool, eas: seq<EA.Ea>)
    requires FrontShape(front) && TailShape(tail) && Complete(d) && d.hdr.id == BACKUP_DATA
    requires TarOf(front + [d] + tail, name, d.hdr.size, false, twice).Some? ==>
               var h := TarOf(front + [d] + tail, name, d.hdr.size, false, twice).value[0].hdr;
               Lists(eas, h.pax) && Bounded(h, eas)
    ensures TarOf(front + [d] + tail, name, d.hdr.size, false, twice).Some?
    ensures var es := TarOf(front + [d] + tail, name, d.hdr.size, false, twice).value;
            && Returnable(es, eas) && es[0].hdr.name == name
            && Meaning(NO_FILE, BackRecords(es, eas)) == Meaning(NO_FILE, front + [d] + tail)
  {
    hide HeaderSteps, TailEntries, Meaning, TarOf, FrontRecords, StreamRecords, Agrees, Lists, EaMap, DATA_SUFFIX;
    hide COLON, FrontShape, TailShape;
    TarOfFile(name, front, d, tail, twice);
    var es := TarOf(front + [d] + tail, name, d.hdr.size, false, twice).value;
    var h := es[0].hdr;
    var f := Meaning(NO_FILE, front);
    HeaderFits(FirstHeader(name, d.hdr.size, false), front);
    ListedFit(eas, h.pax);
    var d' := MakeRecord(BACKUP_DATA, [], d.data);
    AgreesSd(h, f);
    FrontPreserved(h, f, eas);
    TailPreserved(f.(data := Some(d.data)), name, tail);
    assert es[1..] == TailEntries(name, tail).value;
    assert forall i :: 1 <= i < |es| ==> es[i] == es[1..][i - 1];
    AddData(f, d);
    AddData(f, d');
    MeaningSplit(NO_FILE, front, [d]);
    MeaningSplit(NO_FILE, front + [d], tail);
    MeaningSplit(NO_FILE, FrontRecords(h, eas), [d']);
    MeaningSplit(NO_FILE, FrontRecords(h, eas) + [d'], StreamRecords(es[1..], name));
  }

  // ---------------------------------------------------------------- files without data

  lemma {:induction false} NoData(rs: seq<Record>)
    requires MetaShape(rs)
    ensures DataAt(rs) == |rs|
  {
  }

  /** A file without data, a symbolic link for one, keeps its descriptor, attributes and reparse point. */
  lemma {:induction false} LinkTranslationPreservesMeaning(name: text, rs: seq<Record>, size: nat, twice: bool,
                                                           eas: seq<EA.Ea>)
    requires MetaShape(rs) && !Unlinked(rs)
    requires TarOf(rs, name, size, false, twice).Some? ==>
               var h := TarOf(rs, name, size, false, twice).value[0].hdr;
               Lists(eas, h.pax) && Bounded(h, eas)
    ensures TarOf(rs, name, size, false, twice).Some?
    ensures var es := TarOf(rs, name, size, false, twice).value;
            && |es| == 1 && es[0].hdr.typeflag == Symlink && es[0].body == [] && Returnable(es, eas)
            && Meaning(NO_FILE, BackRecords(es, eas)) == Meaning(NO_FILE, rs)
  {
    hide HeaderSteps, Meaning, FrontRecords, Agrees, Lists, EaMap, MetaShape, DataAt, Unlinked;
    var h0 := FirstHeader(name, size, false);
    NoData(rs);
    EmptyAgrees(h0);
    FrontAgrees(h0, NO_FILE, rs);
    var h := HeaderSteps(h0, rs).value;
    var es := TarOf(rs, name, size, false, twice).value;
    var f := Meaning(NO_FILE, rs);
    LinkedMeans(NO_FILE, rs);
    AgreesSd(h, f);
    EmptyFits(h0);
    HeaderFits(h0, rs);
    ListedFit(eas, h.pax);
    FrontPreserved(h, f, eas);
    assert es[1..] == [];
    assert FrontRecords(h, eas) + [] + [] == FrontRecords(h, eas);
  }

  lemma EmptyAgrees(h: TarHeader)
    requires h.pax == map[] && h.typeflag == Regular
    ensures Agrees(h, NO_FILE)
  {
  }

  lemma EmptyFits(h: TarHeader)
    requires h.pax == map[]
    ensures AttributesFit(h.pax)
  {
  }

  lemma {:induction false} LinkedMeans(f: File, rs: seq<Record>)
    requires !Unlinked(rs)
    ensures Meaning(f, rs).reparse.Some?
  {
    var p, r := rs[..|rs| - 1], rs[|rs| - 1];
    if r.hdr.id != BACKUP_REPARSE_DATA {
      var i :| 0 <= i < |rs| && rs[i].hdr.id == BACKUP_REPARSE_DATA;
      assert p[i] == rs[i];
      LinkedMeans(f, p);
    }
  }

  // ---------------------------------------------------------------- what is refused

  /** The first pass refuses exactly unknown streams and attributes that do not decode. */
  lemma {:induction false} HeaderRefusals(h: TarHeader, rs: seq<Record>)
    ensures HeaderSteps(h, rs).Some? <==>
              forall i :: 0 <= i < |rs| ==>
                && 1 <= rs[i].hdr.id <= 10 && rs[i].hdr.id != 9
                && (rs[i].hdr.id == 2 ==> EA.Decode(rs[i].data).Some?)
  {
    hide EA.Decode, PutEas;
    if rs != [] {
      HeaderRefusals(h, rs[..|rs| - 1]);
      assert forall i :: 0 <= i < |rs| - 1 ==> rs[..|rs| - 1][i] == rs[i];
    }
  }

  /** The alternate streams among records. */
  function Alternates(rs: seq<Record>): seq<Record> {
    if rs == [] then []
    else Alternates(rs[..|rs| - 1]) + if rs[|rs| - 1].hdr.id == 4 then [rs[|rs| - 1]] else []
  }

  /** After the data, sparse alternate streams and unknown records are refused, and nothing else is. */
  lemma {:induction false} TailRefusals(name: text, rs: seq<Record>)
    ensures TailEntries(name, rs).Some? <==>
              forall i :: 0 <= i < |rs| ==>
                var id := rs[i].hdr.id;
                (id == 4 && rs[i].hdr.attributes / 8 % 2 == 0) || id == 2 || 5 <= id <= 7 || id == 10
  {
    if rs != [] {
      TailRefusals(name, rs[..|rs| - 1]);
      assert forall i :: 0 <= i < |rs| - 1 ==> rs[..|rs| - 1][i] == rs[i];
    }
  }

  /**
   Every alternate stream after the data has its entry, in order: the file's name and its own, its
   size, its bytes.
   */
  lemma {:induction false} TailEntriesAre(name: text, rs: seq<Record>)
    requires TailEntries(name, rs).Some?
    ensures var es := TailEntries(name, rs).value;
            && |es| == |Alternates(rs)|
            && forall i :: 0 <= i < |es| ==>
                 var r := Alternates(rs)[i];
                 && es[i].body == r.data && es[i].hdr.size == r.hdr.size && es[i].hdr.typeflag == Regular
                 && es[i].hdr.name == name + TrimData(r.hdr.name)
  {
    if rs != [] {
      TailEntriesAre(name, rs[..|rs| - 1]);
    }
  }

  /** `:$DATA` at the end of a name is cut off, once, and nothing else. */
  lemma {:induction false} TrimmedName(x: text)
    ensures TrimData(x + [58, 36, 68, 65, 84, 65]) == x
    ensures (|x| < 6 || x[|x| - 6..] != [58, 36, 68, 65, 84, 65]) ==> TrimData(x) == x
  {
    var s := x + [58, 36, 68, 65, 84, 65];
    assert s[|s| - 6..] == [58, 36, 68, 65, 84, 65] && s[..|s| - 6] == x;
  }

  // ---------------------------------------------------------------- sparse files

  /** A data record that stands for sparse blocks to come. */
  ghost predicate SparseData(d: Record) {
    d.hdr.id == BACKUP_DATA && d.hdr.size == 0 && d.data == [] && d.hdr.attributes / 8 % 2 == 1
  }

  /** A sparse file, read once, becomes its dense form; its alternate streams follow. */
  lemma {:induction false} SparseFileBecomesDense(
      name: text, front: seq<Record>, d: Record, blocks: seq<Sparse.Block>, size: int64, tail: seq<Record>)
    requires FrontShape(front) && SparseData(d) && TailShape(tail) && size > 0
    requires Sparse.Ascending(blocks, 0, size) && forall i :: 0 <= i < |blocks| ==> blocks[i].data != []
    ensures forall i :: 0 <= i < |blocks| ==> blocks[i].offset + |blocks[i].data| <= size
    ensures HeaderSteps(FirstHeader(name, size, false), front).Some? && TailEntries(name, tail).Some?
    ensures var h := HeaderSteps(FirstHeader(name, size, false), front).value;
            TarOf(front + [d] + (Sparse.SparseRecords(blocks, size) + tail), name, size, false, false)
            == Some([Entry(h, Sparse.Render(blocks, 0, size))] + TailEntries(name, tail).value)
  {
    hide HeaderSteps, TailEntries, DataAt, Meaning, EA.Decode, StreamName, Sparse.MapRecords, Sparse.Render;
    hide Sparse.Ascending;
    Sparse.SparseReadBack(blocks, 0, size, tail);
    hide Sparse.SparseRecords;
    var h0 := FirstHeader(name, size, false);
    var after := Sparse.SparseRecords(blocks, size) + tail;
    var rs := front + [d] + after;
    EmptyAgrees(h0);
    FrontAgrees(h0, NO_FILE, front);
    TailPreserved(NO_FILE, name, tail);
    DataAtSplit(front, d, after);
    assert rs[|front| + 1..] == after && rs[..|front| + 1] == front + [d] && rs[|front|] == d;
    TailKeepsHeader(h0, front, [d]);
    AgreesSd(HeaderSteps(h0, front).value, Meaning(NO_FILE, front));
    Sparse.RenderLength(blocks, 0, size);
  }

  /** Read twice, because the reader can seek, a sparse file is refused: the first pass does not know its blocks. */
  lemma {:induction false} SparseFileRefusedTwice(
      name: text, front: seq<Record>, d: Record, blocks: seq<Sparse.Block>, size: int64, tail: seq<Record>, isDir: bool)
    requires 0 <= size && forall i :: 0 <= i < |blocks| ==> blocks[i].offset + |blocks[i].data| <= size
    ensures TarOf(front + [d] + (Sparse.SparseRecords(blocks, size) + tail), name, size, isDir, true) == None
  {
    hide HeaderSteps, EA.Decode;
    var rs := front + [d] + (Sparse.SparseRecords(blocks, size) + tail);
    var first := Sparse.SparseRecords(blocks, size)[0];
    assert first.hdr.id == 9;
    assert rs[|front| + 1] == first;
    HeaderRefusals(FirstHeader(name, size, isDir), rs);
  }

  // ---------------------------------------------------------------- the records that come back

  /**
   Descriptor, attributes, reparse point, data, in this order and only if there are any; then the
   alternate streams.
   */
  lemma {:induction false} RecordsInOrder(es: seq<Entry>, eas: seq<EA.Ea>)
    requires Returnable(es, eas)
    ensures var h := es[0].hdr;
            var sd := if RawSecurityDescriptor in h.pax then h.pax[RawSecurityDescriptor] else [];
            BackRecords(es, eas) ==
              (if sd == [] then [] else [Record(Header(3, 0, |sd|, [], 0), sd)])
              + (if eas == [] then [] else [Record(Header(2, 0, |EA.Encode(eas)|, [], 0), EA.Encode(eas))])
              + (if h.typeflag == Symlink then [Record(Header(8, 0, |h.link|, [], 0), h.link)] else [])
              + (if h.typeflag == Regular then [Record(Header(1, 0, |es[0].body|, [], 0), es[0].body)] else [])
              + StreamRecords(es[1..], h.name)
  {
    hide EA.Encode, StreamRecords;
  }

  /** An alternate stream is the rest of the entry's name, with `:$DATA`, and the entry's body. */
  lemma {:induction false} StreamRecordsAre(es: seq<Entry>, name: text, i: nat)
    requires i < |es| && forall k :: 0 <= k < |es| ==> IsStream(es[k], name) && |es[k].body| < TWO_63
    ensures |StreamRecords(es, name)| == |es|
    ensures |name| <= |es[i].hdr.name|
    ensures StreamRecords(es, name)[i] ==
              Record(Header(4, 0, |es[i].body|, es[i].hdr.name[|name|..] + [58, 36, 68, 65, 84, 65], 0), es[i].body)
  {
    if i < |es| - 1 {
      StreamRecordsAre(es[..|es| - 1], name, i);
    } else if |es| > 1 {
      StreamRecordsAre(es[..|es| - 1], name, 0);
    }
  }

  // ---------------------------------------------------------------- what is lost

  /** Read once, the header knows only the records before the data; attributes after it are lost. Read twice, all. */
  lemma {:induction false} HeaderKnows(rs: seq<Record>, name: text, size: int, isDir: bool, twice: bool)
    requires TarOf(rs, name, size, isDir, twice).Some?
    ensures var known := if twice then rs else rs[..DataAt(rs)];
            && HeaderSteps(FirstHeader(name, size, isDir), known).Some?
            && TarOf(rs, name, size, isDir, twice).value != []
            && TarOf(rs, name, size, isDir, twice).value[0].hdr
               == HeaderSteps(FirstHeader(name, size, isDir), known).value
  {
    hide DataAt, HeaderSteps, TailEntries, Contents;
    var d := DataAt(rs);
    AtData(rs);
    if !twice && d < |rs| {
      assert rs[..d + 1] == rs[..d] + [rs[d]];
      LastIsData(FirstHeader(name, size, isDir), rs[..d], rs[d]);
    } else {
      assert rs[..|rs|] == rs;
    }
  }

  lemma AtData(rs: seq<Record>)
    ensures DataAt(rs) <= |rs| && (DataAt(rs) < |rs| ==> rs[DataAt(rs)].hdr.id == BACKUP_DATA)
  {
  }

  lemma LastIsData(h: TarHeader, rs: seq<Record>, d: Record)
    requires d.hdr.id == BACKUP_DATA
    ensures HeaderSteps(h, rs + [d]) == HeaderSteps(h, rs)
  {
    assert (rs + [d])[..|rs|] == rs;
  }

  /** Without a data record there is one entry, and alternate streams are lost. */
  lemma {:induction false} NoDataNoStreams(rs: seq<Record>, name: text, size: int, isDir: bool, twice: bool)
    requires TarOf(rs, name, size, isDir, twice).Some? && forall i :: 0 <= i < |rs| ==> rs[i].hdr.id != 1
    ensures |TarOf(rs, name, size, isDir, twice).value| == 1 && TarOf(rs, name, size, isDir, twice).value[0].body == []
  {
    hide HeaderSteps, TailEntries, Contents;
    assert DataAt(rs) == |rs|;
  }

  /** A directory's entry has no size; a file's has the file's. */
  lemma FirstHeaderIs(name: text, size: int)
    ensures FirstHeader(name, size, true) == TarHeader(name, Directory, 0, map[], [])
    ensures FirstHeader(name, size, false) == TarHeader(name, Regular, size, map[], [])
  {
  }
}
