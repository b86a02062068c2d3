/**
 Reading back what create_header wrote.
 */
module PaxRoundTrip {
  import opened Bytes
  import opened Numerals
  import opened PaxTime
  import opened PaxRecord
  import opened PaxParser
  import opened PaxFlags
  import opened Fields
  import opened TarHeader
  import opened TarBlock
  import opened PaxHeader
  import opened PaxDecoder

  // ------------------------------------------------------------------ the records are parsed back

  lemma KeysOk()
    ensures forall key | key in {KEY_PATH, KEY_SIZE, KEY_CTIME, KEY_MTIME, KEY_ATIME, KEY_REALSIZE, KEY_FFLAGS} ::
              KeyOk(key) && EQUALS !in key
  {
  }

  lemma OptWritable(ps: seq<Param>, c: bool, p: Param)
    requires forall q | q in ps :: Writable(q) && q.value != []
    requires c ==> Writable(p) && p.value != []
    ensures forall q | q in ps + Opt(c, p) :: Writable(q) && q.value != []
  {
  }

  lemma TimeWritable(ps: seq<Param>, save: bool, key: seq<byte>, t: int)
    requires IsFiletime(t) && key in {KEY_CTIME, KEY_MTIME, KEY_ATIME}
    requires forall q | q in ps :: Writable(q) && q.value != []
    ensures forall q | q in ps + TimeParam(save, key, t) :: Writable(q) && q.value != []
  {
    KeysOk();
    TimeBound(t);
    TimeParts(t);
    var p := Param(key, CodeFiletime(t));
    RecordBound(p);
    OptWritable(ps, save && t != INT64_MAX, p);
  }

  lemma SizesWritable(fi: FileInfo)
    requires MachineInfo(fi)
    ensures forall q | q in SizeParams(fi) :: Writable(q) && q.value != []
  {
    KeysOk();
    MachineDigits(fi.size);
    MachineDigits(fi.realsize);
    var s, r := Param(KEY_SIZE, Decimal(fi.size)), Param(KEY_REALSIZE, Decimal(fi.realsize));
    RecordBound(s);
    RecordBound(r);
    OptWritable(Opt(fi.size >= OLD_SIZE_LIMIT, s), fi.realsize != 0, r);
  }

  lemma InfoWritable(fi: FileInfo, o: Options)
    requires MachineInfo(fi)
    ensures forall q | q in InfoParams(fi, o) :: Writable(q) && q.value != []
  {
    KeysOk();
    SizesWritable(fi);
    var names := FlagNames(SavedAttr(fi.attr, o));
    FlagsBound(SavedAttr(fi.attr, o));
    JoinedEmpty(SavedAttr(fi.attr, o));
    var f := Param(KEY_FFLAGS, Joined(names));
    RecordBound(f);
    var ps := SizeParams(fi);
    OptWritable(ps, names != [], f);
    ps := ps + FlagsParam(fi, o);
    TimeWritable(ps, true, KEY_MTIME, fi.mtime);
    ps := ps + TimeParam(true, KEY_MTIME, fi.mtime);
    TimeWritable(ps, o.saveAtime, KEY_ATIME, fi.atime);
    ps := ps + TimeParam(o.saveAtime, KEY_ATIME, fi.atime);
    TimeWritable(ps, o.saveCtime, KEY_CTIME, fi.ctime);
  }

  // The parser sees exactly the records of the header.
  lemma ParamsParsed(fi: FileInfo, o: Options, name: seq<byte>)
    requires MachineInfo(fi) && ArchiveName(name)
    ensures var ps := HeaderParams(fi, o, name); ParseAll(Records(ps)) == Some(ps)
  {
    InfoWritable(fi, o);
    KeysOk();
    var ps, p := InfoParams(fi, o), Param(KEY_PATH, name);
    RecordBound(p);
    OptWritable(ps, NeedsPath(name, ps), p);
    RecordsRoundTrip(HeaderParams(fi, o, name));
  }

  // ---------------------------------------------------------------------- the records are applied

  function After(d: Decoded, c: bool, p: Param): Option<Decoded> {
    if c then ApplyParam(d, p) else Some(d)
  }

  lemma {:induction false} ApplyMore(d: Decoded, ps: seq<Param>, c: bool, p: Param)
    ensures ApplyAll(d, ps + Opt(c, p))
            == match ApplyAll(d, ps) case None => None case Some(e) => After(e, c, p)
    decreases |ps|
  {
    if !c {
      assert ps + Opt(c, p) == ps;
    } else if ps == [] {
      assert [] + [p] == [p];
      assert [p][1..] == [];
    } else {
      assert (ps + [p])[1..] == ps[1..] + [p];
      if ApplyParam(d, ps[0]).Some? {
        ApplyMore(ApplyParam(d, ps[0]).value, ps[1..], c, p);
      }
    }
  }

  lemma KeysDiffer()
    ensures KEY_SIZE != KEY_PATH && KEY_MTIME != KEY_ATIME && KEY_CTIME != KEY_ATIME && KEY_CTIME != KEY_MTIME
  {
    assert KEY_SIZE[0] != KEY_PATH[0];
    assert KEY_MTIME[0] != KEY_ATIME[0] && KEY_CTIME[0] != KEY_ATIME[0] && KEY_CTIME[0] != KEY_MTIME[0];
  }

  lemma SizeApplied(d: Decoded, v: nat)
    requires v < UINT64_LIMIT && !IgnoresSize(d.kind)
    ensures ApplyParam(d, Param(KEY_SIZE, Decimal(v)))
            == if v >= INT64_MAX then None else Some(d.(info := d.info.(size := v)))
  {
    KeysDiffer();
    DecodeDecimalOf(v);
  }

  lemma RealsizeApplied(d: Decoded, v: nat)
    requires v < UINT64_LIMIT
    ensures ApplyParam(d, Param(KEY_REALSIZE, Decimal(v)))
            == if v >= INT64_MAX then None else Some(d.(info := d.info.(realsize := v)))
  {
    DecodeDecimalOf(v);
  }

  // The time that is read for a written one: exact from 1970 on, whole seconds before.
  function ReadBack(t: int): int {
    if t >= EPOCH then t else EPOCH + TruncDiv(t - EPOCH, TICK) * TICK
  }

  lemma TimeApplied(d: Decoded, key: seq<byte>, t: int)
    requires IsFiletime(t) && key in {KEY_CTIME, KEY_MTIME, KEY_ATIME}
    ensures ApplyParam(d, Param(key, CodeFiletime(t))) == Some(d.(info := SetTime(d.info, key, ReadBack(t))))
  {
    TimeReadBack(t);
  }

  lemma FlagsApplied(d: Decoded, a: Attr)
    requires FlagNames(a) != []
    ensures ApplyParam(d, Param(KEY_FFLAGS, Joined(FlagNames(a))))
            == Some(d.(info := d.info.(attr := WithFlags(d.info.attr, a))))
  {
    FlagsRoundTrip(d.info.attr, a);
  }

  function WithFlags(attr: Attr, a: Attr): Attr {
    attr.(readonly := attr.readonly || a.readonly, hidden := attr.hidden || a.hidden,
    system := attr.system || a.system, archive := attr.archive || a.archive)
  }

  // What the records make of the fields of the ustar block; None exactly for numbers beyond 63 bits.
  function InfoApplied(d: Decoded, fi: FileInfo, o: Options): Decoded
    requires MachineInfo(fi)
  {
    var e := SizesApplied(d, fi);
    var a := WithFlags(e.info.attr, SavedAttr(fi.attr, o));
    e.(info := e.info.(
      attr := a,
      mtime := if fi.mtime != INT64_MAX then ReadBack(fi.mtime) else e.info.mtime,
      atime := if o.saveAtime && fi.atime != INT64_MAX then ReadBack(fi.atime) else e.info.atime,
      ctime := if o.saveCtime && fi.ctime != INT64_MAX then ReadBack(fi.ctime) else e.info.ctime))
  }

  function SizesApplied(d: Decoded, fi: FileInfo): Decoded {
    d.(info := d.info.(
      size := if fi.size >= OLD_SIZE_LIMIT && !IgnoresSize(d.kind) then fi.size else d.info.size,
      realsize := if fi.realsize != 0 then fi.realsize else d.info.realsize))
  }

  predicate Readable(d: Decoded, fi: FileInfo) {
    (fi.size < INT64_MAX || IgnoresSize(d.kind)) && fi.realsize < INT64_MAX
  }

  lemma SizesStep(d: Decoded, fi: FileInfo)
    requires MachineInfo(fi)
    ensures ApplyAll(d, SizeParams(fi)) == if Readable(d, fi) then Some(SizesApplied(d, fi)) else None
  {
    var s, r := Param(KEY_SIZE, Decimal(fi.size)), Param(KEY_REALSIZE, Decimal(fi.realsize));
    var c := fi.size >= OLD_SIZE_LIMIT;
    ApplyMore(d, [], c, s);
    assert [] + Opt(c, s) == Opt(c, s);
    ApplyMore(d, Opt(c, s), fi.realsize != 0, r);
    if !IgnoresSize(d.kind) {
      SizeApplied(d, fi.size);
    } else {
      KeysDiffer();
    }
    var e := d.(info := d.info.(size := if c && !IgnoresSize(d.kind) then fi.size else d.info.size));
    RealsizeApplied(e, fi.realsize);
  }

  lemma FlagsStep(d: Decoded, ps: seq<Param>, fi: FileInfo, o: Options)
    ensures ApplyAll(d, ps + FlagsParam(fi, o))
            == match ApplyAll(d, ps)
               case None => None
               case Some(e) => Some(e.(info := e.info.(attr := WithFlags(e.info.attr, SavedAttr(fi.attr, o)))))
  {
    var a := SavedAttr(fi.attr, o);
    var names := FlagNames(a);
    ApplyMore(d, ps, names != [], Param(KEY_FFLAGS, Joined(names)));
    if names != [] && ApplyAll(d, ps).Some? {
      FlagsApplied(ApplyAll(d, ps).value, a);
    }
  }

  lemma TimeStep(d: Decoded, ps: seq<Param>, save: bool, key: seq<byte>, t: int)
    requires IsFiletime(t) && key in {KEY_CTIME, KEY_MTIME, KEY_ATIME}
    ensures ApplyAll(d, ps + TimeParam(save, key, t))
            == match ApplyAll(d, ps)
               case None => None
               case Some(e) =>
                 Some(if save && t != INT64_MAX then e.(info := SetTime(e.info, key, ReadBack(t))) else e)
  {
    ApplyMore(d, ps, save && t != INT64_MAX, Param(key, CodeFiletime(t)));
    if ApplyAll(d, ps).Some? {
      TimeApplied(ApplyAll(d, ps).value, key, t);
    }
  }

  lemma InfoStep(d: Decoded, fi: FileInfo, o: Options)
    requires MachineInfo(fi)
    ensures ApplyAll(d, InfoParams(fi, o)) == if Readable(d, fi) then Some(InfoApplied(d, fi, o)) else None
  {
    SizesStep(d, fi);
    KeysDiffer();
    var ps := SizeParams(fi);
    FlagsStep(d, ps, fi, o);
    ps := ps + FlagsParam(fi, o);
    TimeStep(d, ps, true, KEY_MTIME, fi.mtime);
    ps := ps + TimeParam(true, KEY_MTIME, fi.mtime);
    TimeStep(d, ps, o.saveAtime, KEY_ATIME, fi.atime);
    ps := ps + TimeParam(o.saveAtime, KEY_ATIME, fi.atime);
    TimeStep(d, ps, o.saveCtime, KEY_CTIME, fi.ctime);
  }

  lemma ParamsStep(d: Decoded, fi: FileInfo, o: Options, name: seq<byte>)
    requires MachineInfo(fi)
    requires !NeedsPath(name, InfoParams(fi, o)) ==> d.name == name
    ensures ApplyAll(d, HeaderParams(fi, o, name))
            == if Readable(d, fi) then Some(InfoApplied(d, fi, o).(name := name)) else None
  {
    InfoStep(d, fi, o);
    var ps := InfoParams(fi, o);
    ApplyMore(d, ps, NeedsPath(name, ps), Param(KEY_PATH, name));
  }

  // ---------------------------------------------------------------------------- the header blocks

  lemma NameBack(name: seq<byte>, kind: byte, size: nat, readonly: bool, mtime: int)
    requires |name| < NAME_SIZE && 0 !in name
    ensures NameOf(Ustar(NameField(name), kind, size, readonly, mtime)) == name
  {
    var h, n := Ustar(NameField(name), kind, size, readonly, mtime), |name|;
    FieldKept(NameField(name), kind, size, readonly, mtime, 0, Field(0, NameField(name)));
    if n + 1 < NAME_SIZE {
      StaysZero(NameField(name), kind, size, readonly, mtime, NAME_SIZE - 1);
    } else {
      assert h[n] == h[0..n + 1][n];
    }
    NameAt(h, name);
  }

  lemma NameAt(h: seq<byte>, name: seq<byte>)
    requires |h| == BLOCKSIZE && |name| < NAME_SIZE && 0 !in name
    requires h[0..|name| + 1] == name + [0] && h[NAME_SIZE - 1] == 0
    ensures NameOf(h) == name
  {
    var n, s := |name|, h[..NAME_SIZE];
    assert s[n] == h[0..n + 1][n] && s[..n] == h[0..n + 1][..n];
    TerminatedAt(s, n);
  }

  lemma WriteBits(kind: byte, readonly: bool)
    requires kind != XHDTYPE
    ensures NoWriteBits(Mode(kind, readonly)) <==> readonly
  {
  }

  // The time in the ustar block: whole seconds, from 1970 on, modulo eleven octal digits.
  function BlockTime(t: int): int {
    MtimeField(t) % (OLD_SIZE_LIMIT + 1) * TICK + EPOCH
  }

  function Clip(size: nat): nat {
    if size > OLD_SIZE_LIMIT then OLD_SIZE_LIMIT else size
  }

  // What the ustar block alone says about an entry.
  function PlainInfo(fi: FileInfo): FileInfo {
    FileInfo(if fi.attr.directory then 0 else Clip(fi.size), 0,
             NO_ATTR.(readonly := fi.attr.readonly, directory := fi.attr.directory, normal := !fi.attr.directory),
             BlockTime(fi.mtime), 0, BlockTime(fi.mtime))
  }

  lemma BlockBack(d: Decoded, fi: FileInfo, name: seq<byte>)
    requires d.info == NO_INFO.(size := if fi.attr.directory then 0 else Clip(fi.size)) && d.kind == Kind(fi)
    ensures var h := Ustar(NameField(name), Kind(fi), fi.size, fi.attr.readonly, fi.mtime);
            BlockInfo(d, h) == d.(name := NameOf(h), info := PlainInfo(fi))
  {
    UstarMode(NameField(name), Kind(fi), fi.size, fi.attr.readonly, fi.mtime);
    UstarSize(NameField(name), Kind(fi), fi.size, fi.attr.readonly, fi.mtime);
    UstarMtime(NameField(name), Kind(fi), fi.size, fi.attr.readonly, fi.mtime);
    WriteBits(Kind(fi), fi.attr.readonly);
  }

  // The parts of an encoded header.
  lemma HeaderParts(fi: FileInfo, o: Options, xname: seq<byte>, name: seq<byte>, data: seq<byte>)
    returns (e: seq<byte>)
    requires MachineInfo(fi) && |xname| <= NAME_ROOM && data == Records(HeaderParams(fi, o, name))
    ensures e == EncodeHeader(fi, o, xname, name)
    ensures |e| == 2 * BLOCKSIZE + BlocksizeRound(|data|)
    ensures e[..BLOCKSIZE] == Ustar(xname, XHDTYPE, |data|, false, fi.mtime)
    ensures e[BLOCKSIZE..BLOCKSIZE + |data|] == data
    ensures e[|e| - BLOCKSIZE..] == Ustar(NameField(name), Kind(fi), fi.size, fi.attr.readonly, fi.mtime)
  {
    hide Ustar, Records, HeaderParams, Kind, NameField;
    e := EncodeHeader(fi, o, xname, name);
    var a := Ustar(xname, XHDTYPE, |data|, false, fi.mtime);
    var c := Ustar(NameField(name), Kind(fi), fi.size, fi.attr.readonly, fi.mtime);
    ThreeInOne(a, data, BlocksizeRound(|data|) - |data|, c, e);
  }

  lemma DataFacts(fi: FileInfo, o: Options, name: seq<byte>) returns (data: seq<byte>)
    requires MachineInfo(fi) && ArchiveName(name)
    ensures data == Records(HeaderParams(fi, o, name)) && 0 < |data| < ONE_MIB
  {
    data := Records(HeaderParams(fi, o, name));
    DataBound(fi, o, name);
    RecordsEmpty(HeaderParams(fi, o, name));
  }

  lemma ThreeInOne(a: seq<byte>, b: seq<byte>, n: nat, c: seq<byte>, e: seq<byte>)
    requires e == a + (b + Zeros(n)) + c
    ensures |e| == |a| + |b| + n + |c| && e[..|a|] == a && e[|a|..|a| + |b|] == b && e[|e| - |c|..] == c
  {
  }

  function FirstDecoded(n: nat): Decoded {
    Decoded(Posix, XHDTYPE, n, REGULAR, 2 * BLOCKSIZE + BlocksizeRound(n), [], NO_INFO)
  }

  function SecondDecoded(fi: FileInfo, n: nat): Decoded {
    FirstDecoded(n).(kind := Kind(fi), info := NO_INFO.(size := if fi.attr.directory then 0 else Clip(fi.size)))
  }

  // What parse_header finds out about an entry.
  function Recovered(fi: FileInfo, o: Options): FileInfo
    requires MachineInfo(fi)
  {
    FileInfo(
      if fi.attr.directory then 0 else fi.size,
      fi.realsize,
      NO_ATTR.(readonly := fi.attr.readonly, hidden := fi.attr.hidden && o.saveHidden,
               system := fi.attr.system && o.saveSystem, archive := fi.attr.archive && o.saveArchive,
               directory := fi.attr.directory, normal := !fi.attr.directory),
      if o.saveCtime && fi.ctime != INT64_MAX then ReadBack(fi.ctime) else BlockTime(fi.mtime),
      if o.saveAtime && fi.atime != INT64_MAX then ReadBack(fi.atime) else 0,
      if fi.mtime != INT64_MAX then ReadBack(fi.mtime) else EPOCH)
  }

  lemma HeaderDetected(fi: FileInfo, o: Options, xname: seq<byte>, name: seq<byte>)
    returns (e: seq<byte>, data: seq<byte>)
    requires MachineInfo(fi) && ArchiveName(name) && |xname| <= NAME_ROOM
    ensures e == EncodeHeader(fi, o, xname, name) && data == Records(HeaderParams(fi, o, name)) && data != []
    ensures |e| == FirstDecoded(|data|).headerSize && e[BLOCKSIZE..BLOCKSIZE + |data|] == data
    ensures e[|e| - BLOCKSIZE..] == Ustar(NameField(name), Kind(fi), fi.size, fi.attr.readonly, fi.mtime)
    ensures FirstHeader(e[..BLOCKSIZE]) == Some(FirstDecoded(|data|))
  {
    data := DataFacts(fi, o, name);
    e := HeaderParts(fi, o, xname, name, data);
    FirstDetected(xname, |data|, fi.mtime);
  }

  lemma FirstDetected(xname: seq<byte>, n: nat, mtime: int)
    requires |xname| <= NAME_ROOM && 0 < n < ONE_MIB
    ensures FirstHeader(Ustar(xname, XHDTYPE, n, false, mtime)) == Some(FirstDecoded(n))
  {
    UstarChecks(xname, XHDTYPE, n, false, mtime);
    UstarMode(xname, XHDTYPE, n, false, mtime);
    UstarSize(xname, XHDTYPE, n, false, mtime);
  }

  lemma SecondDetected(fi: FileInfo, name: seq<byte>, n: nat, e: seq<byte>)
    requires |e| == FirstDecoded(n).headerSize
    requires e[|e| - BLOCKSIZE..] == Ustar(NameField(name), Kind(fi), fi.size, fi.attr.readonly, fi.mtime)
    ensures SecondHeader(FirstDecoded(n), e) == Some(SecondDecoded(fi, n))
  {
    LastBlockIs(FirstDecoded(n), e);
    EntryBlock(fi, name, e[|e| - BLOCKSIZE..]);
  }

  lemma EntryBlock(fi: FileInfo, name: seq<byte>, h: seq<byte>)
    requires h == Ustar(NameField(name), Kind(fi), fi.size, fi.attr.readonly, fi.mtime)
    ensures CheckTarHeader(h).Some? && KindOf(h) == Kind(fi) && SizeOf(h) == Clip(fi.size)
  {
    UstarChecks(NameField(name), Kind(fi), fi.size, fi.attr.readonly, fi.mtime);
    UstarMode(NameField(name), Kind(fi), fi.size, fi.attr.readonly, fi.mtime);
    UstarSize(NameField(name), Kind(fi), fi.size, fi.attr.readonly, fi.mtime);
  }

  lemma InfoRecovered(d: Decoded, fi: FileInfo, o: Options)
    requires MachineInfo(fi) && d.kind == Kind(fi)
    requires d.info == PlainInfo(fi)
    ensures Readable(d, fi) <==> (fi.attr.directory || fi.size < INT64_MAX) && fi.realsize < INT64_MAX
    ensures InfoApplied(d, fi, o) == d.(info := Recovered(fi, o))
  {
    var x, y := InfoApplied(d, fi, o).info, Recovered(fi, o);
    assert x.attr == y.attr;
    assert x.size == y.size && x.realsize == y.realsize;
    assert x.ctime == y.ctime && x.atime == y.atime && x.mtime == y.mtime;
  }

  // The header round trip.  Both calls of add_header succeed on everything that create_header writes,
  // the size of the header is recovered, and parse_header recovers the name, the sizes, the times and
  // the flags; it fails exactly if a size does not fit into 63 bits.
  lemma HeaderRoundTrip(fi: FileInfo, o: Options, xname: seq<byte>, name: seq<byte>)
    requires MachineInfo(fi) && ArchiveName(name) && |xname| <= NAME_ROOM
    ensures var e, n := EncodeHeader(fi, o, xname, name), |Records(HeaderParams(fi, o, name))|;
            var d1, d2 := FirstDecoded(n), SecondDecoded(fi, n);
            && d1.headerSize == d2.headerSize == |e| > BLOCKSIZE
            && FirstHeader(e[..BLOCKSIZE]) == Some(d1)
            && SecondHeader(d1, e) == Some(d2)
            && ReadHeader(d2, e) == if (fi.attr.directory || fi.size < INT64_MAX) && fi.realsize < INT64_MAX
                                    then Some(d2.(name := name, info := Recovered(fi, o))) else None
  {
    var e, data := HeaderDetected(fi, o, xname, name);
    SecondDetected(fi, name, |data|, e);
    HeaderRead(fi, o, name, e, data);
  }

  // A header for a file of 2^63 - 1 bytes is written but refused by the parser.
  lemma HugeFileRefused(fi: FileInfo, o: Options, xname: seq<byte>, name: seq<byte>)
    requires MachineInfo(fi) && ArchiveName(name) && |xname| <= NAME_ROOM
    requires !fi.attr.directory && fi.size == INT64_MAX
    ensures var e, n := EncodeHeader(fi, o, xname, name), |Records(HeaderParams(fi, o, name))|;
            SecondDecoded(fi, n).headerSize == |e| && ReadHeader(SecondDecoded(fi, n), e) == None
  {
    HeaderRoundTrip(fi, o, xname, name);
  }

  lemma LastBlockIs(d: Decoded, e: seq<byte>)
    requires BLOCKSIZE <= d.headerSize == |e|
    ensures LastBlock(d, e) == e[|e| - BLOCKSIZE..]
  {
  }

  lemma HeaderRead(fi: FileInfo, o: Options, name: seq<byte>, e: seq<byte>, data: seq<byte>)
    requires MachineInfo(fi) && ArchiveName(name)
    requires data == Records(HeaderParams(fi, o, name)) && data != []
    requires |e| == FirstDecoded(|data|).headerSize && e[BLOCKSIZE..BLOCKSIZE + |data|] == data
    requires e[|e| - BLOCKSIZE..] == Ustar(NameField(name), Kind(fi), fi.size, fi.attr.readonly, fi.mtime)
    ensures var d2 := SecondDecoded(fi, |data|);
            ReadHeader(d2, e)
            == if (fi.attr.directory || fi.size < INT64_MAX) && fi.realsize < INT64_MAX
               then Some(d2.(name := name, info := Recovered(fi, o))) else None
  {
    var d2, h := SecondDecoded(fi, |data|), e[|e| - BLOCKSIZE..];
    LastBlockIs(d2, e);
    var d3 := BlockRead(d2, h, fi, o, name);
    TextRead(d3, fi, o, name);
    ReadsText(d2, e, h, data);
  }

  lemma ReadsText(d: Decoded, e: seq<byte>, h: seq<byte>, data: seq<byte>)
    requires d.paxType == XHDTYPE && d.paxSize == |data| > 0 && Sized(d) && d.headerSize <= |e|
    requires LastBlock(d, e) == h && e[BLOCKSIZE..BLOCKSIZE + |data|] == data
    ensures ReadHeader(d, e) == ApplyText(BlockInfo(d, h), data)
  {
  }

  // The fields of the last block and, if it is all there, the name.
  lemma BlockRead(d: Decoded, h: seq<byte>, fi: FileInfo, o: Options, name: seq<byte>) returns (e: Decoded)
    requires d.info == NO_INFO.(size := if fi.attr.directory then 0 else Clip(fi.size)) && d.kind == Kind(fi)
    requires h == Ustar(NameField(name), Kind(fi), fi.size, fi.attr.readonly, fi.mtime)
    requires MachineInfo(fi) && ArchiveName(name)
    ensures e == BlockInfo(d, h) && e == d.(name := e.name, info := e.info)
    ensures e.info == PlainInfo(fi)
    ensures !NeedsPath(name, InfoParams(fi, o)) ==> e.name == name
  {
    e := BlockInfo(d, h);
    BlockBack(d, fi, name);
    if !NeedsPath(name, InfoParams(fi, o)) {
      NameBack(name, Kind(fi), fi.size, fi.attr.readonly, fi.mtime);
    }
  }

  lemma TextRead(d: Decoded, fi: FileInfo, o: Options, name: seq<byte>)
    requires MachineInfo(fi) && ArchiveName(name) && d.kind == Kind(fi)
    requires d.info == PlainInfo(fi)
    requires !NeedsPath(name, InfoParams(fi, o)) ==> d.name == name
    ensures ApplyText(d, Records(HeaderParams(fi, o, name)))
            == if (fi.attr.directory || fi.size < INT64_MAX) && fi.realsize < INT64_MAX
               then Some(d.(name := name, info := Recovered(fi, o))) else None
  {
    ParamsParsed(fi, o, name);
    ParamsStep(d, fi, o, name);
    InfoRecovered(d, fi, o);
  }
}
