/**
 What an extended header of create_header consists of, as texts: which records it has, in which order, the form of
 a record, and the names of the flags.
 */
module PaxWritten {
  import opened Bytes
  import opened Numerals
  import opened PaxTime
  import opened PaxRecord
  import opened PaxParser
  import opened PaxFlags
  import opened TarHeader
  import opened PaxHeader
  import opened PaxDecoder

  // The length of the record in decimal digits without a leading zero, a blank, the keyword, '=', the value and a
  // newline.
  lemma RecordForm(p: Param) returns (d: seq<byte>)
    ensures Record(p) == d + Text(" ") + p.key + Text("=") + p.value + [10]
    ensures AllDigits(d) && d != [] && d[0] != 48 && DecimalValue(d) == |Record(p)|
  {
    hide RecordLength, DecimalValue;
    d := Decimal(RecordLength(Payload(p)));
    RecordParts(p, []);
    assert Record(p) + [] == Record(p);
    RecordLengthCounts(Payload(p));
    NoLeadingZero(RecordLength(Payload(p)));
    assert Text(" ") == [32] && Text("=") == [61];
  }

  lemma {:induction false} NoLeadingZero(v: nat)
    requires v > 0
    ensures Decimal(v)[0] != 48
  {
    if v >= 10 {
      NoLeadingZero(v / 10);
    }
  }

  // ------------------------------------------------------------------------------------- the records

  const SIZE := Text("size")
  const REAL_SIZE := Text("SCHILY.realsize")
  const FLAGS := Text("SCHILY.fflags")
  const MTIME := Text("mtime")
  const ATIME := Text("atime")
  const CTIME := Text("ctime")
  const PATH := Text("path")

  function Keys(ps: seq<Param>): (ks: seq<seq<byte>>)
    ensures |ks| == |ps| && forall i | 0 <= i < |ps| :: ks[i] == ps[i].key
  {
    seq(|ps|, i requires 0 <= i < |ps| => ps[i].key)
  }

  // The flags that are not lost.
  predicate AnyFlag(a: Attr, o: Options) {
    || (a.readonly && o.saveReadonly) || (a.hidden && o.saveHidden) || (a.system && o.saveSystem)
    || (a.archive && o.saveArchive) || a.device || a.sparse || a.reparse || a.compressed
  }

  // Which records a header has, in which order: INT64_MAX stands for no time.
  lemma RecordsWritten(fi: FileInfo, o: Options, name: seq<byte>)
    requires MachineInfo(fi)
    ensures Keys(InfoParams(fi, o))
            == One(fi.size >= 8589934591, SIZE) + One(fi.realsize != 0, REAL_SIZE)
               + One(AnyFlag(fi.attr, o), FLAGS) + One(fi.mtime != 0x7FFF_FFFF_FFFF_FFFF, MTIME)
               + One(o.saveAtime && fi.atime != 0x7FFF_FFFF_FFFF_FFFF, ATIME)
               + One(o.saveCtime && fi.ctime != 0x7FFF_FFFF_FFFF_FFFF, CTIME)
    ensures HeaderParams(fi, o, name)
            == InfoParams(fi, o)
               + if (exists i | 0 <= i < |name| :: name[i] >= 128) || |name| >= 100 || InfoParams(fi, o) == []
                 then [Param(PATH, name)] else []
  {
    hide Joined, CodeFiletime, Decimal, AnyFlag, FlagNames, SavedAttr;
    TextsDiffer();
    KeysAre(fi.size >= 8589934591, KEY_SIZE, Decimal(fi.size), SIZE);
    KeysAre(fi.realsize != 0, KEY_REALSIZE, Decimal(fi.realsize), REAL_SIZE);
    var names := FlagNames(SavedAttr(fi.attr, o));
    SomeFlag(fi.attr, o);
    KeysAre(names != [], KEY_FFLAGS, Joined(names), FLAGS);
    TimeKeys(true, KEY_MTIME, fi.mtime, MTIME);
    TimeKeys(o.saveAtime, KEY_ATIME, fi.atime, ATIME);
    TimeKeys(o.saveCtime, KEY_CTIME, fi.ctime, CTIME);
    KeysJoin(fi, o);
    assert KEY_PATH == PATH;
  }

  lemma KeysAre(c: bool, key: seq<byte>, value: seq<byte>, text: seq<byte>)
    requires key == text
    ensures Keys(Opt(c, Param(key, value))) == One(c, text)
  {
  }

  lemma TimeKeys(save: bool, key: seq<byte>, t: int, text: seq<byte>)
    requires IsFiletime(t) && key == text
    ensures Keys(TimeParam(save, key, t)) == One(save && t != 0x7FFF_FFFF_FFFF_FFFF, text)
  {
    hide CodeFiletime;
    KeysAre(save && t != INT64_MAX, key, CodeFiletime(t), text);
  }

  lemma KeysJoin(fi: FileInfo, o: Options)
    requires MachineInfo(fi)
    ensures Keys(InfoParams(fi, o))
            == Keys(Opt(fi.size >= 8589934591, Param(KEY_SIZE, Decimal(fi.size))))
               + Keys(Opt(fi.realsize != 0, Param(KEY_REALSIZE, Decimal(fi.realsize))))
               + Keys(FlagsParam(fi, o)) + Keys(TimeParam(true, KEY_MTIME, fi.mtime))
               + Keys(TimeParam(o.saveAtime, KEY_ATIME, fi.atime)) + Keys(TimeParam(o.saveCtime, KEY_CTIME, fi.ctime))
  {
    hide Keys, FlagsParam, TimeParam, Opt;
    var a, b := Opt(fi.size >= 8589934591, Param(KEY_SIZE, Decimal(fi.size))),
                Opt(fi.realsize != 0, Param(KEY_REALSIZE, Decimal(fi.realsize)));
    var c, d := FlagsParam(fi, o), TimeParam(true, KEY_MTIME, fi.mtime);
    var e, f := TimeParam(o.saveAtime, KEY_ATIME, fi.atime), TimeParam(o.saveCtime, KEY_CTIME, fi.ctime);
    assert InfoParams(fi, o) == a + b + c + d + e + f;
    TwoKeys(a, b);
    TwoKeys(a + b, c);
    TwoKeys(a + b + c, d);
    TwoKeys(a + b + c + d, e);
    TwoKeys(a + b + c + d + e, f);
  }

  lemma TwoKeys(ps: seq<Param>, qs: seq<Param>)
    ensures Keys(ps + qs) == Keys(ps) + Keys(qs)
  {
  }

  lemma SomeFlag(a: Attr, o: Options)
    ensures FlagNames(SavedAttr(a, o)) != [] <==> AnyFlag(a, o)
  {
    hide FlagNames;
    var b := SavedAttr(a, o);
    var names := FlagNames(b);
    FlagMembers(b, READONLY);
    FlagMembers(b, HIDDEN);
    FlagMembers(b, SYSTEM);
    FlagMembers(b, ARCHIVED);
    FlagMembers(b, TOPDIR);
    FlagMembers(b, SPARSE);
    FlagMembers(b, REPARSE);
    FlagMembers(b, COMPRESSED);
    if names != [] {
      FlagMembers(b, names[0]);
      assert names[0] in names;
    }
  }

  // The values: sizes in decimal digits, times as seconds since 1970, the flags and the path.
  lemma ValuesWritten(fi: FileInfo, o: Options, p: Param)
    requires MachineInfo(fi) && p in InfoParams(fi, o)
    ensures p.key == SIZE ==> p.value == Decimal(fi.size)
    ensures p.key == REAL_SIZE ==> p.value == Decimal(fi.realsize)
    ensures p.key == FLAGS ==> p.value == Joined(FlagNames(SavedAttr(fi.attr, o)))
    ensures p.key == MTIME ==> p.value == CodeFiletime(fi.mtime)
    ensures p.key == ATIME ==> p.value == CodeFiletime(fi.atime)
    ensures p.key == CTIME ==> p.value == CodeFiletime(fi.ctime)
  {
    hide Joined, FlagNames, SavedAttr, CodeFiletime, Decimal;
    TextsDiffer();
  }

  lemma TextsDiffer()
    ensures KEY_SIZE == Text("size") && KEY_REALSIZE == Text("SCHILY.realsize") && KEY_FFLAGS == Text("SCHILY.fflags")
    ensures KEY_MTIME == Text("mtime") && KEY_ATIME == Text("atime") && KEY_CTIME == Text("ctime")
    ensures |KEY_SIZE| == 4 && |KEY_REALSIZE| == 15 && |KEY_FFLAGS| == 13
    ensures |KEY_MTIME| == |KEY_ATIME| == |KEY_CTIME| == 5
    ensures KEY_MTIME[0] == 109 && KEY_ATIME[0] == 97 && KEY_CTIME[0] == 99
  {
  }

  // --------------------------------------------------------------------------------------- the flags

  // The name of a flag in the list.
  lemma FlagNamesExactly(a: Attr)
    ensures FlagNames(a)
            == One(a.readonly, Text("readonly")) + One(a.hidden, Text("hidden")) + One(a.system, Text("system"))
               + One(a.archive, Text("archived")) + One(a.device, Text("topdir")) + One(a.sparse, Text("sparse"))
               + One(a.reparse, Text("reparse")) + One(a.compressed, Text("compressed"))
  {
    TextsOfFlags();
  }

  lemma TextsOfFlags()
    ensures READONLY == Text("readonly") && HIDDEN == Text("hidden") && SYSTEM == Text("system")
    ensures ARCHIVED == Text("archived") && TOPDIR == Text("topdir") && SPARSE == Text("sparse")
    ensures REPARSE == Text("reparse") && COMPRESSED == Text("compressed")
  {
  }

  const FLAG_READONLY := Text("readonly")
  const FLAG_HIDDEN := Text("hidden")
  const FLAG_SYSTEM := Text("system")
  const FLAG_ARCHIVED := Text("archived")

  // Names without commas, with commas between them, in any order and with any others between them: the four known
  // ones set their flag, and nothing else changes.
  lemma FlagsReadExactly(attr: Attr, names: seq<seq<byte>>)
    requires names != [] && forall n | n in names :: 44 !in n
    ensures SetFlags(attr, Split(Joined(names)))
            == attr.(readonly := attr.readonly || FLAG_READONLY in names,
                     hidden := attr.hidden || FLAG_HIDDEN in names,
                     system := attr.system || FLAG_SYSTEM in names,
                     archive := attr.archive || FLAG_ARCHIVED in names)
  {
    SplitJoined(names);
    TextsOfFlags();
  }

  // ------------------------------------------------------------------------------------------ sizes

  // The value of a size record is its decimal number in 64 bits, and must be below INT64_MAX.
  lemma SizeExactly(s: seq<byte>)
    ensures DecodeSize(s) == if AllDigits(s) && DecimalValue(s) % 0x1_0000_0000_0000_0000 < 0x7FFF_FFFF_FFFF_FFFF
                             then Some(DecimalValue(s) % 0x1_0000_0000_0000_0000) else None
  {
  }

  // create_header takes a buffer exactly if, in whole blocks, it is more than two blocks larger than the header.
  lemma BufferExactly(fi: FileInfo, o: Options, xname: seq<byte>, name: seq<byte>, len: nat)
    requires MachineInfo(fi) && ArchiveName(name) && |xname| <= 200 && len >= 2048
    ensures FitsBuffer(Records(HeaderParams(fi, o, name)), BlocksizeRound(len) - 1024)
            <==> |EncodeHeader(fi, o, xname, name)| + 1024 < (len + 511) / 512 * 512
  {
    hide Records, HeaderParams, Ustar;
    DataBound(fi, o, name);
  }
}
