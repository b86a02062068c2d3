/**
 Writing the complete header of an archive entry: an 'x' block, the extended header records and a
 ustar block.
 */
module PaxHeader {
  import opened Bytes
  import opened Numerals
  import opened PaxTime
  import opened PaxRecord
  import opened PaxFlags
  import opened TarHeader
  import opened TarBlock

  const ONE_MIB := 1024 * 1024
  // 32767 UTF-16 units become at most three bytes each; "./" and a '/' are added.
  const MAX_NAME := 3 * 32767 + 3

  const KEY_PATH: seq<byte> := [112, 97, 116, 104]
  const KEY_SIZE: seq<byte> := [115, 105, 122, 101]
  const KEY_CTIME: seq<byte> := [99, 116, 105, 109, 101]
  const KEY_MTIME: seq<byte> := [109, 116, 105, 109, 101]
  const KEY_ATIME: seq<byte> := [97, 116, 105, 109, 101]
  const KEY_REALSIZE: seq<byte> := [83, 67, 72, 73, 76, 89, 46, 114, 101, 97, 108, 115, 105, 122, 101]
  const KEY_FFLAGS: seq<byte> := [83, 67, 72, 73, 76, 89, 46, 102, 102, 108, 97, 103, 115]

  datatype FileInfo = FileInfo(size: nat, realsize: nat, attr: Attr, ctime: int, atime: int, mtime: int)

  ghost predicate MachineInfo(fi: FileInfo) {
    && fi.size < UINT64_LIMIT && fi.realsize < UINT64_LIMIT
    && IsFiletime(fi.ctime) && IsFiletime(fi.atime) && IsFiletime(fi.mtime)
  }

  // The UTF-8 name in the archive: not empty, without NUL.
  ghost predicate ArchiveName(name: seq<byte>) {
    0 < |name| <= MAX_NAME && 0 !in name
  }

  function Opt(c: bool, p: Param): seq<Param> {
    if c then [p] else []
  }

  function TimeParam(save: bool, key: seq<byte>, t: int): seq<Param>
    requires IsFiletime(t)
  {
    Opt(save && t != INT64_MAX, Param(key, CodeFiletime(t)))
  }

  function FlagsParam(fi: FileInfo, o: Options): seq<Param> {
    var names := FlagNames(SavedAttr(fi.attr, o));
    Opt(names != [], Param(KEY_FFLAGS, Joined(names)))
  }

  function SizeParams(fi: FileInfo): seq<Param> {
    Opt(fi.size >= OLD_SIZE_LIMIT, Param(KEY_SIZE, Decimal(fi.size)))
    + Opt(fi.realsize != 0, Param(KEY_REALSIZE, Decimal(fi.realsize)))
  }

  // All records but the path.
  function InfoParams(fi: FileInfo, o: Options): seq<Param>
    requires MachineInfo(fi)
  {
    SizeParams(fi) + FlagsParam(fi, o) + TimeParam(true, KEY_MTIME, fi.mtime)
    + TimeParam(o.saveAtime, KEY_ATIME, fi.atime) + TimeParam(o.saveCtime, KEY_CTIME, fi.ctime)
  }

  predicate SevenBit(name: seq<byte>) {
    forall i | 0 <= i < |name| :: name[i] < 128
  }

  predicate NeedsPath(name: seq<byte>, params: seq<Param>) {
    !SevenBit(name) || |name| >= NAME_SIZE || params == []
  }

  // The records of a header; there is always at least one.
  function HeaderParams(fi: FileInfo, o: Options, name: seq<byte>): (ps: seq<Param>)
    requires MachineInfo(fi)
    ensures ps != []
  {
    var ps := InfoParams(fi, o);
    ps + Opt(NeedsPath(name, ps), Param(KEY_PATH, name))
  }

  function Kind(fi: FileInfo): byte {
    if fi.attr.directory then DIRECTORY else NORMAL
  }

  function Padded(data: seq<byte>): (r: seq<byte>)
    ensures |r| == BlocksizeRound(|data|)
  {
    data + Zeros(BlocksizeRound(|data|) - |data|)
  }

  // xname stands for the name of the 'x' block, which nobody reads back.
  function EncodeHeader(fi: FileInfo, o: Options, xname: seq<byte>, name: seq<byte>): (e: seq<byte>)
    requires MachineInfo(fi) && |xname| <= NAME_ROOM
  {
    var data := Records(HeaderParams(fi, o, name));
    Ustar(xname, XHDTYPE, |data|, false, fi.mtime) + Padded(data)
    + Ustar(NameField(name), Kind(fi), fi.size, fi.attr.readonly, fi.mtime)
  }

  predicate FitsBuffer(data: seq<byte>, cap: nat) {
    && BLOCKSIZE + BlocksizeRound(|data|) < ONE_MIB
    && 2 * BLOCKSIZE + BlocksizeRound(|data|) < cap
  }

  // ------------------------------------------------------------------------------------- bounds

  lemma {:induction false} JoinRecords(ps: seq<Param>, qs: seq<Param>)
    ensures Records(ps + qs) == Records(ps) + Records(qs)
  {
    if ps == [] {
      assert ps + qs == qs;
    } else {
      assert (ps + qs)[1..] == ps[1..] + qs;
      JoinRecords(ps[1..], qs);
    }
  }

  lemma OptRecords(ps: seq<Param>, c: bool, p: Param)
    ensures Records(ps + Opt(c, p)) == Records(ps) + if c then Record(p) else []
  {
    if c {
      RecordsAppend(ps, p);
    } else {
      assert ps + [] == ps;
    }
  }

  // A record of at most 99999 bytes has at most five digits in front.
  lemma RecordBound(p: Param)
    requires Payload(p) <= 99_994
    ensures |Record(p)| <= Payload(p) + 5
  {
    RecordSize(p);
    RecordLengthCounts(Payload(p));
    DigitsPow(Payload(p) + 5, 5);
    assert Pow(10, 5) == 100_000;
    var k := Digits(Payload(p) + 1);
    DigitsMonotone(Payload(p) + 1, Payload(p) + 5);
    DigitsMonotone(Payload(p) + k, Payload(p) + 5);
  }

  lemma TimeBound(t: int)
    requires IsFiletime(t)
    ensures |CodeFiletime(t)| <= 29
  {
    RemainderCases(t);
    var sec, n := TruncDiv(t - EPOCH, TICK), CastUint32(TruncMod(t - EPOCH, TICK));
    MachineDigits(if sec < 0 then -sec else sec);
    SevenDigits();
    FractionBound(if n >= BILLION then 0 else n, 7);
  }

  lemma {:induction false} FractionBound(ns: nat, p: nat)
    requires ns < Pow(10, p)
    ensures |Fraction(ns, p)| <= p + 1
  {
    if ns != 0 && ns % 10 == 0 {
      FractionBound(ns / 10, p - 1);
    }
  }

  lemma {:induction false} ListedLength(names: seq<seq<byte>>)
    requires forall n | n in names :: |n| <= 10
    ensures |Joined(names)| <= |Listed(names)| <= 11 * |names|
  {
    if names != [] {
      ListedLength(names[..|names| - 1]);
      assert names[|names| - 1] in names;
    }
  }

  lemma FlagsBound(a: Attr)
    ensures |Joined(FlagNames(a))| <= 88
  {
    hide Joined;
    forall n | n in FlagNames(a) ensures |n| <= 10 {
      FlagMembers(a, n);
    }
    ListedLength(FlagNames(a));
  }

  // No header comes near the limit of one MiB.
  lemma DataBound(fi: FileInfo, o: Options, name: seq<byte>)
    requires MachineInfo(fi) && |name| <= MAX_NAME
    ensures |Records(HeaderParams(fi, o, name))| <= 99_999
  {
    InfoBound(fi, o);
    var ps, p := InfoParams(fi, o), Param(KEY_PATH, name);
    OptRecords(ps, NeedsPath(name, ps), p);
    RecordBound(p);
  }

  lemma InfoBound(fi: FileInfo, o: Options)
    requires MachineInfo(fi)
    ensures |Records(InfoParams(fi, o))| <= 400
  {
    MachineDigits(fi.size);
    MachineDigits(fi.realsize);
    var s, r := Param(KEY_SIZE, Decimal(fi.size)), Param(KEY_REALSIZE, Decimal(fi.realsize));
    var z := Opt(fi.size >= OLD_SIZE_LIMIT, s);
    OptRecords([], fi.size >= OLD_SIZE_LIMIT, s);
    assert [] + z == z;
    OptRecords(z, fi.realsize != 0, r);
    RecordBound(s);
    RecordBound(r);
    OtherBound(fi, o);
  }

  lemma OtherBound(fi: FileInfo, o: Options)
    requires MachineInfo(fi)
    ensures |Records(InfoParams(fi, o))| <= |Records(SizeParams(fi))| + 270
  {
    var names := FlagNames(SavedAttr(fi.attr, o));
    FlagsBound(SavedAttr(fi.attr, o));
    var f := Param(KEY_FFLAGS, Joined(names));
    RecordBound(f);
    var ps := SizeParams(fi);
    OptRecords(ps, names != [], f);
    ps := ps + FlagsParam(fi, o);
    TimeParamBound(ps, true, KEY_MTIME, fi.mtime);
    ps := ps + TimeParam(true, KEY_MTIME, fi.mtime);
    TimeParamBound(ps, o.saveAtime, KEY_ATIME, fi.atime);
    ps := ps + TimeParam(o.saveAtime, KEY_ATIME, fi.atime);
    TimeParamBound(ps, o.saveCtime, KEY_CTIME, fi.ctime);
  }

  lemma TimeParamBound(ps: seq<Param>, save: bool, key: seq<byte>, t: int)
    requires IsFiletime(t) && |key| == 5
    ensures |Records(ps + TimeParam(save, key, t))| <= |Records(ps)| + 42
  {
    TimeBound(t);
    var p := Param(key, CodeFiletime(t));
    OptRecords(ps, save && t != INT64_MAX, p);
    RecordBound(p);
  }

  // --------------------------------------------------------------------------- the imperative form

  // The header under construction holds the records ps and has not reached its capacity.
  ghost predicate Building(xh: XHeader, ps: seq<Param>)
    reads xh, xh.buf
  {
    xh.Valid() && xh.params == ps && xh.used < xh.cap
  }

  lemma RoundMonotone(m: nat, n: nat)
    requires m <= n
    ensures BlocksizeRound(m) <= BlocksizeRound(n)
  {
  }

  predicate TooLong(ps: seq<Param>, cap: nat) {
    BlocksizeRound(|Records(ps)|) >= cap
  }

  lemma StillTooLong(ps: seq<Param>, qs: seq<Param>, cap: nat)
    requires TooLong(ps, cap)
    ensures TooLong(ps + qs, cap)
  {
    JoinRecords(ps, qs);
    RoundMonotone(|Records(ps)|, |Records(ps)| + |Records(qs)|);
  }

  // After calls with the outcome hr for the records ps; the block in front stays clear.
  ghost predicate Outcome(xh: XHeader, hr: bool, ps: seq<Param>)
    reads xh, xh.buf
  {
    && BLOCKSIZE <= xh.buf.Length && xh.buf[..BLOCKSIZE] == Zeros(BLOCKSIZE)
    && if hr then Building(xh, ps) else TooLong(ps, xh.cap)
  }

  // One conditional call of add_param_str.
  method AddIf(xh: XHeader, c: bool, p: Param, ghost ps: seq<Param>) returns (ok: bool)
    requires Outcome(xh, true, ps) && (c ==> Payload(p) + 11 < UINT32_LIMIT)
    modifies xh, xh.buf
    ensures Outcome(xh, ok, ps + Opt(c, p))
  {
    hide Records;
    if c {
      RecordsAppend(ps, p);
      ghost var front := xh.buf[..BLOCKSIZE];
      assert xh.pos == |Records(ps)|;
      ok := xh.AddParamStr(p);
      assert xh.buf[..BLOCKSIZE] == front;
    } else {
      assert ps + Opt(c, p) == ps;
      ok := true;
    }
  }

  // hr is the outcome of the calls so far; after a failure nothing more is added.
  method AddNext(xh: XHeader, hr: bool, c: bool, p: Param, ghost ps: seq<Param>) returns (ok: bool)
    requires Outcome(xh, hr, ps) && (c ==> Payload(p) + 11 < UINT32_LIMIT)
    modifies xh, xh.buf
    ensures Outcome(xh, ok, ps + Opt(c, p))
  {
    ok := false;
    if hr {
      ok := AddIf(xh, c, p, ps);
    } else {
      StillTooLong(ps, Opt(c, p), xh.cap);
    }
  }

  method AddTime(xh: XHeader, hr: bool, save: bool, key: seq<byte>, t: int, ghost ps: seq<Param>) returns (ok: bool)
    requires Outcome(xh, hr, ps)
    requires IsFiletime(t) && |key| == 5
    modifies xh, xh.buf
    ensures Outcome(xh, ok, ps + TimeParam(save, key, t))
  {
    var nbuf, start, len := WriteFiletime(t);
    TimeBound(t);
    ok := AddNext(xh, hr, save && t != INT64_MAX, Param(key, nbuf[start..start + len]), ps);
  }

  method AddNumber(xh: XHeader, hr: bool, c: bool, key: seq<byte>, v: nat, ghost ps: seq<Param>) returns (ok: bool)
    requires Outcome(xh, hr, ps)
    requires v < UINT64_LIMIT && |key| < 16
    modifies xh, xh.buf
    ensures Outcome(xh, ok, ps + Opt(c, Param(key, Decimal(v))))
  {
    var nbuf := new byte[32];
    var start, len := ToDecimal(v, nbuf, 32);
    ok := AddNext(xh, hr, c, Param(key, nbuf[start..start + len]), ps);
  }

  method AddFlags(xh: XHeader, hr: bool, fi: FileInfo, o: Options, ghost ps: seq<Param>) returns (ok: bool)
    requires Outcome(xh, hr, ps)
    modifies xh, xh.buf
    ensures Outcome(xh, ok, ps + FlagsParam(fi, o))
  {
    var text := FlagText(SavedAttr(fi.attr, o));
    FlagsBound(SavedAttr(fi.attr, o));
    JoinedEmpty(SavedAttr(fi.attr, o));
    ok := AddNext(xh, hr, text != [], Param(KEY_FFLAGS, text), ps);
  }

  lemma JoinedEmpty(a: Attr)
    ensures Joined(FlagNames(a)) == [] <==> FlagNames(a) == []
  {
    var names := FlagNames(a);
    if names != [] {
      var n := names[|names| - 1];
      assert n in names;
      FlagMembers(a, n);
      assert n != [];
    }
  }

  method AddSizes(xh: XHeader, fi: FileInfo) returns (ok: bool)
    requires Outcome(xh, true, []) && fi.size < UINT64_LIMIT && fi.realsize < UINT64_LIMIT
    modifies xh, xh.buf
    ensures Outcome(xh, ok, SizeParams(fi))
  {
    ghost var ps := Opt(fi.size >= OLD_SIZE_LIMIT, Param(KEY_SIZE, Decimal(fi.size)));
    assert [] + ps == ps;
    ok := AddNumber(xh, true, fi.size >= OLD_SIZE_LIMIT, KEY_SIZE, fi.size, []);
    ok := AddNumber(xh, ok, fi.realsize != 0, KEY_REALSIZE, fi.realsize, ps);
  }

  method AddTimes(xh: XHeader, hr: bool, fi: FileInfo, o: Options, ghost ps: seq<Param>) returns (ok: bool)
    requires Outcome(xh, hr, ps) && MachineInfo(fi)
    modifies xh, xh.buf
    ensures Outcome(xh, ok, ps + TimeParam(true, KEY_MTIME, fi.mtime) + TimeParam(o.saveAtime, KEY_ATIME, fi.atime)
                            + TimeParam(o.saveCtime, KEY_CTIME, fi.ctime))
  {
    ok := AddTime(xh, hr, true, KEY_MTIME, fi.mtime, ps);
    ghost var qs := ps + TimeParam(true, KEY_MTIME, fi.mtime);
    ok := AddTime(xh, ok, o.saveAtime, KEY_ATIME, fi.atime, qs);
    qs := qs + TimeParam(o.saveAtime, KEY_ATIME, fi.atime);
    ok := AddTime(xh, ok, o.saveCtime, KEY_CTIME, fi.ctime, qs);
  }

  method AddPath(xh: XHeader, hr: bool, name: seq<byte>, ghost ps: seq<Param>) returns (ok: bool)
    requires Outcome(xh, hr, ps) && ArchiveName(name)
    modifies xh, xh.buf
    ensures Outcome(xh, ok, ps + Opt(NeedsPath(name, ps), Param(KEY_PATH, name)))
  {
    if !hr {
      StillTooLong(ps, Opt(NeedsPath(name, ps), Param(KEY_PATH, name)), xh.cap);
      return false;
    }
    RecordsEmpty(ps);
    var path := !SevenBit(name) || |name| >= NAME_SIZE || xh.pos == 0;
    ok := AddNext(xh, hr, path, Param(KEY_PATH, name), ps);
  }

  // The calls of add_param_str in create_header.
  method AddParams(xh: XHeader, fi: FileInfo, o: Options, name: seq<byte>) returns (ok: bool)
    requires Outcome(xh, true, []) && MachineInfo(fi) && ArchiveName(name)
    modifies xh, xh.buf
    ensures Outcome(xh, ok, HeaderParams(fi, o, name))
  {
    ok := AddSizes(xh, fi);
    ok := AddFlags(xh, ok, fi, o, SizeParams(fi));
    ok := AddTimes(xh, ok, fi, o, SizeParams(fi) + FlagsParam(fi, o));
    ok := AddPath(xh, ok, name, InfoParams(fi, o));
  }

  lemma RecordsEmpty(ps: seq<Param>)
    ensures |Records(ps)| == 0 <==> ps == []
  {
  }

  // create_header, from the name in UTF-8 on.  It fails exactly if the header does not fit.
  method CreateHeader(fi: FileInfo, o: Options, xname: seq<byte>, name: seq<byte>, buf: array<byte>)
    returns (size: Option<nat>)
    requires MachineInfo(fi) && ArchiveName(name) && |xname| <= NAME_ROOM
    requires buf.Length >= 4 * BLOCKSIZE
    modifies buf
    ensures size.Some? <==> FitsBuffer(Records(HeaderParams(fi, o, name)), BlocksizeRound(buf.Length) - 2 * BLOCKSIZE)
    ensures size.Some? ==> size.value <= buf.Length && buf[..size.value] == EncodeHeader(fi, o, xname, name)
  {
    hide Ustar, Padded, HeaderParams;
    var xh := new XHeader(buf);
    var ok := AddParams(xh, fi, o, name);
    ghost var ps := HeaderParams(fi, o, name);
    RoundMonotone(1, |Records(ps)|);
    if !ok || BLOCKSIZE + xh.used >= ONE_MIB || BLOCKSIZE + xh.used + BLOCKSIZE >= xh.cap {
      return None;
    }
    FinishHeader(buf, xh.pos, xh.used, ps, fi, xname, name);
    size := Some(2 * BLOCKSIZE + xh.used);
  }

  method FinishHeader(buf: array<byte>, pos: nat, used: nat, ghost ps: seq<Param>,
                      fi: FileInfo, xname: seq<byte>, name: seq<byte>)
    requires 2 * BLOCKSIZE + used <= buf.Length && |xname| <= NAME_ROOM
    requires buf[..BLOCKSIZE] == Zeros(BLOCKSIZE) && used == BlocksizeRound(pos) && Holds(buf[..], used, pos, ps)
    modifies buf
    ensures buf[..2 * BLOCKSIZE + used]
            == Ustar(xname, XHDTYPE, |Records(ps)|, false, fi.mtime) + Padded(Records(ps))
               + Ustar(NameField(name), Kind(fi), fi.size, fi.attr.readonly, fi.mtime)
  {
    hide Ustar, Kind, NameField, Records;
    ghost var x := Ustar(xname, XHDTYPE, pos, false, fi.mtime);
    WriteX(buf, pos, used, ps, fi, xname);
    ghost var b := buf[..];
    WriteUstar(buf, BLOCKSIZE + used, NameField(name), Kind(fi), fi.size, fi.attr.readonly, fi.mtime);
    JoinSlices(b, BLOCKSIZE, BLOCKSIZE + used);
    JoinSlices(buf[..], BLOCKSIZE + used, 2 * BLOCKSIZE + used);
  }

  // The 'x' block is finished and the block behind the records cleared.
  method WriteX(buf: array<byte>, pos: nat, used: nat, ghost ps: seq<Param>, fi: FileInfo, xname: seq<byte>)
    requires 2 * BLOCKSIZE + used <= buf.Length && |xname| <= NAME_ROOM
    requires buf[..BLOCKSIZE] == Zeros(BLOCKSIZE) && used == BlocksizeRound(pos) && Holds(buf[..], used, pos, ps)
    modifies buf
    ensures buf[..BLOCKSIZE] == Ustar(xname, XHDTYPE, |Records(ps)|, false, fi.mtime)
    ensures buf[BLOCKSIZE..BLOCKSIZE + used] == Padded(Records(ps))
    ensures buf[BLOCKSIZE + used..2 * BLOCKSIZE + used] == Zeros(BLOCKSIZE)
  {
    ghost var part := buf[BLOCKSIZE..BLOCKSIZE + used];
    assert buf[0..BLOCKSIZE] == buf[..BLOCKSIZE];
    WriteUstar(buf, 0, xname, XHDTYPE, pos, false, fi.mtime);
    ghost var b := buf[..];
    SliceOfDrop(b, BLOCKSIZE, BLOCKSIZE, BLOCKSIZE + used);
    assert b[BLOCKSIZE..BLOCKSIZE + used] == part;
    ClearBlock(buf, BLOCKSIZE + used);
    SliceOfTake(b, BLOCKSIZE + used, BLOCKSIZE, BLOCKSIZE + used);
    SliceOfTake(buf[..], BLOCKSIZE + used, BLOCKSIZE, BLOCKSIZE + used);
    SliceOfTake(b, BLOCKSIZE + used, 0, BLOCKSIZE);
    SliceOfTake(buf[..], BLOCKSIZE + used, 0, BLOCKSIZE);
  }

  method ClearBlock(buf: array<byte>, off: nat)
    requires off + BLOCKSIZE <= buf.Length
    modifies buf
    ensures buf[..off] == old(buf[..off]) && buf[off..off + BLOCKSIZE] == Zeros(BLOCKSIZE)
  {
    forall i | 0 <= i < BLOCKSIZE {
      buf[off + i] := 0;
    }
  }

  lemma JoinSlices(b: seq<byte>, m: nat, n: nat)
    requires m <= n <= |b|
    ensures b[..n] == b[..m] + b[m..n]
  {
  }
}
