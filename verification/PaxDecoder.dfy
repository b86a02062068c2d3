/**
 Reading an archive header: add_header for the first and the last block, parse_header for the
 fields of the ustar block and the records of the extended header.
 */
module PaxDecoder {
  import opened Bytes
  import opened Numerals
  import opened PaxTime
  import opened PaxRecord
  import opened PaxParser
  import opened PaxFlags
  import opened TarHeader
  import opened TarBlock
  import opened PaxHeader

  const HARDLINK: byte := 49 // '1'
  const SYMLINK: byte := 50  // '2'
  const FIFO: byte := 54     // '6'
  const REGULAR: byte := 0

  const NO_INFO := FileInfo(0, 0, NO_ATTR, 0, 0, 0)

  predicate IgnoresSize(kind: byte) {
    kind == HARDLINK || kind == SYMLINK || kind == DIRECTORY || kind == FIFO
  }

  // What a decoder knows after its calls so far; the name as bytes.
  datatype Decoded = Decoded(format: Format, paxType: byte, paxSize: nat, kind: byte, headerSize: nat,
                             name: seq<byte>, info: FileInfo)

  function KindOf(h: seq<byte>): byte
    requires |h| == BLOCKSIZE
  {
    if h[TYPE_OFF] == 0 then NORMAL else h[TYPE_OFF]
  }

  function SizeOf(h: seq<byte>): nat
    requires |h| == BLOCKSIZE
  {
    DecodeOctal(h[SIZE_OFF..SIZE_OFF + 12])
  }

  // The first call of add_header; None for every error.
  function FirstHeader(h: seq<byte>): Option<Decoded>
    requires |h| == BLOCKSIZE
  {
    match CheckTarHeader(h)
    case None => None
    case Some(format) =>
      var kind, size := KindOf(h), SizeOf(h);
      if kind == XHDTYPE || kind == LONGLINK || kind == LONGNAME then
        if size == 0 || size >= ONE_MIB then None
        else Some(Decoded(format, kind, size, REGULAR, 2 * BLOCKSIZE + BlocksizeRound(size), [], NO_INFO))
      else Some(Decoded(format, REGULAR, 0, kind, BLOCKSIZE, [], NO_INFO))
  }

  predicate Sized(d: Decoded) {
    d.headerSize >= BLOCKSIZE && (d.paxType != REGULAR ==> d.headerSize == 2 * BLOCKSIZE + BlocksizeRound(d.paxSize))
  }

  function LastBlock(d: Decoded, b: seq<byte>): (h: seq<byte>)
    requires BLOCKSIZE <= d.headerSize <= |b|
    ensures |h| == BLOCKSIZE
  {
    b[d.headerSize - BLOCKSIZE..d.headerSize]
  }

  // The second call, when the whole header is in the buffer.
  function SecondHeader(d: Decoded, b: seq<byte>): Option<Decoded>
    requires Sized(d)
  {
    if |b| < d.headerSize then None
    else
      var h := LastBlock(d, b);
      if CheckTarHeader(h).None? then None
      else
        var kind := KindOf(h);
        Some(d.(kind := kind, info := if IgnoresSize(kind) then d.info else d.info.(size := SizeOf(h))))
  }

  // The bytes in front of the first NUL.
  function Terminated(s: seq<byte>): (r: seq<byte>)
    ensures r <= s && 0 !in r && (|r| < |s| ==> s[|r|] == 0)
  {
    if s == [] || s[0] == 0 then [] else [s[0]] + Terminated(s[1..])
  }

  function NameOf(h: seq<byte>): seq<byte>
    requires |h| == BLOCKSIZE
  {
    if h[NAME_SIZE - 1] == 0 then Terminated(h[..NAME_SIZE]) else h[..NAME_SIZE]
  }

  // None of the bits 0222 is set.
  predicate NoWriteBits(mode: nat) {
    mode / 128 % 2 == 0 && mode / 16 % 2 == 0 && mode / 2 % 2 == 0
  }

  function AttrOf(a: Attr, kind: byte, mode: nat): Attr {
    a.(readonly := a.readonly || NoWriteBits(mode), directory := a.directory || kind == DIRECTORY,
    normal := a.normal || kind == NORMAL)
  }

  // The fields of the ustar block.
  function BlockInfo(d: Decoded, h: seq<byte>): Decoded
    requires |h| == BLOCKSIZE
  {
    var time := DecodeOctal(h[MTIME_OFF..MTIME_OFF + 12]) * TICK + EPOCH;
    var attr := AttrOf(d.info.attr, d.kind, DecodeOctal(h[MODE_OFF..MODE_OFF + 8]));
    d.(name := NameOf(h),
    info := FileInfo(if IgnoresSize(d.kind) then d.info.size else SizeOf(h), d.info.realsize, attr, time,
                     d.info.atime, time))
  }

  function DecodeSize(s: seq<byte>): Option<nat> {
    match DecodeDecimal(s)
    case None => None
    case Some(v) => if v >= INT64_MAX then None else Some(v)
  }

  // parse_pax_param.
  function ApplyParam(d: Decoded, p: Param): Option<Decoded> {
    if p.key == KEY_PATH then Some(d.(name := p.value))
    else if p.key == KEY_SIZE then
      if IgnoresSize(d.kind) then Some(d)
      else
        match DecodeSize(p.value)
        case None => None
        case Some(v) => Some(d.(info := d.info.(size := v)))
    else if p.key == KEY_REALSIZE then
      match DecodeSize(p.value)
      case None => None
      case Some(v) => Some(d.(info := d.info.(realsize := v)))
    else if p.key == KEY_CTIME || p.key == KEY_MTIME || p.key == KEY_ATIME then
      match DecodeEpochTime(p.value)
      case None => None
      case Some(t) => Some(d.(info := SetTime(d.info, p.key, t)))
    else if p.key == KEY_FFLAGS then Some(d.(info := d.info.(attr := SetFlags(d.info.attr, Split(p.value)))))
    else Some(d)
  }

  function SetTime(info: FileInfo, key: seq<byte>, t: int): FileInfo {
    if key == KEY_CTIME then info.(ctime := t)
    else if key == KEY_MTIME then info.(mtime := t)
    else info.(atime := t)
  }

  function ApplyAll(d: Decoded, ps: seq<Param>): Option<Decoded>
    decreases |ps|
  {
    if ps == [] then Some(d)
    else
      match ApplyParam(d, ps[0])
      case None => None
      case Some(d') => ApplyAll(d', ps[1..])
  }

  // parse_pax_header.
  function ApplyText(d: Decoded, s: seq<byte>): Option<Decoded> {
    match ParseAll(s)
    case None => None
    case Some(ps) => ApplyAll(d, ps)
  }

  // The text of the records behind an 'x' block.
  function HeaderText(d: Decoded, b: seq<byte>): seq<byte>
    requires Sized(d) && d.headerSize <= |b|
  {
    if d.paxType == XHDTYPE then b[BLOCKSIZE..BLOCKSIZE + d.paxSize] else []
  }

  function ReadParts(d: Decoded, h: seq<byte>, text: seq<byte>): Option<Decoded>
    requires |h| == BLOCKSIZE
  {
    if d.paxType != XHDTYPE then Some(BlockInfo(d, h))
    else if d.paxSize == 0 then None
    else ApplyText(BlockInfo(d, h), text)
  }

  // parse_header on a whole header.
  function ReadHeader(d: Decoded, b: seq<byte>): Option<Decoded>
    requires Sized(d) && d.headerSize <= |b|
  {
    ReadParts(d, LastBlock(d, b), HeaderText(d, b))
  }

  // --------------------------------------------------------------------------- the imperative form

  // check_tar_header.
  method CheckHeader(h: seq<byte>) returns (r: Option<Format>)
    requires |h| == BLOCKSIZE
    ensures r == CheckTarHeader(h)
  {
    var posix, gnu := h[261..265] == [114, 0, 48, 48], h[261..265] == [114, 32, 32, 0];
    if h[MAGIC_OFF..261] != MAGIC[..4] || (!posix && !gnu) || !IsOctal(h[CHKSUM_OFF]) {
      return None;
    }
    var hr := ReadTarCksum(h);
    if hr != 1 {
      return None;
    }
    if posix {
      r := Some(Ustar1988);
      if h[TYPE_OFF] == XHDTYPE || h[TYPE_OFF] == XGLTYPE {
        r := Some(Posix);
      } else if h[475] == 0 && IsOctal(h[476]) && h[487] == 32 && IsOctal(h[488]) && h[499] == 32 {
        r := Some(Star);
      }
    } else {
      r := Some(OldGnu);
      if h[MODE_OFF] == 48 && h[MODE_OFF + 1] == 48 && h[MODE_OFF + 2] == 48 {
        r := Some(Gnu);
      }
      assert h[MODE_OFF..MODE_OFF + 3] == [h[MODE_OFF], h[MODE_OFF + 1], h[MODE_OFF + 2]];
    }
  }

  // The decoder after the first record of s.
  function Step(d: Decoded, s: seq<byte>): (r: Option<Decoded>)
    ensures r.Some? ==> ParseOne(s).Good?
  {
    match ParseOne(s)
    case Bad => None
    case Good(p, _) => if p.value == [] then Some(d) else ApplyParam(d, p)
  }

  // Reading the records one by one is the same as reading all of them first.
  lemma OneRecord(d: Decoded, s: seq<byte>, b: seq<byte>, str: nat, end: nat)
    returns (step: Option<Decoded>, d': Decoded, t: seq<byte>)
    requires str < end <= |b| && s == b[str..end]
    ensures step == Step(d, s)
    ensures step.None? ==> ApplyText(d, s) == None
    ensures step.Some? ==>
              && 0 < ParseOne(s).size <= |s|
              && d' == step.value && t == b[str + ParseOne(s).size..end]
              && ApplyText(d', t) == ApplyText(d, s)
  {
    step, d', t := Step(d, s), d, s;
    ParseAdvances(s);
    if step.Some? {
      var p, size := ParseOne(s).param, ParseOne(s).size;
      d', t := step.value, s[size..];
      SliceOfSlice(b, str, end, size, end - str);
    }
    if ParseOne(s).Good? {
      var p, rest := ParseOne(s).param, ParseAll(s[ParseOne(s).size..]);
      if rest.Some? {
        assert ([p] + rest.value)[1..] == rest.value;
      }
    }
  }

  // Only the path sets the name.
  lemma NameIrrelevant(d: Decoded, name: seq<byte>, p: Param)
    requires p.key != KEY_PATH
    ensures var r, r' := ApplyParam(d, p), ApplyParam(d.(name := name), p);
            && (r.Some? <==> r'.Some?)
            && (r.Some? ==> r'.value == r.value.(name := name))
  {
  }

  class PaxDecode {
    var buf: array?<byte>
    var format: Format
    var paxType: byte
    var paxSize: nat
    var kind: byte
    var headerSize: nat
    var nameOff: nat
    var nameLen: nat
    var info: FileInfo

    ghost predicate Valid()
      reads this
    {
      if buf == null then
        Fields() == Decoded(format, REGULAR, 0, REGULAR, 0, [], NO_INFO) && nameOff == nameLen == 0
      else
        nameOff + nameLen <= headerSize && Sized(Fields())
    }

    ghost predicate Loaded()
      reads this
    {
      Valid() && buf != null && headerSize <= buf.Length
    }

    // The decoder without the name.
    function Fields(): Decoded
      reads this
    {
      Decoded(format, paxType, paxSize, kind, headerSize, [], info)
    }

    function View(): Decoded
      requires Loaded()
      reads this, buf
    {
      Fields().(name := buf[nameOff..nameOff + nameLen])
    }

    constructor ()
      ensures Valid() && buf == null
    {
      buf := null;
      format := OldGnu;
      paxType, paxSize, kind, headerSize, nameOff, nameLen := REGULAR, 0, REGULAR, 0, 0, 0;
      info := NO_INFO;
    }

    method Clear()
      modifies this
      ensures Valid() && buf == null
    {
      buf := null;
      format := OldGnu;
      paxType, paxSize, kind, headerSize, nameOff, nameLen := REGULAR, 0, REGULAR, 0, 0, 0;
      info := NO_INFO;
    }

    // The branch of add_header for the first block.
    method AddFirst(b: array<byte>, size: nat) returns (ok: bool)
      requires Valid() && buf == null && size <= b.Length
      modifies this
      ensures ok <==> size >= BLOCKSIZE && FirstHeader(b[..BLOCKSIZE]).Some?
      ensures ok ==> Valid() && buf == b && Fields() == FirstHeader(b[..BLOCKSIZE]).value && nameLen == 0
    {
      hide CheckTarHeader, BlocksizeRound;
      if size < BLOCKSIZE {
        return false;
      }
      buf := b;
      var h := b[..BLOCKSIZE];
      var f := CheckHeader(h);
      if f.None? {
        return false;
      }
      format := f.value;
      kind := if h[TYPE_OFF] == 0 then NORMAL else h[TYPE_OFF];
      headerSize := BLOCKSIZE;
      var dataSize := DecodeOctalField(h[SIZE_OFF..SIZE_OFF + 12]);
      if kind == XHDTYPE || kind == LONGLINK || kind == LONGNAME {
        if dataSize == 0 || dataSize >= ONE_MIB {
          return false;
        }
        paxSize := dataSize;
        headerSize := headerSize + BlocksizeRound(paxSize);
        paxType := kind;
        kind := REGULAR;
        headerSize := headerSize + BLOCKSIZE;
      }
      ok := true;
    }

    // The branch of add_header for the whole header.
    method AddSecond(b: array<byte>, size: nat) returns (ok: bool)
      requires Valid() && buf != null && size <= b.Length
      modifies this`kind, this`info
      ensures ok <==> buf == b && SecondHeader(old(Fields()), b[..size]).Some?
      ensures ok ==> Valid() && Fields() == SecondHeader(old(Fields()), b[..size]).value
    {
      hide CheckTarHeader;
      if buf != b || size < headerSize {
        return false;
      }
      var h := b[headerSize - BLOCKSIZE..headerSize];
      PrefixSlice(b, size, headerSize - BLOCKSIZE, headerSize);
      var f := CheckHeader(h);
      if f.None? {
        return false;
      }
      kind := if h[TYPE_OFF] == 0 then NORMAL else h[TYPE_OFF];
      var dataSize := DecodeOctalField(h[SIZE_OFF..SIZE_OFF + 12]);
      if !IgnoresSize(kind) {
        info := info.(size := dataSize);
      }
      ok := true;
    }

    method AddHeader(b: array<byte>, size: nat) returns (ok: bool)
      requires Valid() && size <= b.Length
      modifies this
      ensures old(buf) == null ==>
                && (ok <==> size >= BLOCKSIZE && FirstHeader(b[..BLOCKSIZE]).Some?)
                && (ok ==> buf == b && Fields() == FirstHeader(b[..BLOCKSIZE]).value)
      ensures old(buf) != null ==>
                && (ok <==> old(buf) == b && SecondHeader(old(Fields()), b[..size]).Some?)
                && (ok ==> buf == b && Fields() == SecondHeader(old(Fields()), b[..size]).value)
      ensures ok ==> Valid() && (old(buf) == null || old(nameLen) == 0 ==> nameLen == 0)
    {
      if buf == null {
        ok := AddFirst(b, size);
      } else {
        ok := AddSecond(b, size);
      }
    }

    method ReadName(b: array<byte>, off: nat)
      requires off + BLOCKSIZE <= b.Length
      modifies this`nameOff, this`nameLen
      ensures off == nameOff && nameLen <= NAME_SIZE
      ensures b[nameOff..nameOff + nameLen] == NameOf(b[off..off + BLOCKSIZE])
    {
      var h := b[off..off + NAME_SIZE];
      nameOff := off;
      nameLen := NAME_SIZE;
      ghost var block := b[off..off + BLOCKSIZE];
      assert block[..NAME_SIZE] == h;
      if h[NAME_SIZE - 1] == 0 {
        nameLen := 0;
        while h[nameLen] != 0
          invariant nameLen < NAME_SIZE && 0 !in h[..nameLen]
          invariant nameOff == off
          decreases NAME_SIZE - nameLen
        {
          nameLen := nameLen + 1;
        }
        TerminatedAt(h, nameLen);
      }
      assert b[nameOff..nameOff + nameLen] == h[..nameLen];
    }

    method ReadAttr(mode: nat) returns (attr: Attr)
      ensures attr == AttrOf(info.attr, kind, mode)
    {
      attr := info.attr;
      if NoWriteBits(mode) {
        attr := attr.(readonly := true);
      }
      if kind == DIRECTORY {
        attr := attr.(directory := true);
      }
      if kind == NORMAL {
        attr := attr.(normal := true);
      }
    }

    method ReadInfo(h: seq<byte>)
      requires |h| == BLOCKSIZE
      modifies this`info
      ensures Fields() == BlockInfo(old(Fields()), h).(name := [])
    {
      var mode := DecodeOctalField(h[MODE_OFF..MODE_OFF + 8]);
      var attr := ReadAttr(mode);
      var size := info.size;
      if !IgnoresSize(kind) {
        size := DecodeOctalField(h[SIZE_OFF..SIZE_OFF + 12]);
      }
      var seconds := DecodeOctalField(h[MTIME_OFF..MTIME_OFF + 12]);
      info := info.(attr := attr, size := size, mtime := seconds * TICK + EPOCH, ctime := seconds * TICK + EPOCH);
    }

    // The fields of the ustar block.
    method ReadBlock(b: array<byte>, ghost d: Decoded, ghost h: seq<byte>)
      requires Loaded() && buf == b && View() == d && h == b[headerSize - BLOCKSIZE..headerSize]
      modifies this`nameOff, this`nameLen, this`info
      ensures Loaded() && View() == BlockInfo(d, h)
    {
      var off := headerSize - BLOCKSIZE;
      ReadName(b, off);
      ReadInfo(b[off..headerSize]);
    }

    // The branches of parse_pax_param for numbers, times and flags.
    method ParseInfoParam(key: seq<byte>, str: seq<byte>) returns (ok: bool)
      requires key != KEY_PATH
      modifies this`info
      ensures ok <==> ApplyParam(old(Fields()), Param(key, str)).Some?
      ensures ok ==> Fields() == ApplyParam(old(Fields()), Param(key, str)).value
    {
      ok := true;
      if key == KEY_SIZE {
        if !IgnoresSize(kind) {
          var v := DecodeDecimal64(str);
          if v.None? || v.value >= INT64_MAX {
            return false;
          }
          info := info.(size := v.value);
        }
      } else if key == KEY_REALSIZE {
        var v := DecodeDecimal64(str);
        if v.None? || v.value >= INT64_MAX {
          return false;
        }
        info := info.(realsize := v.value);
      } else if key == KEY_CTIME || key == KEY_MTIME || key == KEY_ATIME {
        var v := ReadEpochTime(str);
        if v.None? {
          return false;
        }
        info := SetTime(info, key, v.value);
      } else if key == KEY_FFLAGS {
        var a := ParseFlags(str, info.attr);
        info := info.(attr := a);
      }
    }

    // parse_pax_param; the value of p lies at off in the buffer.
    method ParsePaxParam(b: array<byte>, key: seq<byte>, off: nat, len: nat, ghost d: Decoded, ghost p: Param)
      returns (ok: bool)
      requires Loaded() && buf == b && View() == d
      requires off + len <= headerSize && p.key == key && p.value == b[off..off + len]
      modifies this`nameOff, this`nameLen, this`info
      ensures ok <==> ApplyParam(d, p).Some?
      ensures ok ==> Loaded() && View() == ApplyParam(d, p).value
    {
      if key == KEY_PATH {
        nameOff, nameLen := off, len;
        ok := true;
      } else {
        NameIrrelevant(Fields(), b[nameOff..nameOff + nameLen], p);
        ok := ParseInfoParam(key, b[off..off + len]);
      }
    }

    // One round of the loop of parse_pax_header.
    method ParseRecord(b: array<byte>, str: nat, end: nat, ghost bytes: seq<byte>, ghost d: Decoded,
                       ghost s: seq<byte>, ghost step: Option<Decoded>)
      returns (ok: bool, next: nat)
      requires Loaded() && buf == b && View() == d && step == Step(d, s)
      requires BLOCKSIZE <= str < end <= headerSize && bytes == b[..] && s == bytes[str..end]
      modifies this`nameOff, this`nameLen, this`info
      ensures ok <==> step.Some?
      ensures ok ==> next == str + ParseOne(s).size <= end
      ensures ok ==> Loaded() && View() == step.value
    {
      next := end;
      ArraySlice(b, bytes, str, end);
      var r := ReadRecord(b[str..end]);
      if r.Bad? {
        return false, end;
      }
      var p, size := r.param, r.size;
      next, ok := str + size, true;
      ghost var place := ValuePlace(bytes, str, end, s, p, size);
      if p.value != [] {
        var off := next - 1 - |p.value|;
        ArraySlice(b, bytes, place, place + |p.value|);
        assert off == place;
        ok := ParsePaxParam(b, p.key, off, |p.value|, d, p);
      }
    }

    // A round takes the parser one step towards the goal.
    method ParseStep(b: array<byte>, str: nat, end: nat, ghost bytes: seq<byte>, ghost d: Decoded,
                     ghost s: seq<byte>, ghost goal: Option<Decoded>)
      returns (ok: bool, next: nat, ghost d': Decoded, ghost t: seq<byte>)
      requires Loaded() && buf == b && View() == d && goal == ApplyText(d, s)
      requires BLOCKSIZE <= str < end <= headerSize && bytes == b[..] && s == bytes[str..end]
      modifies this`nameOff, this`nameLen, this`info
      ensures !ok ==> goal.None?
      ensures ok ==> Loaded() && View() == d' && goal == ApplyText(d', t)
      ensures ok ==> str < next <= end && t == bytes[next..end]
    {
      ghost var step, d1, t1 := OneRecord(d, s, bytes, str, end);
      ok, next := ParseRecord(b, str, end, bytes, d, s, step);
      d', t := d1, t1;
    }

    // parse_pax_header.
    method ParsePaxHeader(b: array<byte>, ghost d: Decoded, ghost s: seq<byte>, ghost goal: Option<Decoded>)
      returns (ok: bool)
      requires Loaded() && buf == b && View() == d && paxType == XHDTYPE && goal == ApplyText(d, s)
      requires s == b[BLOCKSIZE..BLOCKSIZE + paxSize]
      modifies this`nameOff, this`nameLen, this`info
      ensures ok <==> goal.Some?
      ensures ok ==> Loaded() && View() == goal.value
    {
      var str, end := BLOCKSIZE, BLOCKSIZE + paxSize;
      ghost var e, rest, bytes := d, s, b[..];
      while str < end
        invariant Loaded() && buf == b && View() == e
        invariant BLOCKSIZE <= str <= end <= headerSize && bytes == b[..] && rest == bytes[str..end]
        invariant goal == ApplyText(e, rest)
      {
        ok, str, e, rest := ParseStep(b, str, end, bytes, e, rest, goal);
        if !ok {
          return;
        }
      }
      ok := true;
    }

    // parse_header.
    method ParseHeader(b: array<byte>, ghost d: Decoded, ghost h: seq<byte>, ghost text: seq<byte>)
      returns (ok: bool)
      requires Loaded() && buf == b && View() == d
      requires h == LastBlock(d, b[..]) && text == HeaderText(d, b[..])
      modifies this`nameOff, this`nameLen, this`info
      ensures ok <==> ReadParts(d, h, text).Some?
      ensures ok ==> Loaded() && View() == ReadParts(d, h, text).value
    {
      ReadBlock(b, d, h);
      ok := true;
      if paxType == XHDTYPE {
        if paxSize == 0 {
          return false;
        }
        ok := ParsePaxHeader(b, BlockInfo(d, h), text, ApplyText(BlockInfo(d, h), text));
      }
    }
  }

  lemma {:induction false} TerminatedAt(s: seq<byte>, n: nat)
    requires n < |s| && 0 !in s[..n] && s[n] == 0
    ensures Terminated(s) == s[..n]
  {
    if n > 0 {
      assert s[0] == s[..n][0] && s[1..][..n - 1] == s[..n][1..];
      TerminatedAt(s[1..], n - 1);
    }
  }

  // The value of a record ends in front of its last byte.
  lemma PrefixSlice(b: array<byte>, size: nat, lo: nat, hi: nat)
    requires lo <= hi <= size <= b.Length
    ensures b[lo..hi] == b[..size][lo..hi]
  {
  }

  lemma ArraySlice(b: array<byte>, bytes: seq<byte>, lo: nat, hi: nat)
    requires lo <= hi <= b.Length && bytes == b[..]
    ensures b[lo..hi] == bytes[lo..hi]
  {
  }

  // Where the value of a record lies.
  lemma ValuePlace(b: seq<byte>, str: nat, end: nat, s: seq<byte>, p: Param, size: nat) returns (off: nat)
    requires str <= end <= |b| && s == b[str..end] && ParseOne(s) == Good(p, size)
    ensures off == str + size - 1 - |p.value| && str < off + |p.value| < str + size <= end
    ensures b[off..off + |p.value|] == p.value
  {
    ParseAdvances(s);
    off := str + size - 1 - |p.value|;
    assert s[size - 1 - |p.value|..size - 1] == p.value;
    SliceOfSlice(b, str, end, size - 1 - |p.value|, size - 1);
  }

  // decode_epoch_time.
  method ReadEpochTime(s: seq<byte>) returns (r: Option<int>)
    ensures r == DecodeEpochTime(s)
  {
    var t := ReadTime(s);
    match t
    case None => r := None;
    case Some((sec, nsec)) => r := Some(WrapInt64(sec * TICK + nsec + EPOCH));
  }
}
