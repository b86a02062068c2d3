/**
 scan_pax_file: the loop over the headers of an uncompressed archive, with the decoder and the index as
 it uses them.
 */
module ArchiveScan {
  import opened Bytes
  import opened Numerals
  import opened PaxTime
  import opened PaxRecord
  import opened PaxParser
  import opened PaxFlags
  import opened TarHeader
  import opened TarBlock
  import opened PaxHeader
  import opened PaxDecoder
  import opened CacheItem
  import opened CacheStore
  import opened CacheWalk
  import opened ScanLoop
  import opened Archive

  // --------------------------------------------------------------------- all values fit into an item

  ghost predicate InfoOk(info: FileInfo) {
    && info.size < UINT64_LIMIT && info.realsize < UINT64_LIMIT
    && IsInt64(info.ctime) && IsInt64(info.mtime)
  }

  lemma WrapFits(x: int)
    ensures IsInt64(WrapInt64(x))
  {
  }

  lemma ParamFits(d: Decoded, p: Param)
    requires InfoOk(d.info)
    ensures ApplyParam(d, p).Some? ==> var e := ApplyParam(d, p).value; InfoOk(e.info) && e.headerSize == d.headerSize
  {
    if p.key == KEY_CTIME || p.key == KEY_MTIME || p.key == KEY_ATIME {
      match DecodeTime(p.value) {
        case None =>
        case Some((sec, nsec)) => WrapFits(sec * TICK + nsec + EPOCH);
      }
    }
  }

  lemma {:induction false} ParamsFit(d: Decoded, ps: seq<Param>)
    requires InfoOk(d.info)
    ensures ApplyAll(d, ps).Some? ==> var e := ApplyAll(d, ps).value; InfoOk(e.info) && e.headerSize == d.headerSize
    decreases |ps|
  {
    if ps != [] {
      ParamFits(d, ps[0]);
      if ApplyParam(d, ps[0]).Some? {
        ParamsFit(ApplyParam(d, ps[0]).value, ps[1..]);
      }
    }
  }

  lemma BlockFits(d: Decoded, h: seq<byte>)
    requires |h| == BLOCKSIZE && InfoOk(d.info)
    ensures InfoOk(BlockInfo(d, h).info)
  {
    OctalFieldsFit(h[SIZE_OFF..SIZE_OFF + 12]);
    var s := h[MTIME_OFF..MTIME_OFF + 12];
    OctalValueBound(0, s);
    assert Pow(8, 12) == 68719476736;
  }

  lemma HeaderFitsItem(d: Decoded, b: seq<byte>)
    requires Sized(d) && d.headerSize <= |b| && InfoOk(d.info)
    ensures ReadHeader(d, b).Some? ==> var p := ReadHeader(d, b).value; InfoOk(p.info) && p.headerSize == d.headerSize
  {
    var h := LastBlock(d, b);
    BlockFits(d, h);
    var e := BlockInfo(d, h);
    if d.paxType == XHDTYPE && d.paxSize > 0 {
      var s := b[BLOCKSIZE..BLOCKSIZE + d.paxSize];
      if ParseAll(s).Some? {
        ParamsFit(e, ParseAll(s).value);
      }
    }
  }

  lemma AttrFits(a: Attr)
    ensures AttrBits(a) < UINT32_LIMIT
  {
  }

  // --------------------------------------------------------------------------------- add_pax_info

  lemma {:induction false} UpToNulAt(w: seq<wchar>, n: nat)
    requires n <= |w| && 0 !in w[..n] && (n < |w| ==> w[n] == 0)
    ensures UpToNul(w) == w[..n]
  {
    if n > 0 {
      assert w[0] == w[..n][0] && w[1..][..n - 1] == w[..n][1..];
      UpToNulAt(w[1..], n - 1);
    }
  }

  // The name up to its NUL, with the slashes replaced in place.
  method NameInIndex(w: seq<wchar>) returns (name: seq<wchar>)
    ensures name == BackSlashed(UpToNul(w))
  {
    var a := new wchar[|w|](i requires 0 <= i < |w| => w[i]);
    var k := 0;
    while k < a.Length && a[k] != 0
      invariant k <= a.Length == |w| && 0 !in w[..k]
      invariant a[..k] == BackSlashed(w[..k]) && forall j | k <= j < |w| :: a[j] == w[j]
    {
      assert w[..k + 1] == w[..k] + [w[k]];
      ghost var front := a[..k];
      if a[k] == SLASH {
        a[k] := BACKSLASH;
      }
      assert a[..k + 1] == front + [a[k]];
      k := k + 1;
    }
    UpToNulAt(w, k);
    name := a[..k];
  }

  lemma NewItemOk(d: Decoded, name: seq<wchar>, pos: nat, hdrPackSize: nat, total: nat)
    requires InfoOk(d.info) && 0 < |name| < 65536 && d.headerSize < UINT32_LIMIT
    requires pos < UINT64_LIMIT && hdrPackSize < UINT32_LIMIT && total < UINT64_LIMIT
    ensures ItemOk(NewItem(d, name, pos, hdrPackSize, total))
  {
    AttrFits(d.info.attr);
  }

  // Only the header counts, not what lies behind it in the buffer.
  lemma ReadHeaderPrefix(d: Decoded, b: seq<byte>, h: seq<byte>)
    requires Sized(d) && d.headerSize == |h| <= |b| && b[..|h|] == h
    ensures ReadHeader(d, b) == ReadHeader(d, h)
  {
    var n := |h|;
    SliceOfTake(b, n, n - BLOCKSIZE, n);
    if d.paxType == XHDTYPE {
      SliceOfTake(b, n, BLOCKSIZE, BLOCKSIZE + d.paxSize);
    }
    SameParts(d, b, h);
  }

  lemma SameParts(d: Decoded, b: seq<byte>, h: seq<byte>)
    requires Sized(d) && d.headerSize <= |h| && d.headerSize <= |b|
    requires LastBlock(d, b) == LastBlock(d, h) && HeaderText(d, b) == HeaderText(d, h)
    ensures ReadHeader(d, b) == ReadHeader(d, h)
  {
  }

  lemma LengthUpToNul(w: seq<wchar>)
    ensures |UpToNul(w)| <= |w|
  {
  }

  // The block of add_pax_info that adds the file.
  method AddFile(widen: Widen, name: seq<byte>, p: Decoded, pos: nat, hdrPackSize: nat, total: nat, c: Cache)
    returns (ok: bool, ghost items: seq<Item>)
    requires c.Valid() && InfoOk(p.info) && p.headerSize < UINT32_LIMIT
    requires pos < UINT64_LIMIT && hdrPackSize < UINT32_LIMIT && total < UINT64_LIMIT
    modifies c, c.repr
    ensures c.Valid() && fresh(c.repr - old(c.repr))
    ensures ok <==> var s := Stripped(name);
                    s == [] || (widen(s) != [] && |widen(s)| < NAME_CAPACITY - 32 && UpToNul(widen(s)) != [])
    ensures ok ==> items == if Stripped(name) == [] then []
                            else [NewItem(p, BackSlashed(UpToNul(widen(Stripped(name)))), pos, hdrPackSize, total)]
    ensures ok ==> c.Records() == old(c.Records()) + Imaged(items)
  {
    items := [];
    var s := Stripped(name);
    if s == [] {
      return true, [];
    }
    var w := widen(s);
    if w == [] || |w| >= NAME_CAPACITY - 32 {
      return false, [];
    }
    LengthUpToNul(w);
    var n := NameInIndex(w);
    if n == [] {
      return false, [];
    }
    NewItemOk(p, n, pos, hdrPackSize, total);
    var i := NewItem(p, n, pos, hdrPackSize, total);
    c.AddItem(i);
    ImagedOne(i);
    ok, items := true, [i];
  }

  // parse_header of a header h at the start of the buffer.
  method ParseHeader(pax: PaxDecode, buf: array<byte>, ghost d: Decoded, ghost h: seq<byte>) returns (ok: bool)
    requires pax.Loaded() && pax.buf == buf && pax.View() == d
    requires |h| == d.headerSize && buf[..|h|] == h && InfoOk(d.info)
    modifies pax`nameOff, pax`nameLen, pax`info
    ensures ok <==> ReadHeader(d, h).Some?
    ensures ok ==> pax.Loaded() && Some(pax.View()) == ReadHeader(d, h)
    ensures ok ==> InfoOk(pax.info)
  {
    ReadHeaderPrefix(d, buf[..], h);
    HeaderFitsItem(d, h);
    ok := pax.ParseHeader(buf, d, LastBlock(d, buf[..]), HeaderText(d, buf[..]));
  }

  lemma AddedParsed(widen: Widen, d: Decoded, h: seq<byte>, p: Decoded, pos: nat, hdrPackSize: nat, total: nat,
                    isFileDir: bool)
    requires Sized(d) && d.headerSize <= |h| && d.format == Posix && ReadHeader(d, h) == Some(p)
    requires isFileDir <==> d.kind == NORMAL || d.kind == DIRECTORY
    requires isFileDir || d.info.size == OLD_SIZE_LIMIT
    ensures AddPaxInfo(widen, d, h, pos, hdrPackSize, total) == Added(widen, isFileDir, p, pos, hdrPackSize, total)
  {
  }

  // The part of add_pax_info behind parse_header.
  method AddParsed(widen: Widen, pax: PaxDecode, buf: array<byte>, ghost p: Decoded, pos: nat, hdrPackSize: nat,
                   total: nat, c: Cache, ghost goal: Option<(Decoded, seq<Item>)>)
    returns (ok: bool, ghost items: seq<Item>)
    requires pax.Loaded() && pax.buf == buf && pax.View() == p
    requires goal == Added(widen, true, p, pos, hdrPackSize, total)
    requires InfoOk(p.info) && p.headerSize < UINT32_LIMIT && hdrPackSize < UINT32_LIMIT
    requires pos < UINT64_LIMIT && total < UINT64_LIMIT && c.Valid() && buf !in c.repr && pax !in c.repr
    modifies c, c.repr
    ensures c.Valid() && fresh(c.repr - old(c.repr)) && buf[..] == old(buf[..])
    ensures pax.Loaded() && pax.View() == p
    ensures ok <==> goal.Some?
    ensures ok ==> goal == Some((p, items))
    ensures ok ==> c.Records() == old(c.Records()) + Imaged(items)
  {
    hide Cache.Valid;
    var name := buf[pax.nameOff..pax.nameOff + pax.nameLen];
    assert name == p.name;
    ok, items := AddFile(widen, name, pax.View(), pos, hdrPackSize, total, c);
  }

  // The part of add_pax_info in front of the name: whether it goes on, and whether a file is added.
  method Inspect(widen: Widen, pax: PaxDecode, buf: array<byte>, ghost d: Decoded, ghost h: seq<byte>,
                 ghost pos: nat, ghost hdrPackSize: nat, ghost total: nat, ghost goal: Option<(Decoded, seq<Item>)>)
    returns (ok: bool, add: bool)
    requires pax.Loaded() && pax.buf == buf && pax.View() == d
    requires |h| == d.headerSize && buf[..|h|] == h && InfoOk(d.info)
    requires goal == AddPaxInfo(widen, d, h, pos, hdrPackSize, total)
    modifies pax`nameOff, pax`nameLen, pax`info
    ensures !ok ==> goal == None
    ensures ok ==> pax.Loaded() && InfoOk(pax.info)
    ensures ok ==>
              goal == if add then Added(widen, true, pax.View(), pos, hdrPackSize, total) else Some((pax.View(), []))
  {
    ok, add := false, false;
    if pax.format == Posix {
      add := pax.kind == NORMAL || pax.kind == DIRECTORY;
      ok := true;
      if add || pax.info.size == OLD_SIZE_LIMIT {
        ok := ParseHeader(pax, buf, d, h);
        if ok {
          AddedParsed(widen, d, h, pax.View(), pos, hdrPackSize, total, add);
        }
      }
    }
  }

  // add_pax_info.
  method AddInfo(widen: Widen, pax: PaxDecode, buf: array<byte>, ghost d: Decoded, ghost h: seq<byte>,
                 pos: nat, hdrPackSize: nat, total: nat, c: Cache, ghost goal: Option<(Decoded, seq<Item>)>)
    returns (ok: bool, ghost items: seq<Item>)
    requires pax.Loaded() && pax.buf == buf && pax.View() == d
    requires |h| == d.headerSize && buf[..|h|] == h && InfoOk(d.info)
    requires d.headerSize < UINT32_LIMIT && hdrPackSize < UINT32_LIMIT
    requires pos < UINT64_LIMIT && total < UINT64_LIMIT && c.Valid() && buf !in c.repr && pax !in c.repr
    requires goal == AddPaxInfo(widen, d, h, pos, hdrPackSize, total)
    modifies pax`nameOff, pax`nameLen, pax`info, c, c.repr
    ensures c.Valid() && fresh(c.repr - old(c.repr)) && buf[..] == old(buf[..])
    ensures ok <==> goal.Some?
    ensures ok ==> pax.Loaded() && goal == Some((pax.View(), items))
    ensures ok ==> c.Records() == old(c.Records()) + Imaged(items)
  {
    hide AddPaxInfo, ReadHeader, Cache.Valid;
    items := [];
    var add;
    ok, add := Inspect(widen, pax, buf, d, h, pos, hdrPackSize, total, goal);
    if ok && add {
      ok, items := AddParsed(widen, pax, buf, pax.View(), pos, hdrPackSize, total, c, goal);
    }
  }

  // --------------------------------------------------------------------------------- the main loop

  const OCTAL_LIMIT := 68719476736 // eight to the power of twelve

  lemma SmallSize(h: seq<byte>)
    requires |h| == BLOCKSIZE
    ensures SizeOf(h) < OCTAL_LIMIT
  {
    OctalValueBound(0, h[SIZE_OFF..SIZE_OFF + 12]);
    assert Pow(8, 12) == OCTAL_LIMIT;
  }

  // In front of parse_header all numbers are small.
  ghost predicate Small(d: Decoded) {
    d.info == NO_INFO.(size := d.info.size) && d.info.size < OCTAL_LIMIT && d.headerSize < SCAN_BUFFER
  }

  lemma HeaderIsSmall(file: seq<byte>, pos: nat)
    requires pos + BLOCKSIZE <= |file|
    ensures HeaderAt(file, pos).Some? ==> Small(HeaderAt(file, pos).value) && HeaderAt(file, pos).value.name == []
  {
    var first := FirstHeader(file[pos..pos + BLOCKSIZE]);
    if first.Some? {
      var d := first.value;
      if BLOCKSIZE < d.headerSize <= |file| - pos {
        SmallSize(LastBlock(d, file[pos..pos + d.headerSize]));
      }
    }
  }

  // ReadFile at a position into the buffer.
  method ReadFile(file: seq<byte>, pos: nat, n: nat, buf: array<byte>, at: nat)
    requires pos + n <= |file| && at + n <= buf.Length
    modifies buf
    ensures buf[at..at + n] == file[pos..pos + n] && buf[..at] == old(buf[..at])
  {
    forall i | 0 <= i < n {
      buf[at + i] := file[pos + i];
    }
  }

  lemma TwoReads(file: seq<byte>, pos: nat, m: nat, n: nat, b: seq<byte>)
    requires m <= n && pos + n <= |file| && n <= |b|
    requires b[..m] == file[pos..pos + m] && b[m..n] == file[pos + m..pos + n]
    ensures b[..n] == file[pos..pos + n]
  {
    assert b[..n] == b[..m] + b[m..n];
    assert file[pos..pos + n] == file[pos..pos + m] + file[pos + m..pos + n];
  }

  // The second call of add_header, after the rest of the header was read.
  method ReadRest(file: seq<byte>, pos: nat, buf: array<byte>, pax: PaxDecode, ghost d: Decoded,
                  ghost goal: Option<Decoded>) returns (ok: bool)
    requires pax.Valid() && pax.buf == buf && pax.nameLen == 0 && pax.Fields() == d && Sized(d)
    requires BLOCKSIZE < d.headerSize <= buf.Length && pos + d.headerSize <= |file|
    requires buf[..BLOCKSIZE] == file[pos..pos + BLOCKSIZE]
    requires goal == SecondHeader(d, file[pos..pos + d.headerSize])
    modifies pax, buf
    ensures ok <==> goal.Some?
    ensures ok ==> pax.Loaded() && pax.buf == buf && pax.nameLen == 0 && Some(pax.Fields()) == goal
    ensures ok ==> buf[..d.headerSize] == file[pos..pos + d.headerSize]
  {
    var n := pax.headerSize;
    ReadFile(file, pos + BLOCKSIZE, n - BLOCKSIZE, buf, BLOCKSIZE);
    TwoReads(file, pos, BLOCKSIZE, n, buf[..]);
    ok := pax.AddHeader(buf, n);
  }

  // What the first block leaves to do.
  ghost predicate Leads(file: seq<byte>, pos: nat, first: Option<Decoded>, goal: Option<Decoded>) {
    && (first == None ==> goal == None)
    && (first.Some? && first.value.headerSize <= BLOCKSIZE ==> goal == first)
    && (first.Some? && first.value.headerSize > BLOCKSIZE ==>
          && Sized(first.value)
          && goal == if first.value.headerSize >= SCAN_BUFFER || |file| - pos < first.value.headerSize then None
                     else SecondHeader(first.value, file[pos..pos + first.value.headerSize]))
  }

  lemma HeaderLeads(file: seq<byte>, pos: nat, first: Option<Decoded>)
    requires pos + BLOCKSIZE <= |file| && first == FirstHeader(file[pos..pos + BLOCKSIZE])
    ensures Leads(file, pos, first, HeaderAt(file, pos))
  {
  }

  // The calls of add_header; the first block is already in the buffer.
  method ReadHeaders(file: seq<byte>, pos: nat, buf: array<byte>, pax: PaxDecode, ghost first: Option<Decoded>,
                     ghost goal: Option<Decoded>) returns (ok: bool)
    requires pax.Valid() && pax.buf == null && buf.Length == SCAN_BUFFER + 2 * BLOCKSIZE
    requires pos + BLOCKSIZE <= |file| && buf[..BLOCKSIZE] == file[pos..pos + BLOCKSIZE]
    requires first == FirstHeader(buf[..BLOCKSIZE]) && Leads(file, pos, first, goal)
    modifies pax, buf
    ensures ok <==> goal.Some?
    ensures ok ==> pax.Loaded() && pax.buf == buf && pax.nameLen == 0 && Some(pax.Fields()) == goal
    ensures ok ==> pos + pax.headerSize <= |file| && buf[..pax.headerSize] == file[pos..pos + pax.headerSize]
  {
    ok := pax.AddHeader(buf, BLOCKSIZE);
    if ok && pax.headerSize > BLOCKSIZE {
      if pax.headerSize >= SCAN_BUFFER || |file| - pos < pax.headerSize {
        return false;
      }
      ok := ReadRest(file, pos, buf, pax, first.value, goal);
    }
  }

  // check_tar_is_zero.
  method CheckZero(h: seq<byte>) returns (zero: bool)
    ensures zero <==> IsZero(h)
  {
    var i := 0;
    while i < |h|
      invariant i <= |h| && forall j | 0 <= j < i :: h[j] == 0
    {
      if h[i] != 0 {
        return false;
      }
      i := i + 1;
    }
    zero := true;
  }

  // What a round of the loop came to.
  datatype Outcome = Failed | Done(end: nat) | Next(next: nat)

  ghost predicate Matches(r: Outcome, items: seq<Item>, goal: Found<Item>) {
    match r
    case Failed => goal == Broken
    case Done(end) => goal == End(end)
    case Next(next) => goal == More(items, next)
  }

  // The place behind the content.
  method SkipContent(file: seq<byte>, pos: nat, size: nat, ghost p: Decoded, ghost items: seq<Item>) returns (next: nat)
    requires pos <= |file| && p.info.size == size
    ensures Behind(file, pos, Some((p, items))) == More(items, next)
  {
    next := pos;
    if size != 0 {
      next := next + BlocksizeRound(size);
      if next >= |file| {
        next := |file|;
      }
    }
  }

  // add_pax_info for the header in the buffer.
  method AddEntry(widen: Widen, file: seq<byte>, pos: nat, total: nat, buf: array<byte>, pax: PaxDecode, c: Cache,
                  ghost d: Decoded, ghost h: seq<byte>, ghost added: Option<(Decoded, seq<Item>)>)
    returns (ok: bool, ghost items: seq<Item>)
    requires pax.Loaded() && pax.buf == buf && pax.View() == d && Small(d) && |h| == d.headerSize
    requires |file| < INT64_MAX && pos + |h| <= |file| && buf[..|h|] == h == file[pos..pos + |h|]
    requires c.Valid() && buf !in c.repr && pax !in c.repr && Sized(d) && BLOCKSIZE <= |h|
    requires total == d.headerSize + BlocksizeRound(d.info.size) && added == InfoAt(widen, file, pos, Some(d))
    modifies pax`nameOff, pax`nameLen, pax`info, c, c.repr
    ensures c.Valid() && fresh(c.repr - old(c.repr))
    ensures ok <==> added.Some?
    ensures ok ==> pax.Loaded() && added == Some((pax.View(), items))
    ensures ok ==> c.Records() == old(c.Records()) + Imaged(items)
  {
    hide AddPaxInfo, Cache.Valid;
    InfoIs(widen, file, pos, h, d, total);
    ok, items := AddInfo(widen, pax, buf, d, h, pos, 0, total, c, added);
  }

  // The part of a round behind the header.
  method ScanContent(widen: Widen, file: seq<byte>, pos: nat, buf: array<byte>, pax: PaxDecode, c: Cache,
                     ghost d: Decoded, ghost h: seq<byte>, ghost added: Option<(Decoded, seq<Item>)>,
                     ghost goal: Found<Item>)
    returns (r: Outcome, ghost items: seq<Item>)
    requires pax.Loaded() && pax.buf == buf && pax.View() == d && Small(d) && |h| == d.headerSize
    requires |file| < INT64_MAX && pos + |h| <= |file| && buf[..|h|] == h == file[pos..pos + |h|]
    requires c.Valid() && buf !in c.repr && pax !in c.repr && Sized(d) && BLOCKSIZE <= |h|
    requires added == InfoAt(widen, file, pos, Some(d)) && goal == Behind(file, pos + d.headerSize, added)
    modifies pax`nameOff, pax`nameLen, pax`info, c, c.repr
    ensures c.Valid() && fresh(c.repr - old(c.repr)) && Matches(r, items, goal)
    ensures !r.Failed? ==> c.Records() == old(c.Records()) + Imaged(items)
    ensures !r.Done?
  {
    hide AddPaxInfo, InfoAt, Cache.Valid;
    var n := pax.headerSize;
    var total := n + BlocksizeRound(pax.info.size);
    var ok;
    ok, items := AddEntry(widen, file, pos, total, buf, pax, c, d, h, added);
    r := Failed;
    if ok {
      assert n == d.headerSize;
      var next := SkipContent(file, pos + n, pax.info.size, pax.View(), items);
      assert goal == More(items, next);
      r := Next(next);
    }
  }

  // What one round has to do: a header found at pos, what is added for it and the outcome of the round.
  ghost predicate RoundLeads(widen: Widen, file: seq<byte>, pos: nat, first: Option<Decoded>, header: Option<Decoded>,
                             added: Option<(Decoded, seq<Item>)>, goal: Found<Item>)
    requires pos + BLOCKSIZE <= |file|
  {
    && Leads(file, pos, first, header)
    && (header.Some? ==> Small(header.value) && header.value.name == [])
    && HeaderFits(file, pos, header)
    && added == InfoAt(widen, file, pos, header) && goal == ScanEntry(file, pos, header, added)
  }

  lemma RoundGoal(widen: Widen, file: seq<byte>, pos: nat, goal: Found<Item>)
    returns (first: Option<Decoded>, header: Option<Decoded>, added: Option<(Decoded, seq<Item>)>)
    requires pos <= |file| && goal == ScanOne(widen, file, pos)
    ensures |file| - pos < BLOCKSIZE ==> goal == End(pos)
    ensures |file| - pos >= BLOCKSIZE ==>
              if IsZero(file[pos..pos + BLOCKSIZE]) then goal == End(pos + BLOCKSIZE)
              else
                && first == FirstHeader(file[pos..pos + BLOCKSIZE])
                && RoundLeads(widen, file, pos, first, header, added, goal)
  {
    first, header, added := None, None, None;
    if |file| - pos >= BLOCKSIZE {
      first, header := FirstHeader(file[pos..pos + BLOCKSIZE]), HeaderAt(file, pos);
      HeaderLeads(file, pos, first);
      HeaderIsSmall(file, pos);
      HeaderAtFits(file, pos);
      added := InfoAt(widen, file, pos, header);
    }
  }

  // A round behind the check for a zero block.
  method ScanHeader(widen: Widen, file: seq<byte>, pos: nat, buf: array<byte>, pax: PaxDecode, c: Cache,
                    ghost first: Option<Decoded>, ghost header: Option<Decoded>,
                   ghost added: Option<(Decoded, seq<Item>)>, ghost goal: Found<Item>)
    returns (r: Outcome, ghost items: seq<Item>)
    requires pax.Valid() && pax.buf == null && buf.Length == SCAN_BUFFER + 2 * BLOCKSIZE && |file| < INT64_MAX
    requires pos + BLOCKSIZE <= |file| && buf[..BLOCKSIZE] == file[pos..pos + BLOCKSIZE]
    requires first == FirstHeader(buf[..BLOCKSIZE]) && RoundLeads(widen, file, pos, first, header, added, goal)
    requires c.Valid() && buf !in c.repr && pax !in c.repr
    modifies pax, buf, c, c.repr
    ensures c.Valid() && fresh(c.repr - old(c.repr)) && buf !in c.repr && pax !in c.repr
    ensures Matches(r, items, goal) && !r.Done?
    ensures !r.Failed? ==> c.Records() == old(c.Records()) + Imaged(items)
  {
    hide HeaderAt, FirstHeader, InfoAt, Small, Cache.Valid;
    r, items := Failed, [];
    var ok := ReadHeaders(file, pos, buf, pax, first, header);
    if ok {
      ghost var d := header.value;
      assert pax.View() == d;
      r, items := ScanContent(widen, file, pos, buf, pax, c, d, file[pos..pos + d.headerSize], added, goal);
    }
  }

  // The first block of a round, and whether it is all zero.
  method ReadBlock(file: seq<byte>, pos: nat, buf: array<byte>, pax: PaxDecode) returns (zero: bool)
    requires pos + BLOCKSIZE <= |file| && buf.Length == SCAN_BUFFER + 2 * BLOCKSIZE
    modifies pax, buf
    ensures pax.Valid() && pax.buf == null && buf[..BLOCKSIZE] == file[pos..pos + BLOCKSIZE]
    ensures zero <==> IsZero(file[pos..pos + BLOCKSIZE])
  {
    pax.Clear();
    ReadFile(file, pos, BLOCKSIZE, buf, 0);
    assert buf[..BLOCKSIZE] == buf[0..BLOCKSIZE] == file[pos..pos + BLOCKSIZE];
    zero := CheckZero(buf[..BLOCKSIZE]);
  }

  // One round of scan_pax_file.
  method ScanRound(widen: Widen, file: seq<byte>, pos: nat, buf: array<byte>, pax: PaxDecode, c: Cache,
                   ghost first: Option<Decoded>, ghost header: Option<Decoded>,
                   ghost added: Option<(Decoded, seq<Item>)>, ghost goal: Found<Item>)
    returns (r: Outcome, ghost items: seq<Item>)
    requires pos <= |file| < INT64_MAX && buf.Length == SCAN_BUFFER + 2 * BLOCKSIZE
    requires c.Valid() && buf !in c.repr && pax !in c.repr
    requires |file| - pos < BLOCKSIZE ==> goal == End(pos)
    requires |file| - pos >= BLOCKSIZE ==>
               if IsZero(file[pos..pos + BLOCKSIZE]) then goal == End(pos + BLOCKSIZE)
               else
                 && first == FirstHeader(file[pos..pos + BLOCKSIZE])
                 && RoundLeads(widen, file, pos, first, header, added, goal)
    modifies pax, buf, c, c.repr
    ensures c.Valid() && fresh(c.repr - old(c.repr)) && buf !in c.repr && pax !in c.repr
    ensures Matches(r, items, goal) && (r.Done? ==> items == [])
    ensures !r.Failed? ==> c.Records() == old(c.Records()) + Imaged(items)
  {
    hide RoundLeads, FirstHeader, Cache.Valid;
    r, items := Done(pos), [];
    if |file| - pos >= BLOCKSIZE {
      var zero := ReadBlock(file, pos, buf, pax);
      if zero {
        r := Done(pos + BLOCKSIZE);
      } else {
        r, items := ScanHeader(widen, file, pos, buf, pax, c, first, header, added, goal);
      }
    }
  }

  // One round, and what it leaves of the whole scan.
  method ScanMore(widen: Widen, file: seq<byte>, pos: nat, buf: array<byte>, pax: PaxDecode, c: Cache,
                  ghost round: nat -> Found<Item>, ghost found: seq<Item>, ghost goal: Option<(seq<Item>, nat)>)
    returns (r: Outcome, ghost items: seq<Item>)
    requires pos <= |file| < INT64_MAX && buf.Length == SCAN_BUFFER + 2 * BLOCKSIZE
    requires c.Valid() && buf !in c.repr && pax !in c.repr && round == Rounds(widen, file)
    requires goal == Prefixed(found, Loop(round, |file|, pos))
    modifies pax, buf, c, c.repr
    ensures c.Valid() && fresh(c.repr - old(c.repr)) && buf !in c.repr && pax !in c.repr
    ensures match r
            case Failed => goal == None
            case Done(end) => goal == Some((found, end)) && items == []
            case Next(next) => pos < next <= |file| && goal == Prefixed(found + items, Loop(round, |file|, next))
    ensures !r.Failed? ==> c.Records() == old(c.Records()) + Imaged(items)
  {
    hide ScanOne, RoundLeads, Cache.Valid;
    ghost var one := ScanOne(widen, file, pos);
    assert round(pos) == one;
    ghost var first, header, added := RoundGoal(widen, file, pos, one);
    r, items := ScanRound(widen, file, pos, buf, pax, c, first, header, added, one);
    if r.Next? {
      LoopStep(round, |file|, pos, found, items, r.next);
    } else {
      assert found + [] == found;
    }
  }

  lemma RecordsGrow(was: seq<seq<byte>>, found: seq<Item>, items: seq<Item>)
    ensures was + Imaged(found) + Imaged(items) == was + Imaged(found + items)
    ensures found + [] == found
  {
    ImagedAppend(found, items);
    var x, y := Imaged(found), Imaged(items);
    assert was + x + y == was + (x + y);
  }

  // scan_pax_file, behind the check of the format; the end of the data is m_end.
  method ScanPaxFile(widen: Widen, file: seq<byte>, c: Cache) returns (end: Option<nat>)
    requires c.Valid() && |file| < INT64_MAX
    modifies c, c.repr
    ensures c.Valid() && fresh(c.repr - old(c.repr))
    ensures var goal := Loop(Rounds(widen, file), |file|, 0);
            match end
            case None => goal == None
            case Some(e) => goal.Some? && goal.value.1 == e && c.Records() == old(c.Records()) + Imaged(goal.value.0)
  {
    hide ScanOne, Cache.Valid;
    var buf := new byte[SCAN_BUFFER + 2 * BLOCKSIZE](_ => 0);
    var pax := new PaxDecode();
    ghost var round := Rounds(widen, file);
    ghost var goal := Loop(round, |file|, 0);
    ghost var found, was: seq<seq<byte>> := [], c.Records();
    PrefixedNothing(goal);
    var pos, r := 0, Next(0);
    while r.Next?
      invariant pos <= |file| && (r.Next? ==> r.next == pos)
      invariant c.Valid() && fresh(c.repr - old(c.repr)) && buf !in c.repr && pax !in c.repr
      invariant match r
                case Failed => goal == None
                case Done(end) => goal == Some((found, end))
                case Next(_) => goal == Prefixed(found, Loop(round, |file|, pos))
      invariant !r.Failed? ==> c.Records() == was + Imaged(found)
      decreases |file| - pos, if r.Next? then 1 else 0
    {
      ghost var items;
      r, items := ScanMore(widen, file, pos, buf, pax, c, round, found, goal);
      if !r.Failed? {
        RecordsGrow(was, found, items);
        found := found + items;
      }
      if r.Next? {
        pos := r.next;
      }
    }
    end := if r.Done? then Some(r.end) else None;
  }
}
