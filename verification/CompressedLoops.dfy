/**
 The scanners of compressed archives as they move through the file: the position, the packed sizes and the
 file pointer are updated one by one, and are proved to stay in step.
 */
module CompressedLoops {
  import opened Bytes
  import opened PaxRecord
  import opened PaxDecoder
  import opened CacheItem
  import opened CacheStore
  import opened CacheWalk
  import opened ScanLoop
  import opened Archive
  import opened ArchiveScan
  import opened ZstdWalk
  import opened ZstdFrame
  import opened CompressedScan

  // -------------------------------------------------------------------------------------- the header

  lemma HeaderInIsSmall(h: seq<byte>, exact: bool)
    ensures HeaderIn(h, exact).Some? ==>
              var d := HeaderIn(h, exact).value;
              && InfoOk(d.info) && BLOCKSIZE <= d.headerSize < UINT32_LIMIT && d.headerSize <= |h|
              && d.name == [] && Sized(d) && d.info.size < UINT64_LIMIT
  {
    if |h| >= BLOCKSIZE && FirstHeader(h[..BLOCKSIZE]).Some? {
      var d := FirstHeader(h[..BLOCKSIZE]).value;
      if BLOCKSIZE < d.headerSize <= |h| {
        SmallSize(LastBlock(d, h));
      }
    }
  }

  // The calls of add_header on the text of a header frame.
  method DecodeHeader(pax: PaxDecode, dst: array<byte>, exact: bool, ghost h: seq<byte>, ghost goal: Option<Decoded>)
    returns (ok: bool)
    requires h == dst[..] && goal == HeaderIn(h, exact)
    modifies pax
    ensures ok <==> goal.Some?
    ensures ok ==> pax.Loaded() && pax.buf == dst && pax.View() == goal.value
  {
    HeaderInIsSmall(h, exact);
    pax.Clear();
    if dst.Length >= BLOCKSIZE {
      assert dst[..BLOCKSIZE] == h[..BLOCKSIZE];
    }
    assert dst[..dst.Length] == h;
    ok := pax.AddHeader(dst, dst.Length);
    if ok && pax.headerSize > BLOCKSIZE {
      if exact && pax.headerSize != dst.Length {
        return false;
      }
      ok := pax.AddHeader(dst, dst.Length);
    }
  }

  // What add_pax_info needs of the header in front of everything else in its buffer.
  lemma PrefixCounts(widen: Widen, d: Decoded, h: seq<byte>, pos: nat, n: nat, total: nat) returns (front: seq<byte>)
    requires Sized(d) && d.headerSize <= |h|
    ensures front == h[..d.headerSize]
    ensures AddPaxInfo(widen, d, front, pos, n, total) == AddPaxInfo(widen, d, h, pos, n, total)
  {
    front := h[..d.headerSize];
    ReadHeaderPrefix(d, h, front);
  }

  // What reading an entry leaves in the decoder, and in the buffer with the text of its header.
  ghost predicate Holds(ok: bool, pax: PaxDecode, dst: array<byte>, n: nat, total: nat, read: Read)
    reads pax, dst
  {
    if ok then
      && pax.Loaded() && pax.buf == dst && read == Reads(pax.View(), dst[..], n, total)
      && InfoOk(pax.info) && pax.headerSize < UINT32_LIMIT
    else read == Fails
  }

  // The end of a round, with the position next behind the entry.
  method Keep(widen: Widen, pax: PaxDecode, dst: array<byte>, pos: nat, n: nat, total: nat, next: nat, c: Cache,
              ghost read: Read)
    returns (r: Outcome, ghost items: seq<Item>)
    requires Holds(true, pax, dst, n, total, read) && next == pos + total
    requires pos < UINT64_LIMIT && n < UINT32_LIMIT && total < UINT64_LIMIT
    requires c.Valid() && dst !in c.repr && pax !in c.repr
    modifies pax`nameOff, pax`nameLen, pax`info, c, c.repr
    ensures c.Valid() && fresh(c.repr - old(c.repr)) && Matches(r, items, RoundOf(widen, pos, read))
    ensures r == Failed || r == Next(next)
    ensures r.Next? ==> c.Records() == old(c.Records()) + Imaged(items)
  {
    hide AddPaxInfo, Cache.Valid, InfoOk;
    ghost var d, h := read.d, read.h;
    ghost var front := PrefixCounts(widen, d, h, pos, n, total);
    assert dst[..|front|] == front;
    var ok;
    ok, items := AddInfo(widen, pax, dst, d, front, pos, n, total, c, AddPaxInfo(widen, d, front, pos, n, total));
    r := if ok then Next(next) else Failed;
  }

  // --------------------------------------------------------------------------------------------- LZ4

  // frame_info.init: the header as the library sees it, and the first block header behind it.
  method ReadLz4Info(z: Lz4, b: seq<byte>) returns (f: Option<Lz4Frame>)
    ensures f == InitLz4(z, b)
  {
    var info := z.parse(b);
    if info.None? || info.value.headerSize + 4 > |b| {
      return None;
    }
    var i := info.value;
    var blkSize := At(b, i.headerSize, 4);
    var contentSize, dataSize, compressed := i.contentSize, blkSize, false;
    if i.skippable {
      contentSize := blkSize;
    } else {
      if blkSize / UNCOMPRESSED % 2 == 1 {
        dataSize := blkSize % UNCOMPRESSED;
      } else {
        compressed := true;
      }
      if contentSize == 0 {
        contentSize := if dataSize == 0 then 0 else CONTENTSIZE_UNKNOWN;
      }
    }
    ValueOfFour(b[i.headerSize..i.headerSize + 4]);
    var strict := !i.skippable && i.blockChecksum && i.contentChecksum && i.independent && i.max4MB;
    f := Some(Lz4Frame(i.headerSize + 4, contentSize, dataSize, compressed, strict));
  }

  lemma ValueOfFour(s: seq<byte>)
    requires |s| == 4
    ensures Value(s) < UINT32_LIMIT
  {
    assert Value(s[4..]) == 0;
    assert Value(s[3..]) == s[3] + 256 * Value(s[3..][1..]) && s[3..][1..] == s[4..];
    assert Value(s[2..]) == s[2] + 256 * Value(s[2..][1..]) && s[2..][1..] == s[3..];
    assert Value(s[1..]) == s[1] + 256 * Value(s[1..][1..]) && s[1..][1..] == s[2..];
  }

  // The frame with the content of a file, at the position pos of the file.
  method SkipLz4Content(z: Lz4, f: File, start: nat, total: nat, ghost goal: Option<nat>)
    returns (ok: bool, pos: nat, sum: nat)
    requires f.pos == start && goal == Lz4Content(z, f.data, start)
    modifies f
    ensures ok <==> goal.Some?
    ensures ok ==> pos == f.pos == goal.value <= |f.data| && sum == total + pos - start
  {
    ok, pos, sum := false, start, total;
    if pos + LZ4_HEADER > |f.data| {
      return;
    }
    var b := f.Read(LZ4_HEADER);
    pos, sum := pos + LZ4_HEADER, sum + LZ4_HEADER;
    assert b == f.data[start..start + LZ4_HEADER];
    SliceOfSlice(f.data, start, start + LZ4_HEADER, 0, 4);
    SliceOfSlice(f.data, start, start + LZ4_HEADER, LZ4_HEADER - 4, LZ4_HEADER);
    if b[0..4] != LZ4_MAGIC {
      return;
    }
    var frame := ReadLz4Info(z, b);
    var size := Value(b[LZ4_HEADER - 4..LZ4_HEADER]);
    if frame.None? || !Accepted(frame.value) || size == 0 {
      return;
    }
    ok, pos, sum := SkipLz4Blocks(f, size, pos, sum);
  }

  // The only block of a header frame, its checksum, the end mark and the checksum of the content.
  method ReadLz4Block(z: Lz4, f: File, frame: Lz4Frame, q: nat) returns (text: Option<seq<byte>>)
    requires f.pos == q
    modifies f
    ensures text == Lz4Header(z, f.data, q, frame)
    ensures text.Some? ==> f.pos == q + (frame.dataSize + 12) <= |f.data|
  {
    var n := frame.dataSize;
    if q + (n + 12) > |f.data| {
      return None;
    }
    var b := f.Read(n + 12);
    assert b == f.data[q..q + (n + 12)];
    SliceOfSlice(f.data, q, q + (n + 12), 0, n);
    SliceOfSlice(f.data, q, q + (n + 12), n, n + 4);
    SliceOfSlice(f.data, q, q + (n + 12), n + 4, n + 8);
    if Value(b[n..n + 4]) != z.hash(b[0..n]) || Value(b[n + 4..n + 8]) != 0 {
      return None;
    }
    text := if frame.compressed then z.decode(b[0..n]) else Some(b[0..n]);
    if text.Some? && |text.value| % BLOCKSIZE != 0 {
      text := None;
    }
  }

  // The frame with a header: its text, the position behind it and the bytes passed.
  method ReadLz4Front(z: Lz4, f: File, start: nat) returns (r: Front)
    requires f.pos == start
    modifies f
    ensures r == Lz4Front(z, f.data, start)
    ensures r.Text? ==> f.pos == start + r.n
  {
    var pos, total := start, 0;
    if pos + LZ4_HEADER > |f.data| {
      return Stop(pos);
    }
    var b := f.Read(LZ4_HEADER);
    pos, total := pos + LZ4_HEADER, total + LZ4_HEADER;
    assert b == f.data[start..start + LZ4_HEADER];
    SliceOfSlice(f.data, start, start + LZ4_HEADER, 0, 4);
    if b[0..4] != LZ4_MAGIC {
      return Stop(pos);
    }
    r := Refused;
    var frame := ReadLz4Info(z, b);
    if frame.None? || !Accepted(frame.value) || frame.value.dataSize > 1024 * 1024 {
      return;
    }
    var h := ReadLz4Block(z, f, frame.value, pos);
    if h.Some? {
      var sz := frame.value.dataSize + 12;
      pos, total := pos + sz, total + sz;
      r := Text(h.value, total);
    }
  }

  // The rest of an entry behind its header frame: the decoded header in dst, and the frame with the content.
  method ReadLz4Rest(z: Lz4, f: File, pos: nat, h: seq<byte>, n: nat, pax: PaxDecode, ghost read: Read)
    returns (ok: bool, dst: array<byte>, next: nat, total: nat)
    requires 0 < n && f.pos == pos + n <= |f.data|
    requires read == ReadOf(Text(h, n), FrontHeader(Text(h, n), true), Lz4Size(z, f.data, pos + n))
    modifies f, pax
    ensures fresh(dst) && Holds(ok, pax, dst, n, total, read)
    ensures ok ==> next == f.pos == pos + total <= |f.data|
  {
    hide HeaderIn, Lz4Content;
    HeaderInIsSmall(h, true);
    dst := new byte[|h|](i requires 0 <= i < |h| => h[i]);
    assert dst[..] == h;
    next, total := pos + n, n;
    ok := DecodeHeader(pax, dst, true, h, HeaderIn(h, true));
    if ok && pax.info.size != 0 {
      ok, next, total := SkipLz4Content(z, f, next, total, Lz4Content(z, f.data, next));
    }
  }

  // One round of scan_paxlz4_file.
  method Lz4Round(z: Lz4, widen: Widen, f: File, pos: nat, pax: PaxDecode, c: Cache)
    returns (r: Outcome, ghost items: seq<Item>)
    requires f.pos == pos <= |f.data| < INT64_MAX && c.Valid() && pax !in c.repr && f !in c.repr
    modifies f, pax, c, c.repr
    ensures c.Valid() && fresh(c.repr - old(c.repr))
    ensures Matches(r, items, RoundOf(widen, pos, Lz4Read(z, f.data, pos))) && (r.Done? ==> items == [])
    ensures r.Next? ==> pos < f.pos == r.next <= |f.data|
    ensures !r.Failed? ==> c.Records() == old(c.Records()) + Imaged(items)
  {
    hide HeaderIn, Lz4Front, Lz4Content, AddPaxInfo, Cache.Valid;
    r, items := Failed, [];
    var front := ReadLz4Front(z, f, pos);
    match front {
      case Stop(end) => r := Done(end);
      case Refused =>
      case Text(h, n) =>
        ghost var read := Lz4Read(z, f.data, pos);
        var ok, dst, next, total := ReadLz4Rest(z, f, pos, h, n, pax, read);
        if ok {
          r, items := Keep(widen, pax, dst, pos, n, total, next, c, read);
        }
    }
  }

  // -------------------------------------------------------------------------------------------- Zstd

  lemma WholeText(data: seq<byte>, start: nat)
    requires start + 4 <= |data|
    ensures data[start..start + 4] + data[start + 4..] == data[start..]
  {
  }

  // The checks of a header frame in the buffer, and its text.
  method DecodeZstdHeader(z: Zstd, frame: FrameInfo, buf: array<byte>, n: nat, ghost s: seq<byte>, ghost st: Start)
    returns (text: Option<seq<byte>>)
    requires n <= buf.Length && n <= |s| && buf[..n] == s[..n]
    requires FrameStart(z.parse, s) == Some(st) && st.len <= |s| && st.checksum == frame.checksumFlag
    requires st.block == frame.block && frame.contentSize == ContentSize(z.parse, s, st.len)
    ensures text == ZstdHeader(z, s, n)
  {
    var size := frame.contentSize;
    if size == CONTENTSIZE_UNKNOWN || size < BLOCKSIZE || size % BLOCKSIZE != 0 || size >= BUF_SIZE {
      return None;
    }
    if frame.block.stored == 0 || !frame.checksumFlag {
      return None;
    }
    text := z.decode(buf[..n]);
    if text.Some? && |text.value| != size {
      text := None;
    }
  }

  // The end of the archive, or the frame with a header: its text and the position behind it.
  method ReadZstdFront(z: Zstd, f: File, start: nat, buf: array<byte>, frame: FrameInfo) returns (r: Front)
    requires f.pos == start && buf.Length == BUF_SIZE
    modifies f, buf, frame
    ensures r == ZstdFront(z, f.data, start)
    ensures r.Text? ==> f.pos == start + r.n
  {
    r := Refused;
    var b := f.Read(4);
    if |b| != 4 {
      return;
    }
    if b != ZstdFrame.MAGIC && b != PAXZ_MAGIC {
      return;
    }
    if b == PAXZ_MAGIC {
      r := ReadZstdEnd(z, f, start, b);
      return;
    }
    forall i | 0 <= i < 4 {
      buf[i] := b[i];
    }
    assert buf[..4] == b;
    ghost var s := f.data[start..];
    WholeText(f.data, start);
    var size := frame.ReadFrameInto(z.parse, f, buf, true, s);
    if size.None? {
      return;
    }
    var text := DecodeZstdHeader(z, frame, buf, size.value, s, FrameStart(z.parse, s).value);
    if text.Some? {
      r := Text(text.value, size.value);
    }
  }

  // The frame at the end of an archive, behind its magic number.
  method ReadZstdEnd(z: Zstd, f: File, start: nat, magic: seq<byte>) returns (r: Front)
    requires f.pos == start + 4 <= |f.data| && magic == f.data[start..start + 4] == PAXZ_MAGIC
    modifies f
    ensures r == ZstdFront(z, f.data, start) && !r.Text?
  {
    r := Refused;
    var pos := start + 4;
    var e := f.Read(END_SIZE - 4);
    if |e| != END_SIZE - 4 {
      return;
    }
    pos := pos + (END_SIZE - 4);
    assert magic + e == f.data[start..start + END_SIZE];
    if z.validEnd(magic + e) {
      r := Stop(pos);
    }
  }

  // A walker never gets further behind the end of the file than a block can be long.
  lemma {:induction false} SeekBound(s: seq<byte>, pos: nat, b: ZstdWalk.Block, checksum: bool)
    requires pos <= |s| && b.stored < 0x200000
    ensures WalkSeeking(s, pos, b, checksum).Some? ==>
              pos <= WalkSeeking(s, pos, b, checksum).value <= |s| + 0x200000
    decreases |s| - pos
  {
    var tail := Tail(b.last, checksum);
    var next := pos + b.stored + tail;
    if !b.last && next <= |s| {
      SeekBound(s, next, BlockAt(s, next - BLOCK_HEADER), checksum);
    }
  }

  lemma FrameBound(parse: Parser, s: seq<byte>)
    ensures ReadSeeking(parse, s).Some? ==> ReadSeeking(parse, s).value <= |s| + 0x200000
  {
    var start := FrameStart(parse, s);
    if start.Some? {
      SeekBound(s, start.value.len, start.value.block, start.value.checksum);
    }
  }

  // The rest of an entry behind its header frame: the decoded header in dst, and the frame with the content.
  method ReadZstdRest(z: Zstd, f: File, pos: nat, h: seq<byte>, n: nat, frame: FrameInfo, pax: PaxDecode,
                      ghost read: Read)
    returns (ok: bool, dst: array<byte>, next: nat, total: nat)
    requires 0 < n && f.pos == pos + n <= |f.data| && HeaderLimit(z.parse)
    requires read == ReadOf(Text(h, n), FrontHeader(Text(h, n), false), ReadSeeking(z.parse, f.data[pos + n..]))
    modifies f, frame, pax
    ensures fresh(dst) && Holds(ok, pax, dst, n, total, read)
    ensures ok ==> next == f.pos == pos + total && total <= n + |f.data| + 0x200000
  {
    hide HeaderIn, ReadSeeking, HeaderLimit;
    HeaderInIsSmall(h, false);
    dst := new byte[|h|](i requires 0 <= i < |h| => h[i]);
    assert dst[..] == h;
    next, total := pos + n, n;
    ok := DecodeHeader(pax, dst, false, h, HeaderIn(h, false));
    if ok && pax.info.size != 0 {
      ghost var s := f.data[next..];
      assert [] + s == s;
      FrameBound(z.parse, s);
      var walked := frame.ReadFrameSize(z.parse, f, false, s);
      ok := walked.Some?;
      if ok {
        var frameSize := walked.value;
        next := next + frameSize;
        total := frameSize + n;
      }
    }
  }

  // One round of scan_paxzst_file; the position may lie behind the end of the file.
  method ZstdRound(z: Zstd, widen: Widen, f: File, pos: nat, buf: array<byte>, frame: FrameInfo, pax: PaxDecode,
                   c: Cache)
    returns (r: Outcome, ghost items: seq<Item>)
    requires f.pos == pos && |f.data| < INT64_MAX && HeaderLimit(z.parse) && buf.Length == BUF_SIZE
    requires c.Valid() && pax !in c.repr && f !in c.repr && frame !in c.repr && buf !in c.repr
    modifies f, buf, frame, pax, c, c.repr
    ensures c.Valid() && fresh(c.repr - old(c.repr))
    ensures Matches(r, items, RoundOf(widen, pos, ZstdRead(z, f.data, pos))) && (r.Done? ==> items == [])
    ensures r.Next? ==> pos < f.pos == r.next && pos <= |f.data|
    ensures buf !in c.repr
    ensures !r.Failed? ==> c.Records() == old(c.Records()) + Imaged(items)
  {
    hide HeaderIn, ZstdFront, ReadSeeking, HeaderLimit, AddPaxInfo, Cache.Valid;
    r, items := Failed, [];
    var front := ReadZstdFront(z, f, pos, buf, frame);
    match front {
      case Stop(end) => r := Done(end);
      case Refused =>
      case Text(h, n) =>
        ghost var read := ZstdRead(z, f.data, pos);
        var ok, dst, next, total := ReadZstdRest(z, f, pos, h, n, frame, pax, read);
        if ok {
          r, items := Keep(widen, pax, dst, pos, n, total, next, c, read);
        }
    }
  }

  // -------------------------------------------------------------------------------------- the loops

  // A scan that has found some items and is at pos leads to goal; behind the end of the file it fails.
  ghost predicate Leads(round: nat -> Found<Item>, len: nat, pos: nat, found: seq<Item>,
                        goal: Option<(seq<Item>, nat)>)
  {
    goal == if pos <= len then Prefixed(found, Loop(round, len, pos)) else None
  }

  lemma LeadsOn(round: nat -> Found<Item>, len: nat, pos: nat, found: seq<Item>, items: seq<Item>, next: nat,
                goal: Option<(seq<Item>, nat)>)
    requires pos <= len && pos < next && Leads(round, len, pos, found, goal) && round(pos) == More(items, next)
    ensures Leads(round, len, next, found + items, goal)
  {
    if next <= len {
      LoopStep(round, len, pos, found, items, next);
    }
  }

  // What a round leaves of the whole scan.
  ghost predicate Left(r: Outcome, round: nat -> Found<Item>, len: nat, found: seq<Item>,
                       goal: Option<(seq<Item>, nat)>)
  {
    match r
    case Failed => goal == None
    case Done(end) => goal == Some((found, end))
    case Next(next) => Leads(round, len, next, found, goal)
  }

  lemma RoundLeaves(r: Outcome, round: nat -> Found<Item>, len: nat, pos: nat, found: seq<Item>, items: seq<Item>,
                    goal: Option<(seq<Item>, nat)>)
    requires Leads(round, len, pos, found, goal) && Matches(r, items, round(pos))
    requires (r.Done? ==> items == []) && (r.Next? ==> pos < r.next) && (pos > len ==> round(pos) == Broken)
    ensures Left(r, round, len, found + items, goal)
  {
    if r.Next? {
      LeadsOn(round, len, pos, found, items, r.next, goal);
    } else {
      assert found + [] == found;
    }
  }

  lemma BehindTheEnd(z: Zstd, widen: Widen, file: seq<byte>, pos: nat)
    ensures pos > |file| ==> RoundOf(widen, pos, ZstdRead(z, file, pos)) == Broken
  {
  }

  // scan_paxlz4_file; begin is the beginning of the data.
  method ScanPaxLz4(z: Lz4, widen: Widen, f: File, begin: nat, c: Cache) returns (ok: bool)
    requires begin <= |f.data| < INT64_MAX && c.Valid() && f !in c.repr
    modifies f, c, c.repr
    ensures c.Valid() && fresh(c.repr - old(c.repr))
    ensures var goal := ScanBy(widen, Lz4Reader(z, f.data), |f.data|, begin);
            && ok == goal.Some?
            && (ok ==> c.Records() == old(c.Records()) + Imaged(goal.value.0))
  {
    hide RoundOf, Lz4Read, Cache.Valid;
    var pax := new PaxDecode();
    ghost var reader := Lz4Reader(z, f.data);
    ghost var round := RoundsOf(widen, reader);
    ghost var goal := Loop(round, |f.data|, begin);
    ghost var found, was: seq<seq<byte>> := [], c.Records();
    PrefixedNothing(goal);
    f.Seek(begin);
    var pos, r := begin, Next(begin);
    while r.Next?
      invariant r.Next? ==> r.next == pos == f.pos <= |f.data|
      invariant Left(r, round, |f.data|, found, goal)
      invariant c.Valid() && fresh(c.repr - old(c.repr)) && pax !in c.repr && f !in c.repr
      invariant !r.Failed? ==> c.Records() == was + Imaged(found)
      decreases |f.data| - pos, if r.Next? then 1 else 0
    {
      ghost var items;
      r, items := Lz4Round(z, widen, f, pos, pax, c);
      RoundLeaves(r, round, |f.data|, pos, found, items, goal);
      RecordsGrow(was, found, items);
      found := found + items;
      if r.Next? {
        pos := r.next;
      }
    }
    ok := r.Done?;
  }

  // scan_paxzst_file; begin is the beginning of the data.
  method ScanPaxZst(z: Zstd, widen: Widen, f: File, begin: nat, c: Cache) returns (ok: bool)
    requires begin <= |f.data| < INT64_MAX && c.Valid() && f !in c.repr && HeaderLimit(z.parse)
    modifies f, c, c.repr
    ensures c.Valid() && fresh(c.repr - old(c.repr))
    ensures var goal := ScanBy(widen, ZstdReader(z, f.data), |f.data|, begin);
            && ok == goal.Some?
            && (ok ==> c.Records() == old(c.Records()) + Imaged(goal.value.0))
  {
    hide RoundOf, ZstdRead, Cache.Valid, HeaderLimit;
    var buf := new byte[BUF_SIZE](_ => 0);
    var frame := new FrameInfo();
    var pax := new PaxDecode();
    ghost var reader := ZstdReader(z, f.data);
    ghost var round := RoundsOf(widen, reader);
    ghost var goal := Loop(round, |f.data|, begin);
    ghost var found, was: seq<seq<byte>> := [], c.Records();
    PrefixedNothing(goal);
    f.Seek(begin);
    var pos, r := begin, Next(begin);
    while r.Next?
      invariant r.Next? ==> r.next == pos == f.pos
      invariant Left(r, round, |f.data|, found, goal)
      invariant c.Valid() && fresh(c.repr - old(c.repr))
      invariant pax !in c.repr && f !in c.repr && frame !in c.repr && buf !in c.repr
      invariant !r.Failed? ==> c.Records() == was + Imaged(found)
      decreases if pos <= |f.data| then |f.data| - pos + 1 else 0, if r.Next? then 1 else 0
    {
      ghost var items;
      r, items := ZstdRound(z, widen, f, pos, buf, frame, pax, c);
      BehindTheEnd(z, widen, f.data, pos);
      RoundLeaves(r, round, |f.data|, pos, found, items, goal);
      RecordsGrow(was, found, items);
      found := found + items;
      if r.Next? {
        pos := r.next;
      }
    }
    ok := r.Done?;
  }
}
