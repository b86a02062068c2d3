/**
 The scanners of compressed archives (src/wcx_cache.cpp, scan_paxzst_file and scan_paxlz4_file), round by
 round: a frame with a header, and a frame with the content if there is any.
 */
module CompressedScan {
  import opened Bytes
  import opened PaxRecord
  import opened PaxDecoder
  import opened CacheItem
  import opened ScanLoop
  import opened Archive
  import opened ZstdWalk
  import opened ZstdFrame

  const BUF_SIZE := 2 * 1024 * 1024
  const PAXZ_MAGIC: seq<byte> := [0x55, 0x2A, 0x4D, 0x18]
  const END_SIZE := 22 // the frame at the end of a PAXZ archive
  const CONTENTSIZE_UNKNOWN := UINT64_LIMIT - 1

  // The decoder that add_header makes of the text of a header frame; lz4 frames hold nothing else.
  function HeaderIn(h: seq<byte>, exact: bool): Option<Decoded> {
    if |h| < BLOCKSIZE then None
    else
      match FirstHeader(h[..BLOCKSIZE])
      case None => None
      case Some(d) =>
        if d.headerSize <= BLOCKSIZE then Some(d)
        else if exact && d.headerSize != |h| then None
        else SecondHeader(d, h)
  }

  lemma HeaderInside(h: seq<byte>, exact: bool)
    ensures Inside(HeaderIn(h, exact), h)
  {
  }

  predicate Inside(header: Option<Decoded>, h: seq<byte>) {
    header.Some? ==> Sized(header.value) && header.value.headerSize <= |h|
  }

  // What a round finds first: the end of the scan, or a header frame of n bytes with the text h.
  datatype Front = Stop(end: nat) | Refused | Text(h: seq<byte>, n: nat)

  // What a round has read: the end of the scan, something malformed, or an entry with the decoded header d in
  // the text h; the header takes n bytes and all of the entry total bytes.
  datatype AnyRead = Ends(end: nat) | Fails | Reads(d: Decoded, h: seq<byte>, n: nat, total: nat)

  predicate GoodRead(r: AnyRead) {
    r.Reads? ==> Sized(r.d) && r.d.headerSize <= |r.h| && 0 < r.n <= r.total
  }

  type Read = r: AnyRead | GoodRead(r) witness Fails

  function FrontHeader(front: Front, exact: bool): (header: Option<Decoded>)
    ensures front.Text? ==> Inside(header, front.h)
  {
    match front
    case Text(h, _) => HeaderInside(h, exact); HeaderIn(h, exact)
    case _ => None
  }

  // content is the size of the frame behind the header, which counts only if there is any content.
  function ReadOf(front: Front, header: Option<Decoded>, content: Option<nat>): (r: Read)
    requires front.Text? ==> Inside(header, front.h) && 0 < front.n
  {
    match front
    case Stop(end) => Ends(end)
    case Refused => Fails
    case Text(h, n) =>
      match header
      case None => Fails
      case Some(d) =>
        if d.info.size == 0 then Reads(d, h, n, n)
        else
          match content
          case None => Fails
          case Some(m) => Reads(d, h, n, n + m)
  }

  // The end of a round, add_pax_info and the step to the next entry.
  function RoundOf(widen: Widen, pos: nat, read: Read): Found<Item> {
    match read
    case Ends(end) => End(end)
    case Fails => Broken
    case Reads(d, h, n, total) =>
      match AddPaxInfo(widen, d, h, pos, n, total)
      case None => Broken
      case Some((_, items)) => More(items, pos + total)
  }

  // ---------------------------------------------------------------------------------------- Zstd

  // The calls into the library: parsing a frame header, decoding a frame, and the check of the frame
  // at the end.
  datatype Zstd = Zstd(parse: Parser, decode: seq<byte> -> Option<seq<byte>>, validEnd: seq<byte> -> bool)

  predicate HeaderFrame(parse: Parser, s: seq<byte>, st: Start)
    requires st.len <= |s|
  {
    var size := ContentSize(parse, s, st.len);
    && size != CONTENTSIZE_UNKNOWN && BLOCKSIZE <= size < BUF_SIZE && size % BLOCKSIZE == 0
    && st.block.stored != 0 && st.checksum
  }

  // The text of the header frame of n bytes at the start of s.
  function ZstdHeader(z: Zstd, s: seq<byte>, n: nat): Option<seq<byte>>
    requires n <= |s|
  {
    match FrameStart(z.parse, s)
    case None => None
    case Some(st) =>
      if st.len > |s| || !HeaderFrame(z.parse, s, st) then None
      else
        match z.decode(s[..n])
        case None => None
        case Some(h) => if |h| != ContentSize(z.parse, s, st.len) then None else Some(h)
  }

  // What lies at pos: the end of the archive, or the text of a header frame and its size.
  function ZstdFront(z: Zstd, file: seq<byte>, pos: nat): (r: Front)
    ensures r.Text? ==> 0 < r.n <= BUF_SIZE && pos + r.n <= |file|
  {
    if pos + 4 > |file| then Refused
    else if file[pos..pos + 4] == PAXZ_MAGIC then
      if pos + END_SIZE > |file| || !z.validEnd(file[pos..pos + END_SIZE]) then Refused else Stop(pos + END_SIZE)
    else if file[pos..pos + 4] != MAGIC then Refused
    else
      var s := file[pos..];
      match ReadBuffered(z.parse, s, BUF_SIZE)
      case None => Refused
      case Some(n) =>
        match ZstdHeader(z, s, n)
        case None => Refused
        case Some(h) => Text(h, n)
  }

  // The size of the frame behind a header frame.
  function ZstdContent(z: Zstd, file: seq<byte>, pos: nat, front: Front): Option<nat>
    requires front.Text? ==> pos + front.n <= |file|
  {
    if front.Text? then ReadSeeking(z.parse, file[pos + front.n..]) else None
  }

  function ZstdRead(z: Zstd, file: seq<byte>, pos: nat): Read {
    var front := ZstdFront(z, file, pos);
    ReadOf(front, FrontHeader(front, false), ZstdContent(z, file, pos, front))
  }

  // ----------------------------------------------------------------------------------------- LZ4

  const LZ4_MAGIC: seq<byte> := [0x04, 0x22, 0x4D, 0x18]
  const LZ4_HEADER := 7 + 8 + 4 // with the content size and the first block header

  // What the library finds in a frame header of headerSize bytes.
  datatype Lz4Info = Lz4Info(headerSize: nat, skippable: bool, contentSize: nat, blockChecksum: bool,
                             contentChecksum: bool, independent: bool, max4MB: bool)

  // What frame_info.init makes of it and of the first block header; strict stands for the five flags that are
  // required.
  datatype Lz4Frame = Lz4Frame(offset: nat, contentSize: nat, dataSize: nat, compressed: bool, strict: bool)

  datatype Lz4 = Lz4(parse: seq<byte> -> Option<Lz4Info>, decode: seq<byte> -> Option<seq<byte>>,
                     hash: seq<byte> -> nat)

  const UNCOMPRESSED := 0x8000_0000

  // frame_info.init.
  function InitLz4(z: Lz4, b: seq<byte>): Option<Lz4Frame> {
    match z.parse(b)
    case None => None
    case Some(i) =>
      if i.headerSize + 4 > |b| then None
      else
        var size := At(b, i.headerSize, 4);
        if i.skippable then Some(Lz4Frame(i.headerSize + 4, size, size, false, false))
        else
          var data := size % UNCOMPRESSED;
          var content := if i.contentSize != 0 then i.contentSize else if data == 0 then 0 else CONTENTSIZE_UNKNOWN;
          Some(Lz4Frame(i.headerSize + 4, content, data, size < UNCOMPRESSED,
                        i.blockChecksum && i.contentChecksum && i.independent && i.max4MB))
  }

  predicate Accepted(f: Lz4Frame) {
    && BLOCKSIZE <= f.contentSize && f.contentSize % BLOCKSIZE == 0 && f.dataSize != 0
    && f.strict && f.offset == LZ4_HEADER
  }

  function Word(s: seq<byte>, off: nat): nat
    requires off + 4 <= |s|
  {
    At(s, off, 4)
  }

  // Behind a block header with this size: the position behind the content checksum.
  function Lz4Blocks(file: seq<byte>, pos: nat, size: nat): (end: Option<nat>)
    requires pos <= |file|
    ensures end.Some? ==> pos + 4 <= end.value <= |file|
    decreases |file| - pos
  {
    if size == 0 then (if pos + 4 > |file| then None else Some(pos + 4))
    else
      var next := pos + size % UNCOMPRESSED + 4;
      if next + 4 > |file| then None else Lz4Blocks(file, next + 4, Word(file, next))
  }

  // The end of the frame with the content at pos.
  function Lz4Content(z: Lz4, file: seq<byte>, pos: nat): (end: Option<nat>)
    ensures end.Some? ==> pos + LZ4_HEADER + 4 <= end.value <= |file|
  {
    if pos + LZ4_HEADER > |file| || file[pos..pos + 4] != LZ4_MAGIC then None
    else
      match InitLz4(z, file[pos..pos + LZ4_HEADER])
      case None => None
      case Some(f) =>
        var size := Word(file, pos + LZ4_HEADER - 4);
        if !Accepted(f) || size == 0 then None else Lz4Blocks(file, pos + LZ4_HEADER, size)
  }

  // The text of the only block of a header frame whose data starts at q.
  function Lz4Header(z: Lz4, file: seq<byte>, q: nat, f: Lz4Frame): Option<seq<byte>> {
    var end := q + f.dataSize;
    if end + 12 > |file| then None
    else if Word(file, end) != z.hash(file[q..end]) || Word(file, end + 4) != 0 then None
    else
      match if f.compressed then z.decode(file[q..end]) else Some(file[q..end])
      case None => None
      case Some(h) => if |h| % BLOCKSIZE != 0 then None else Some(h)
  }

  function Lz4Front(z: Lz4, file: seq<byte>, pos: nat): (r: Front)
    ensures r.Text? ==> 0 < r.n < UINT32_LIMIT && pos + r.n <= |file|
  {
    if pos + LZ4_HEADER > |file| then Stop(pos)
    else if file[pos..pos + 4] != LZ4_MAGIC then Stop(pos + LZ4_HEADER)
    else
      match InitLz4(z, file[pos..pos + LZ4_HEADER])
      case None => Refused
      case Some(f) =>
        if !Accepted(f) || f.dataSize > 1024 * 1024 then Refused
        else
          match Lz4Header(z, file, pos + LZ4_HEADER, f)
          case None => Refused
          case Some(h) => Text(h, LZ4_HEADER + f.dataSize + 12)
  }

  function Lz4Size(z: Lz4, file: seq<byte>, pos: nat): Option<nat> {
    match Lz4Content(z, file, pos)
    case None => None
    case Some(end) => Some(end - pos)
  }

  // The size of the frame behind a header frame.
  function Lz4Behind(z: Lz4, file: seq<byte>, pos: nat, front: Front): Option<nat> {
    if front.Text? then Lz4Size(z, file, pos + front.n) else None
  }

  function Lz4Read(z: Lz4, file: seq<byte>, pos: nat): Read {
    var front := Lz4Front(z, file, pos);
    ReadOf(front, FrontHeader(front, true), Lz4Behind(z, file, pos, front))
  }

  // The loop over the blocks of an lz4 frame; the position and the running sum of the sizes move on apart.
  method SkipLz4Blocks(f: File, first: nat, start: nat, total: nat) returns (ok: bool, pos: nat, sum: nat)
    requires f.pos == start <= |f.data|
    modifies f
    ensures ok <==> Lz4Blocks(f.data, start, first).Some?
    ensures ok ==> f.pos == pos == Lz4Blocks(f.data, start, first).value && sum == total + pos - start
  {
    var size: nat := first;
    pos, sum := start, total;
    ghost var goal := Lz4Blocks(f.data, pos, first);
    while size != 0
      invariant start <= pos == f.pos <= |f.data| && sum == total + pos - start
      invariant Lz4Blocks(f.data, pos, size) == goal
      decreases |f.data| - pos, if size == 0 then 0 else 1
    {
      var sz := size % UNCOMPRESSED + 4;
      pos := pos + sz;
      f.Seek(pos);
      sum := sum + sz;
      var b := f.Read(4);
      if |b| != 4 {
        return false, pos, sum;
      }
      size := Value(b);
      pos := pos + 4;
      sum := sum + 4;
    }
    var b := f.Read(4);
    ok := |b| == 4;
    pos := pos + 4;
    sum := sum + 4;
  }

  // -------------------------------------------------------------------------------------- whole scans

  // A scan knows its file only through what can be read at every position.
  type Reader = nat -> Read

  function ZstdReader(z: Zstd, file: seq<byte>): Reader {
    (pos: nat) => ZstdRead(z, file, pos)
  }

  function Lz4Reader(z: Lz4, file: seq<byte>): Reader {
    (pos: nat) => Lz4Read(z, file, pos)
  }

  function RoundsOf(widen: Widen, reader: Reader): nat -> Found<Item> {
    (pos: nat) => RoundOf(widen, pos, reader(pos))
  }

  // The items of a scan from begin on, and the position behind its last round; None if some round fails.
  function ScanBy(widen: Widen, reader: Reader, len: nat, begin: nat): Option<(seq<Item>, nat)>
    requires begin <= len
  {
    Loop(RoundsOf(widen, reader), len, begin)
  }
}
