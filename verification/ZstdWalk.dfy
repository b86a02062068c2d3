/**
 Finding the end of a Zstandard frame (section 3.1.1 of RFC 8878) without decoding it: one walker reads
 the whole frame into a buffer, the other one jumps from block header to block header.
 */
module ZstdWalk {
  import opened Bytes

  const PREFIX := 5       // ZSTD_FRAMEHEADERSIZE_PREFIX
  const BLOCK_HEADER := 3 // ZSTD_BLOCKHEADERSIZE
  const CHECKSUM := 4

  // ZSTD_getFrameHeader_advanced is a library call.
  datatype HeaderParse = Error | Need(n: nat) | Parsed(size: nat, skippable: bool, checksum: bool, contentSize: nat)
  type Parser = seq<byte> -> HeaderParse

  datatype Block = Block(last: bool, kind: nat, stored: nat)

  const RAW := 0
  const RLE := 1

  // A block header: one bit for the last block, two for the type and 21 for the size.  A run takes one byte.
  function BlockAt(s: seq<byte>, off: nat): Block
    requires off + BLOCK_HEADER <= |s|
  {
    var h := s[off] + 256 * (s[off + 1] as int) + 65536 * (s[off + 2] as int);
    var kind := h / 2 % 4;
    Block(h % 2 == 1, kind, if kind == RLE then 1 else h / 8)
  }

  // What follows the content of a block.
  function Tail(last: bool, checksum: bool): nat {
    if !last then BLOCK_HEADER else if checksum then CHECKSUM else 0
  }

  datatype Start = Start(len: nat, checksum: bool, block: Block)

  // What init finds: an ordinary frame with its first block, or a skippable frame with the size of its data.
  datatype Opened = Ordinary(offset: nat, checksum: bool, contentSize: nat, block: Block)
                  | Skippable(offset: nat, size: nat)

  function Init(parse: Parser, b: seq<byte>): Option<Opened> {
    match parse(b)
    case Error => None
    case Need(_) => None
    case Parsed(size, skippable, checksum, contentSize) =>
      if size == 0 then None
      else if skippable then
        if size + 4 > |b| then None else Some(Skippable(size + 4, At(b, size, 4)))
      else if size + BLOCK_HEADER > |b| then None
      else Some(Ordinary(size + BLOCK_HEADER, checksum, contentSize, BlockAt(b, size)))
  }

  // The callers of init that accept only ordinary frames; b ends with the first block header.
  function InitFrame(parse: Parser, b: seq<byte>): Option<Start> {
    match Init(parse, b)
    case None => None
    case Some(Skippable(_, _)) => None
    case Some(Ordinary(offset, checksum, _, block)) => if offset == |b| then Some(Start(|b|, checksum, block)) else None
  }

  // The size of the content according to a frame header that the walker accepted.
  function ContentSize(parse: Parser, s: seq<byte>, len: nat): nat
    requires len <= |s|
  {
    match parse(s[..len])
    case Error => 0
    case Need(_) => 0
    case Parsed(_, _, _, contentSize) => contentSize
  }

  // The number of bytes up to the end of the first block header.
  function StartLength(parse: Parser, s: seq<byte>): Option<nat> {
    if |s| < PREFIX then None
    else
      match parse(s[..PREFIX])
      case Error => None
      case Need(n) => if n + BLOCK_HEADER < PREFIX then None else Some(n + BLOCK_HEADER)
      case Parsed(size, _, _, _) => if size + BLOCK_HEADER < PREFIX then None else Some(size + BLOCK_HEADER)
  }

  function FrameStart(parse: Parser, s: seq<byte>): Option<Start> {
    match StartLength(parse, s)
    case None => None
    case Some(n) => if n > |s| then None else InitFrame(parse, s[..n])
  }

  // The loop of the buffered walker from the content of a block on; the end of the frame.
  function WalkBuffered(s: seq<byte>, pos: nat, b: Block, checksum: bool, bufSize: nat): (r: Option<nat>)
    requires pos <= |s|
    ensures r.Some? ==> pos <= r.value <= |s| && r.value <= bufSize
    decreases |s| - pos
  {
    var next := pos + b.stored + Tail(b.last, checksum);
    if next > bufSize || next > |s| then None
    else if b.last then Some(next)
    else WalkBuffered(s, next, BlockAt(s, next - BLOCK_HEADER), checksum, bufSize)
  }

  // The loop of the other walker; without a checksum nothing is read behind the last block.
  function WalkSeeking(s: seq<byte>, pos: nat, b: Block, checksum: bool): Option<nat>
    requires pos <= |s|
    decreases |s| - pos
  {
    var tail := Tail(b.last, checksum);
    var next := pos + b.stored + tail;
    if tail > 0 && next > |s| then None
    else if b.last then Some(next)
    else WalkSeeking(s, next, BlockAt(s, next - BLOCK_HEADER), checksum)
  }

  // read_frame with a buffer; s starts with the magic number.  None for every error and for end of file.
  function ReadBuffered(parse: Parser, s: seq<byte>, bufSize: nat): (r: Option<nat>)
    ensures r.Some? ==> PREFIX <= r.value <= |s| && r.value <= bufSize
  {
    if bufSize <= PREFIX then None
    else
      match FrameStart(parse, s)
      case None => None
      case Some(st) =>
        if st.len > bufSize then None else WalkBuffered(s, st.len, st.block, st.checksum, bufSize)
  }

  // read_frame without a buffer.
  function ReadSeeking(parse: Parser, s: seq<byte>): Option<nat> {
    match FrameStart(parse, s)
    case None => None
    case Some(st) => WalkSeeking(s, st.len, st.block, st.checksum)
  }

  // ------------------------------------------------------------------------------------ agreement

  lemma {:induction false} LoopsAgree(s: seq<byte>, pos: nat, b: Block, checksum: bool, bufSize: nat, n: nat)
    requires pos <= |s|
    ensures WalkSeeking(s, pos, b, checksum) == Some(n) ==> n >= pos
    ensures WalkBuffered(s, pos, b, checksum, bufSize) == Some(n)
            <==> WalkSeeking(s, pos, b, checksum) == Some(n) && n <= |s| && n <= bufSize
    decreases |s| - pos
  {
    var next := pos + b.stored + Tail(b.last, checksum);
    if next <= |s| && !b.last {
      LoopsAgree(s, next, BlockAt(s, next - BLOCK_HEADER), checksum, bufSize, n);
    }
  }

  // Both walkers find the same end of every frame that lies inside the file and fits into the buffer.
  // Beyond that, the walker without a buffer also accepts a last block without checksum that is cut off.
  lemma WalkersAgree(parse: Parser, s: seq<byte>, bufSize: nat, n: nat)
    ensures ReadBuffered(parse, s, bufSize) == Some(n)
            <==> ReadSeeking(parse, s) == Some(n) && n <= |s| && n <= bufSize && bufSize > PREFIX
  {
    match FrameStart(parse, s) {
      case None =>
      case Some(st) => LoopsAgree(s, st.len, st.block, st.checksum, bufSize, n);
    }
  }

  // A frame header of six bytes for a content of ten, and the header of its only block, which is missing
  // altogether: the walker without a buffer reports an end ten bytes behind the end of the file.
  lemma CutOffFrame(parse: Parser)
    requires var s: seq<byte> := [0x28, 0xB5, 0x2F, 0xFD, 0x20, 0x0A, 0x51, 0, 0];
             parse(s[..5]) == Need(6) && parse(s) == Parsed(6, false, false, 10)
    ensures var s: seq<byte> := [0x28, 0xB5, 0x2F, 0xFD, 0x20, 0x0A, 0x51, 0, 0];
            ReadSeeking(parse, s) == Some(19) && ReadBuffered(parse, s, 1000) == None
  {
    var s: seq<byte> := [0x28, 0xB5, 0x2F, 0xFD, 0x20, 0x0A, 0x51, 0, 0];
    assert s[..9] == s;
    assert BlockAt(s, 6) == Block(true, 0, 10);
    assert FrameStart(parse, s) == Some(Start(9, false, Block(true, 0, 10)));
  }

  // ------------------------------------------------------------------------------- the total length

  // A block: its type (0 raw, 1 a run, 2 compressed), the size in its header, and the bytes stored behind that.
  datatype Coded = Coded(kind: nat, size: nat, body: seq<byte>)

  // A run is stored as one byte.
  predicate CodedOk(w: Coded) {
    w.kind < 4 && w.size < 0x20_0000 && |w.body| == if w.kind == 1 then 1 else w.size
  }

  // The three bytes of the header.
  function HeadOf(last: bool, w: Coded): (h: seq<byte>)
    ensures |h| == 3
  {
    var v := (if last then 1 else 0) + 2 * w.kind + 8 * w.size;
    [v % 256, v / 256 % 256, v / 65536 % 256]
  }

  // The blocks of a frame; exactly the last one is marked.
  ghost predicate WellFormed(ws: seq<Coded>) {
    ws != [] && forall w | w in ws :: CodedOk(w)
  }

  function Blocks(ws: seq<Coded>): seq<byte> {
    if ws == [] then [] else HeadOf(|ws| == 1, ws[0]) + ws[0].body + Blocks(ws[1..])
  }

  // Three bytes and the stored size for every block.
  function StoredSize(ws: seq<Coded>): nat {
    if ws == [] then 0 else 3 + |ws[0].body| + StoredSize(ws[1..])
  }

  function ChecksumSize(checksum: bool): nat {
    if checksum then 4 else 0
  }

  // Both walkers see in these bytes what they stand for.
  lemma BlockBits(last: bool, w: Coded)
    requires CodedOk(w)
    ensures BlockAt(HeadOf(last, w), 0) == Block(last, w.kind, |w.body|)
  {
    var l := if last then 1 else 0;
    var v := l + 2 * w.kind + 8 * w.size;
    assert v < 65536 * 256;
    ThreeBytes(v);
    BitParts(l, w.kind, w.size);
  }

  lemma ThreeBytes(v: nat)
    requires v < 65536 * 256
    ensures v == v % 256 + 256 * (v / 256 % 256) + 65536 * (v / 65536 % 256)
  {
  }

  lemma BitParts(l: nat, kind: nat, size: nat)
    requires l < 2 && kind < 4
    ensures var v := l + 2 * kind + 8 * size; v % 2 == l && v / 2 % 4 == kind && v / 8 == size
  {
    var v := l + 2 * kind + 8 * size;
    assert v / 2 == kind + 4 * size;
  }

  // Every three bytes stand for some block.
  lemma BlockOfBits(h: seq<byte>, body: seq<byte>) returns (w: Coded)
    requires |h| == 3 && |body| == BlockAt(h, 0).stored
    ensures CodedOk(w) && w.body == body && HeadOf(BlockAt(h, 0).last, w) == h
  {
    var v := h[0] + 256 * (h[1] as int) + 65536 * (h[2] as int);
    w := Coded(v / 2 % 4, v / 8, body);
    assert v == v % 2 + 2 * (v / 2 % 4) + 8 * (v / 8);
    BytesOf(h[0], h[1], h[2]);
  }

  lemma BytesOf(a: byte, b: byte, c: byte)
    ensures var v := a + 256 * (b as int) + 65536 * (c as int);
            v % 256 == a && v / 256 % 256 == b && v / 65536 % 256 == c
  {
    var v := a + 256 * (b as int) + 65536 * (c as int);
    assert v / 256 == b + 256 * (c as int);
    assert v / 65536 == c;
  }

  lemma SameBlock(s: seq<byte>, off: nat, head: seq<byte>)
    requires off + BLOCK_HEADER <= |s| && s[off..off + BLOCK_HEADER] == head
    ensures |head| == BLOCK_HEADER && BlockAt(s, off) == BlockAt(head, 0)
  {
    assert head[0] == s[off] && head[1] == s[off + 1] && head[2] == s[off + 2];
  }

  // A block at pos: its header, and what lies behind it.
  lemma BlockInFile(s: seq<byte>, pos: nat, w: Coded, last: bool, behind: seq<byte>) returns (b: Block)
    requires CodedOk(w) && pos <= |s| && s[pos..] == HeadOf(last, w) + w.body + behind
    ensures pos + BLOCK_HEADER + |w.body| + |behind| == |s|
    ensures b == BlockAt(s, pos) && b.last == last && b.stored == |w.body|
    ensures s[pos + BLOCK_HEADER + |w.body|..] == behind
  {
    var t, n := s[pos..], BLOCK_HEADER + |w.body|;
    var head := HeadOf(last, w);
    assert t[..BLOCK_HEADER] == head && t[n..] == behind;
    SliceOfDrop(s, pos, pos, pos + BLOCK_HEADER);
    assert t[0..BLOCK_HEADER] == t[..BLOCK_HEADER];
    SameBlock(s, pos, head);
    BlockBits(last, w);
    b := BlockAt(s, pos);
    SliceOfDrop(s, pos, pos + n, |s|);
    assert t[n..|t|] == t[n..] && s[pos + n..|s|] == s[pos + n..];
  }

  lemma SeekLast(s: seq<byte>, pos: nat, b: Block, checksum: bool, end: nat)
    requires pos <= |s| && b.last && end == pos + b.stored + ChecksumSize(checksum) <= |s|
    ensures WalkSeeking(s, pos, b, checksum) == Some(end)
  {
  }

  lemma SeekMore(s: seq<byte>, pos: nat, b: Block, checksum: bool, head: nat, next: nat, b': Block, end: nat)
    requires pos <= |s| && !b.last && head == pos + b.stored && next == head + BLOCK_HEADER <= |s|
    requires b' == BlockAt(s, head) && WalkSeeking(s, next, b', checksum) == Some(end)
    ensures WalkSeeking(s, pos, b, checksum) == Some(end)
  {
  }

  // Walking over well-formed blocks ends behind them and the checksum.
  lemma {:induction false} WalkBlocks(s: seq<byte>, pos: nat, ws: seq<Coded>, checksum: bool, rest: seq<byte>)
    returns (b: Block, at: nat, end: nat)
    requires WellFormed(ws)
    requires pos <= |s| && s[pos..] == Blocks(ws) + rest && ChecksumSize(checksum) <= |rest|
    ensures at == pos + BLOCK_HEADER <= |s| && b == BlockAt(s, pos)
    ensures end == pos + StoredSize(ws) + ChecksumSize(checksum) <= |s|
    ensures WalkSeeking(s, at, b, checksum) == Some(end)
    decreases |ws|
  {
    var next;
    b, next := FirstBlock(s, pos, ws, rest);
    at := pos + BLOCK_HEADER;
    if |ws| == 1 {
      end := next + ChecksumSize(checksum);
      SeekLast(s, at, b, checksum, end);
    } else {
      var b', at';
      b', at', end := WalkBlocks(s, next, ws[1..], checksum, rest);
      SeekMore(s, at, b, checksum, next, at', b', end);
    }
  }

  lemma FirstBlock(s: seq<byte>, pos: nat, ws: seq<Coded>, rest: seq<byte>) returns (b: Block, next: nat)
    requires WellFormed(ws) && pos <= |s| && s[pos..] == Blocks(ws) + rest
    ensures next == pos + BLOCK_HEADER + |ws[0].body| <= |s| && s[next..] == Blocks(ws[1..]) + rest
    ensures b == BlockAt(s, pos) && b.last == (|ws| == 1) && next == pos + BLOCK_HEADER + b.stored
    ensures StoredSize(ws) == next - pos + StoredSize(ws[1..]) && next + |Blocks(ws[1..])| + |rest| == |s|
  {
    var w, behind := ws[0], Blocks(ws[1..]) + rest;
    assert s[pos..] == HeadOf(|ws| == 1, w) + w.body + behind;
    b := BlockInFile(s, pos, w, |ws| == 1, behind);
    next := pos + BLOCK_HEADER + |w.body|;
  }

  // What the library says about a header of n bytes at the start of s, and about its first five bytes.
  ghost predicate HeaderOf(parse: Parser, s: seq<byte>, n: nat, checksum: bool) {
    && 0 < n && 5 <= n + 3 <= |s|
    && (match parse(s[..5]) case Error => false case Need(k) => k == n case Parsed(k, _, _, _) => k == n)
    && (match parse(s[..n + 3])
        case Error => false case Need(_) => false
        case Parsed(k, skippable, c, _) => k == n && !skippable && c == checksum)
  }

  lemma StartKnown(parse: Parser, s: seq<byte>, n: nat, at: nat, b: Block, checksum: bool)
    requires HeaderOf(parse, s, n, checksum) && b == BlockAt(s, n) && at == n + BLOCK_HEADER
    ensures FrameStart(parse, s) == Some(Start(at, checksum, b))
  {
    StartsWith(s, n + BLOCK_HEADER, n);
  }

  lemma StartsWith(s: seq<byte>, n: nat, off: nat)
    requires off + BLOCK_HEADER <= n <= |s|
    ensures BlockAt(s[..n], off) == BlockAt(s, off)
  {
  }

  // On a frame that consists of a header, blocks and an optional checksum both walkers compute the
  // length of the header plus, for every block, three bytes and its stored size, plus the checksum.
  lemma FrameLength(parse: Parser, s: seq<byte>, head: nat, ws: seq<Coded>, checksum: bool, rest: seq<byte>,
                    bufSize: nat)
    requires WellFormed(ws) && head <= |s| && s[head..] == Blocks(ws) + rest && ChecksumSize(checksum) <= |rest|
    requires HeaderOf(parse, s, head, checksum)
    ensures var n := head + StoredSize(ws) + ChecksumSize(checksum);
            && ReadSeeking(parse, s) == Some(n)
            && (ReadBuffered(parse, s, bufSize) == Some(n) <==> n <= bufSize && PREFIX < bufSize)
  {
    hide ReadSeeking, ReadBuffered, WalkSeeking, WellFormed, Blocks, StoredSize;
    var b, at, end := WalkBlocks(s, head, ws, checksum, rest);
    StartKnown(parse, s, head, at, b, checksum);
    SeekFrom(parse, s, Start(at, checksum, b), end);
    WalkersAgree(parse, s, bufSize, end);
  }

  lemma SeekFrom(parse: Parser, s: seq<byte>, st: Start, end: nat)
    requires FrameStart(parse, s) == Some(st) && st.len <= |s|
    requires WalkSeeking(s, st.len, st.block, st.checksum) == Some(end)
    ensures ReadSeeking(parse, s) == Some(end)
  {
  }
}
