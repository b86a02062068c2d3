/**
 Which Zstd frames the scanner takes for the header of an entry, and where it takes an archive to end.
 */
module ZstdHeaders {
  import opened Bytes
  import opened ZstdWalk
  import opened ZstdExact
  import opened CompressedScan

  // A frame of n bytes at the start of s that holds the text h: with a checksum, with the size of the text in its
  // header, and with whole blocks of 512 bytes.
  ghost predicate ZstdHeaderFrame(z: Zstd, s: seq<byte>, n: nat, h: seq<byte>, head: nat, ws: seq<Coded>) {
    && FrameOf(z.parse, s, n, head, ws, true) && ws[0].body != [] && n <= 2 * 1024 * 1024
    && s[..4] == [0x28, 0xB5, 0x2F, 0xFD]
    && (match z.parse(s[..head + 3]) case Parsed(_, _, _, size) => size == |h| case _ => false)
    && 512 <= |h| < 2 * 1024 * 1024 && |h| % 512 == 0 && z.decode(s[..n]) == Some(h)
  }

  ghost predicate IsZstdHeader(z: Zstd, s: seq<byte>, n: nat, h: seq<byte>) {
    exists head: nat, ws: seq<Coded> :: ZstdHeaderFrame(z, s, n, h, head, ws)
  }

  lemma FirstStored(s: seq<byte>, head: nat, ws: seq<Coded>)
    requires WellFormed(ws) && head + StoredSize(ws) <= |s| && s[head..head + StoredSize(ws)] == Blocks(ws)
    ensures head + 3 <= |s| && BlockAt(s, head).stored == |ws[0].body|
  {
    var rest := SliceAndRest(s, head, head + StoredSize(ws), Blocks(ws));
    var b, next := FirstBlock(s, head, ws, rest);
  }

  lemma ZstdHeaderRead(z: Zstd, file: seq<byte>, pos: nat, n: nat, h: seq<byte>, head: nat, ws: seq<Coded>)
    requires pos <= |file| && ZstdHeaderFrame(z, file[pos..], n, h, head, ws)
    ensures ZstdFront(z, file, pos) == CompressedScan.Text(h, n)
  {
    hide ReadBuffered, FrameStart, HeaderOf, Blocks, StoredSize, WellFormed, BlockAt;
    var s := file[pos..];
    assert IsFrame(z.parse, s, n);
    BufferedExactly(z.parse, s, BUF_SIZE, n);
    FirstStored(s, head, ws);
    StartOf(z.parse, s, head, true);
    SliceOfDrop(file, pos, pos, pos + 4);
    assert s[0..4] == s[..4];
  }

  lemma StartOf(parse: Parser, s: seq<byte>, head: nat, checksum: bool)
    requires HeaderOf(parse, s, head, checksum)
    ensures FrameStart(parse, s) == Some(Start(head + 3, checksum, BlockAt(s, head)))
    ensures parse(s[..head + 3]).Parsed? && ContentSize(parse, s, head + 3) == parse(s[..head + 3]).contentSize
  {
    StartKnown(parse, s, head, head + 3, BlockAt(s, head), checksum);
  }

  lemma ZstdHeaderFound(z: Zstd, file: seq<byte>, pos: nat, n: nat, h: seq<byte>)
    requires ZstdFront(z, file, pos) == CompressedScan.Text(h, n)
    ensures pos <= |file| && IsZstdHeader(z, file[pos..], n, h)
  {
    hide ReadBuffered, FrameStart, HeaderOf, Blocks, StoredSize, WellFormed, BlockAt;
    var s := file[pos..];
    BufferedExactly(z.parse, s, BUF_SIZE, n);
    var head: nat, ws: seq<Coded>, checksum: bool :| FrameOf(z.parse, s, n, head, ws, checksum);
    FirstStored(s, head, ws);
    StartOf(z.parse, s, head, checksum);
    SliceOfDrop(file, pos, pos, pos + 4);
    assert s[0..4] == s[..4];
    assert ZstdHeaderFrame(z, s, n, h, head, ws);
  }

  // The scanner finds the text of a header exactly in these frames, and the end of the archive exactly at a valid
  // frame of 22 bytes.
  lemma ZstdFrontExactly(z: Zstd, file: seq<byte>, pos: nat, n: nat, h: seq<byte>, end: nat)
    requires pos <= |file|
    ensures ZstdFront(z, file, pos) == CompressedScan.Text(h, n) <==> IsZstdHeader(z, file[pos..], n, h)
    ensures ZstdFront(z, file, pos) == Stop(end) <==>
              && end == pos + 22 <= |file| && file[pos..pos + 4] == [0x55, 0x2A, 0x4D, 0x18]
              && z.validEnd(file[pos..end])
  {
    hide ZstdHeaderFrame, ReadBuffered, ZstdHeader;
    if ZstdFront(z, file, pos) == CompressedScan.Text(h, n) {
      ZstdHeaderFound(z, file, pos, n, h);
    }
    if IsZstdHeader(z, file[pos..], n, h) {
      var head: nat, ws: seq<Coded> :| ZstdHeaderFrame(z, file[pos..], n, h, head, ws);
      ZstdHeaderRead(z, file, pos, n, h, head, ws);
    }
  }

  // What init takes from the bytes behind a frame header: the four bytes of the size of a skippable frame, or the
  // three of the first block header.
  lemma InitExactly(parse: Parser, b: seq<byte>, size: nat, skippable: bool, checksum: bool, content: nat)
    requires parse(b) == Parsed(size, skippable, checksum, content) && size > 0
    ensures Init(parse, b)
            == if skippable then
                 if size + 4 > |b| then None
                 else Some(Skippable(size + 4, LittleEndian(b[size], b[size + 1], b[size + 2], b[size + 3])))
               else if size + 3 > |b| then None
               else Some(Ordinary(size + 3, checksum, content, BlockAt(b, size)))
  {
    if skippable && size + 4 <= |b| {
      FourBytes(b[size..size + 4]);
    }
  }

  function LittleEndian(a: nat, b: nat, c: nat, d: nat): nat {
    a + 0x100 * b + 0x1_0000 * c + 0x100_0000 * d
  }

  lemma FourBytes(s: seq<byte>)
    requires |s| == 4
    ensures Value(s) == LittleEndian(s[0], s[1], s[2], s[3])
  {
    var a, b, c := s[1..], s[1..][1..], s[1..][1..][1..];
    assert a[0] == s[1] && b[0] == s[2] && c[0] == s[3] && c[1..] == [];
    assert Value(c) == s[3] && Value(b) == s[2] + 256 * Value(c) && Value(a) == s[1] + 256 * Value(b);
  }
}
