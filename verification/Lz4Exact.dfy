/**
 The frames of an LZ4 archive as the scanner passes them, as conditions on their bytes (LZ4 Frame Format
 Description): where a frame with a content ends, and what a frame with a header holds.
 */
module Lz4Exact {
  import opened Bytes
  import opened Numerals
  import opened CacheItem
  import opened CompressedScan
  import CompressedLoops

  // A block: whether it is stored as it is, its bytes, and their checksum.
  datatype Lz4Block = Lz4Block(raw: bool, body: seq<byte>, check: seq<byte>)

  predicate BlockOk(w: Lz4Block) {
    |w.body| < 0x8000_0000 && (w.raw || w.body != []) && |w.check| == 4
  }

  // The size of a block in four bytes, with the highest bit for a block that is stored as it is.
  function SizeWord(w: Lz4Block): (s: seq<byte>)
    ensures |s| == 4
  {
    LittleEndian(|w.body| + if w.raw then 0x8000_0000 else 0, 4)
  }

  function BlockText(ws: seq<Lz4Block>): seq<byte> {
    if ws == [] then [] else SizeWord(ws[0]) + ws[0].body + ws[0].check + BlockText(ws[1..])
  }

  // Four bytes, the body and four more bytes for every block.
  function BlockSizes(ws: seq<Lz4Block>): nat {
    if ws == [] then 0 else 4 + |ws[0].body| + 4 + BlockSizes(ws[1..])
  }

  ghost predicate BlocksOk(ws: seq<Lz4Block>) {
    forall w | w in ws :: BlockOk(w)
  }

  // The end mark and the checksum of the content.
  function Footer(sum: seq<byte>): seq<byte> {
    [0, 0, 0, 0] + sum
  }

  // ------------------------------------------------------------------------------------ little endian

  lemma FirstDigit(b: byte, v: nat)
    ensures (b + 256 * v) % 256 == b && (b + 256 * v) / 256 == v
  {
  }

  lemma {:induction false} LittleBack(s: seq<byte>)
    ensures Value(s) < Pow(256, |s|) && LittleEndian(Value(s), |s|) == s
    decreases |s|
  {
    if s != [] {
      LittleBack(s[1..]);
      FirstDigit(s[0], Value(s[1..]));
      assert s == [s[0]] + s[1..];
    }
  }

  // The highest of 32 bits, and the others.
  lemma HighBit(v: nat)
    requires v < 0x1_0000_0000
    ensures v == v % 0x8000_0000 + if v < 0x8000_0000 then 0 else 0x8000_0000
  {
  }

  // The scanner sees in the size of a block what it stands for.
  lemma SizeSeen(w: Lz4Block)
    requires BlockOk(w)
    ensures var v := Value(SizeWord(w));
            v != 0 && v % 0x8000_0000 == |w.body| && (v < 0x8000_0000 <==> !w.raw)
  {
    hide Value, LittleEndian, Pow;
    FieldWidths();
    ValueBack(|w.body| + if w.raw then 0x8000_0000 else 0, 4);
  }

  // Every word that is not zero is such a size.
  lemma BlockOfSize(word: seq<byte>, body: seq<byte>, check: seq<byte>) returns (w: Lz4Block)
    requires |word| == 4 && Value(word) != 0 && |body| == Value(word) % 0x8000_0000 && |check| == 4
    ensures BlockOk(w) && SizeWord(w) == word && w.body == body && w.check == check
  {
    hide Value, LittleEndian, Pow;
    LittleBack(word);
    FieldWidths();
    HighBit(Value(word));
    w := Lz4Block(Value(word) >= 0x8000_0000, body, check);
  }

  lemma ZeroWord(word: seq<byte>)
    requires |word| == 4
    ensures Value(word) == 0 <==> word == [0, 0, 0, 0]
  {
    hide Value, LittleEndian, Pow;
    LittleBack(word);
    FieldWidths();
    ValueBack(0, 4);
    NoDigits();
  }

  lemma NoDigits()
    ensures LittleEndian(0, 4) == [0, 0, 0, 0]
  {
    assert LittleEndian(0, 1) == [0] + LittleEndian(0, 0);
    assert LittleEndian(0, 2) == [0] + LittleEndian(0, 1);
    assert LittleEndian(0, 3) == [0] + LittleEndian(0, 2);
    assert LittleEndian(0, 4) == [0] + LittleEndian(0, 3);
  }

  // ------------------------------------------------------------------------------------- the blocks

  lemma StepOver(file: seq<byte>, pos: nat, size: nat, next: nat, end: Option<nat>)
    requires pos <= |file| && size != 0 && next == pos + size % 0x8000_0000 + 4 && next + 4 <= |file|
    requires Lz4Blocks(file, next + 4, Word(file, next)) == end
    ensures Lz4Blocks(file, pos, size) == end
  {
  }

  // The size of the first block, or the end mark, is in front of pos.
  lemma {:induction false} BlocksPassed(file: seq<byte>, pos: nat, ws: seq<Lz4Block>, sum: seq<byte>, rest: seq<byte>)
    requires BlocksOk(ws) && |sum| == 4 && 4 <= pos <= |file|
    requires file[pos - 4..] == BlockText(ws) + Footer(sum) + rest
    ensures Lz4Blocks(file, pos, Word(file, pos - 4)) == Some(pos + BlockSizes(ws) + 4)
    decreases |ws|
  {
    hide Value, SizeWord, BlockOk, Word;
    var at := pos - 4;
    if ws == [] {
      WordBehind(file, at, [0, 0, 0, 0], sum + rest);
      ZeroWord([0, 0, 0, 0]);
    } else {
      var w, behind := ws[0], BlockText(ws[1..]) + Footer(sum) + rest;
      assert file[at..] == SizeWord(w) + (w.body + w.check + behind);
      WordBehind(file, at, SizeWord(w), w.body + w.check + behind);
      DropFront(file, at, SizeWord(w), w.body + w.check + behind);
      NextBlock(file, pos, w, behind);
      BlocksPassed(file, pos + |w.body| + 8, ws[1..], sum, rest);
      StepOver(file, pos, Word(file, at), pos + |w.body| + 4, Some(pos + BlockSizes(ws) + 4));
    }
  }

  lemma NextBlock(file: seq<byte>, pos: nat, w: Lz4Block, behind: seq<byte>)
    requires BlockOk(w) && pos <= |file| && file[pos..] == w.body + w.check + behind && |behind| >= 4
    ensures Value(SizeWord(w)) != 0 && Value(SizeWord(w)) % 0x8000_0000 == |w.body|
    ensures pos + |w.body| + 8 <= |file| && file[pos + |w.body| + 4..] == behind
  {
    hide Value, SizeWord;
    SizeSeen(w);
    DropFront(file, pos, w.body + w.check, behind);
  }

  lemma DropFront(file: seq<byte>, at: nat, front: seq<byte>, behind: seq<byte>)
    requires at <= |file| && file[at..] == front + behind
    ensures at + |front| + |behind| == |file| && file[at + |front|..] == behind
  {
    assert file[at..][|front|..] == behind;
  }

  lemma WordBehind(file: seq<byte>, at: nat, word: seq<byte>, behind: seq<byte>)
    requires at <= |file| && file[at..] == word + behind && |word| == 4
    ensures at + 4 <= |file| && Word(file, at) == Value(word)
  {
    assert file[at..at + 4] == file[at..][..4];
  }

  lemma {:induction false} BlocksSplit(file: seq<byte>, pos: nat, end: nat) returns (ws: seq<Lz4Block>, sum: seq<byte>)
    requires 4 <= pos <= |file| && Lz4Blocks(file, pos, Word(file, pos - 4)) == Some(end)
    ensures BlocksOk(ws) && |sum| == 4 && end == pos + BlockSizes(ws) + 4 <= |file|
    ensures file[pos - 4..end] == BlockText(ws) + Footer(sum)
    ensures ws == [] <==> Word(file, pos - 4) == 0
    ensures ws != [] ==> SizeWord(ws[0]) == file[pos - 4..pos]
    decreases |file| - pos
  {
    hide Value, SizeWord, BlockOk;
    var word := file[pos - 4..pos];
    var size := Value(word);
    if size == 0 {
      ZeroWord(word);
      ws, sum := [], file[pos..end];
      assert file[pos - 4..end] == word + sum;
    } else {
      var mid := pos + size % UNCOMPRESSED;
      var w := BlockOfSize(word, file[pos..mid], file[mid..mid + 4]);
      var vs;
      vs, sum := BlocksSplit(file, mid + 8, end);
      ws := [w] + vs;
      Assemble(file, pos - 4, pos, mid, mid + 4, end);
      assert ws[1..] == vs;
    }
  }

  lemma Assemble(file: seq<byte>, a: nat, b: nat, c: nat, d: nat, e: nat)
    requires a <= b <= c <= d <= e <= |file|
    ensures file[a..e] == file[a..b] + file[b..c] + file[c..d] + file[d..e]
  {
    assert file[a..c] == file[a..b] + file[b..c];
    assert file[a..d] == file[a..c] + file[c..d];
    assert file[a..e] == file[a..d] + file[d..e];
  }

  // -------------------------------------------------------------------------------- content frames

  // The library accepts these 19 bytes, a frame header of 15 bytes and the size of the first block, and finds the
  // flags in it that are required.
  ghost predicate HeaderOk(z: Lz4, b: seq<byte>)
    requires |b| == 19
  {
    && b[..4] == [0x04, 0x22, 0x4D, 0x18]
    && match z.parse(b)
       case None => false
       case Some(i) =>
         && i.headerSize == 15 && !i.skippable && i.contentSize >= 512 && i.contentSize % 512 == 0
         && i.blockChecksum && i.contentChecksum && i.independent && i.max4MB
  }

  // A frame of n bytes at the start of s: 15 bytes, the blocks, the first of which is not empty, and the footer.
  ghost predicate ContentFrame(z: Lz4, s: seq<byte>, n: nat, ws: seq<Lz4Block>, sum: seq<byte>) {
    && BlocksOk(ws) && ws != [] && ws[0].body != [] && |sum| == 4
    && n == 15 + BlockSizes(ws) + 4 + 4 <= |s|
    && HeaderOk(z, s[..19])
    && s[15..n] == BlockText(ws) + Footer(sum)
  }

  ghost predicate IsContentFrame(z: Lz4, s: seq<byte>, n: nat) {
    exists ws: seq<Lz4Block>, sum: seq<byte> :: ContentFrame(z, s, n, ws, sum)
  }

  lemma FirstBytes(file: seq<byte>, pos: nat)
    requires pos + 19 <= |file|
    ensures var b := file[pos..pos + 19];
            file[pos..][..19] == b && file[pos..pos + 4] == b[..4] && b[15..19] == file[pos + 15..pos + 19]
  {
  }

  lemma AcceptedHeader(z: Lz4, b: seq<byte>)
    requires |b| == 19
    ensures HeaderOk(z, b) && Value(b[15..19]) % 0x8000_0000 != 0
            <==> b[..4] == LZ4_MAGIC && InitLz4(z, b).Some? && Accepted(InitLz4(z, b).value)
    ensures HeaderOk(z, b) && Value(b[15..19]) % 0x8000_0000 != 0 ==>
              var f := InitLz4(z, b).value;
              f.dataSize == Value(b[15..19]) % 0x8000_0000 && (f.compressed <==> Value(b[15..19]) < 0x8000_0000)
  {
  }

  lemma {:induction false} FirstSize(ws: seq<Lz4Block>)
    requires ws != []
    ensures BlockSizes(ws) >= 8 + |ws[0].body| && |BlockText(ws)| >= 4 && BlockText(ws)[..4] == SizeWord(ws[0])
  {
  }

  // A content frame is passed, whatever lies behind it.
  lemma FramePassed(z: Lz4, file: seq<byte>, pos: nat, n: nat)
    requires pos <= |file| && IsContentFrame(z, file[pos..], n)
    ensures Lz4Content(z, file, pos) == Some(pos + n)
  {
    hide Value, SizeWord, HeaderOk, InitLz4, Accepted, Lz4Blocks, BlockText, BlockSizes;
    var s := file[pos..];
    var ws: seq<Lz4Block>, sum: seq<byte> :| ContentFrame(z, s, n, ws, sum);
    var rest := s[n..];
    FirstSize(ws);
    SliceOfDrop(file, pos, pos, pos + 19);
    SliceOfDrop(file, pos, pos + 15, pos + n);
    assert file[pos + 15..] == BlockText(ws) + Footer(sum) + rest by {
      assert file[pos + 15..] == s[15..n] + rest;
    }
    assert s[15..n][..4] == SizeWord(ws[0]) && s[15..n][..4] == s[15..19];
    SizeSeen(ws[0]);
    var b := s[..19];
    assert b[15..19] == s[15..19] && b == file[pos..pos + 19] && file[pos..pos + 4] == b[..4];
    AcceptedHeader(z, b);
    BlocksPassed(file, pos + 19, ws, sum, rest);
  }

  // And nothing else is.
  lemma FrameFound(z: Lz4, file: seq<byte>, pos: nat, end: nat)
    requires Lz4Content(z, file, pos) == Some(end)
    ensures pos <= end <= |file| && IsContentFrame(z, file[pos..], end - pos)
  {
    hide HeaderOk, InitLz4, Accepted, Value, SizeWord, BlockOk, BlockText, Lz4Blocks;
    var s, b, n := file[pos..], file[pos..pos + 19], end - pos;
    FirstBytes(file, pos);
    AcceptedHeader(z, b);
    var ws, sum := BlocksSplit(file, pos + 19, end);
    SizeSeen(ws[0]);
    SliceOfDrop(file, pos, pos + 15, end);
    assert ContentFrame(z, s, n, ws, sum);
  }

  // The scanner accepts a content frame exactly if these bytes are there, and then goes on behind them.
  lemma ContentExactly(z: Lz4, file: seq<byte>, pos: nat, n: nat)
    requires pos <= |file|
    ensures Lz4Content(z, file, pos) == Some(pos + n) <==> IsContentFrame(z, file[pos..], n)
  {
    if Lz4Content(z, file, pos) == Some(pos + n) {
      FrameFound(z, file, pos, pos + n);
    }
    if IsContentFrame(z, file[pos..], n) {
      FramePassed(z, file, pos, n);
    }
  }

  // --------------------------------------------------------------------------------- header frames

  // A frame of n bytes at the start of s that holds the text h: one block with its checksum, of at most one MiB,
  // whole blocks of 512 bytes when it is unpacked.
  ghost predicate HeaderFrame(z: Lz4, s: seq<byte>, n: nat, h: seq<byte>, w: Lz4Block, sum: seq<byte>) {
    && BlockOk(w) && 0 < |w.body| <= 0x10_0000 && |sum| == 4
    && n == 15 + 4 + |w.body| + 4 + 4 + 4 <= |s|
    && HeaderOk(z, s[..19])
    && s[15..n] == SizeWord(w) + w.body + w.check + [0, 0, 0, 0] + sum
    && Value(w.check) == z.hash(w.body)
    && (if w.raw then Some(w.body) else z.decode(w.body)) == Some(h) && |h| % 512 == 0
  }

  ghost predicate IsHeaderFrame(z: Lz4, s: seq<byte>, n: nat, h: seq<byte>) {
    exists w: Lz4Block, sum: seq<byte> :: HeaderFrame(z, s, n, h, w, sum)
  }

  // Where the parts of such a frame lie in the file.
  lemma HeaderParts(file: seq<byte>, pos: nat, n: nat, word: seq<byte>, body: seq<byte>, check: seq<byte>,
                    mark: seq<byte>, sum: seq<byte>)
    requires |word| == |check| == |mark| == |sum| == 4
    requires pos + n <= |file| && n == 15 + 4 + |body| + 4 + 4 + 4
    ensures var q := pos + 19;
            file[pos + 15..pos + n] == word + body + check + mark + sum <==>
              && file[pos + 15..q] == word && file[q..q + |body|] == body
              && file[q + |body|..q + |body| + 4] == check && file[q + |body| + 4..q + |body| + 8] == mark
              && file[q + |body| + 8..pos + n] == sum
  {
    hide Value;
    var s, q, m := file[pos + 15..pos + n], pos + 19, |body|;
    var t := word + body + check + mark + sum;
    SliceOfSlice(file, pos + 15, pos + n, 0, 4);
    SliceOfSlice(file, pos + 15, pos + n, 4, 4 + m);
    SliceOfSlice(file, pos + 15, pos + n, 4 + m, 8 + m);
    SliceOfSlice(file, pos + 15, pos + n, 8 + m, 12 + m);
    SliceOfSlice(file, pos + 15, pos + n, 12 + m, 16 + m);
    FiveParts(t, word, body, check, mark, sum);
    FiveSlices(s, m);
  }

  lemma FiveParts(t: seq<byte>, word: seq<byte>, body: seq<byte>, check: seq<byte>, mark: seq<byte>, sum: seq<byte>)
    requires |word| == |check| == |mark| == |sum| == 4 && t == word + body + check + mark + sum
    ensures var m := |body|;
            && |t| == m + 16 && t[0..4] == word && t[4..4 + m] == body && t[4 + m..8 + m] == check
            && t[8 + m..12 + m] == mark && t[12 + m..16 + m] == sum
  {
  }

  lemma FiveSlices(s: seq<byte>, m: nat)
    requires |s| == m + 16
    ensures s == s[0..4] + s[4..4 + m] + s[4 + m..8 + m] + s[8 + m..12 + m] + s[12 + m..16 + m]
  {
    Assemble(s, 0, 4, 4 + m, 8 + m, 12 + m);
    assert s == s[0..12 + m] + s[12 + m..16 + m];
  }

  lemma HeaderRead(z: Lz4, file: seq<byte>, pos: nat, n: nat, h: seq<byte>, w: Lz4Block, sum: seq<byte>)
    requires pos <= |file| && HeaderFrame(z, file[pos..], n, h, w, sum)
    ensures Lz4Front(z, file, pos) == Text(h, n)
  {
    hide HeaderOk, InitLz4, Accepted, Value, SizeWord;
    var b := file[pos..pos + 19];
    SliceOfDrop(file, pos, pos + 15, pos + n);
    HeaderParts(file, pos, n, SizeWord(w), w.body, w.check, [0, 0, 0, 0], sum);
    FirstBytes(file, pos);
    SizeSeen(w);
    AcceptedHeader(z, b);
    ZeroWord([0, 0, 0, 0]);
  }

  // What the scanner has seen when it has found a text; the only block has m bytes.
  lemma HeaderSeen(z: Lz4, file: seq<byte>, pos: nat, n: nat, h: seq<byte>) returns (m: nat)
    requires Lz4Front(z, file, pos) == Text(h, n)
    ensures n == 15 + 4 + m + 4 + 4 + 4 && pos + n <= |file| && 0 < m <= 0x10_0000
    ensures var word, q := file[pos + 15..pos + 19], pos + 19;
            && HeaderOk(z, file[pos..q]) && Value(word) % 0x8000_0000 == m
            && Word(file, q + m) == z.hash(file[q..q + m]) && Word(file, q + m + 4) == 0
            && (if Value(word) < 0x8000_0000 then z.decode(file[q..q + m]) else Some(file[q..q + m])) == Some(h)
            && |h| % 512 == 0
  {
    hide HeaderOk, InitLz4, Accepted, Value;
    var b := file[pos..pos + 19];
    FirstBytes(file, pos);
    AcceptedHeader(z, b);
    m := InitLz4(z, b).value.dataSize;
  }

  lemma HeaderFound(z: Lz4, file: seq<byte>, pos: nat, n: nat, h: seq<byte>)
    requires Lz4Front(z, file, pos) == Text(h, n)
    ensures pos <= |file| && IsHeaderFrame(z, file[pos..], n, h)
  {
    hide HeaderOk, Value, SizeWord, Lz4Front;
    var m := HeaderSeen(z, file, pos, n, h);
    var q := pos + 19;
    FirstBytes(file, pos);
    ZeroWord(file[q + m + 4..q + m + 8]);
    var w := BlockOfSize(file[pos + 15..q], file[q..q + m], file[q + m..q + m + 4]);
    var sum := file[q + m + 8..q + m + 12];
    HeaderParts(file, pos, n, SizeWord(w), w.body, w.check, [0, 0, 0, 0], sum);
    SliceOfDrop(file, pos, pos + 15, pos + n);
    SizeSeen(w);
    FrameShown(z, file[pos..], n, h, w, sum);
  }

  lemma FrameShown(z: Lz4, s: seq<byte>, n: nat, h: seq<byte>, w: Lz4Block, sum: seq<byte>)
    requires HeaderFrame(z, s, n, h, w, sum)
    ensures IsHeaderFrame(z, s, n, h)
  {
    hide HeaderFrame;
  }

  // The scanner finds the text of a header exactly in these frames, and the end of the archive where no frame is.
  lemma HeaderExactly(z: Lz4, file: seq<byte>, pos: nat, n: nat, h: seq<byte>, end: nat)
    requires pos <= |file|
    ensures Lz4Front(z, file, pos) == Text(h, n) <==> IsHeaderFrame(z, file[pos..], n, h)
    ensures Lz4Front(z, file, pos) == Stop(end) <==>
              if pos + 19 > |file| then end == pos
              else end == pos + 19 && file[pos..pos + 4] != [0x04, 0x22, 0x4D, 0x18]
  {
    hide HeaderFrame, InitLz4, Lz4Header;
    if Lz4Front(z, file, pos) == Text(h, n) {
      HeaderFound(z, file, pos, n, h);
    }
    if IsHeaderFrame(z, file[pos..], n, h) {
      var w: Lz4Block, sum: seq<byte> :| HeaderFrame(z, file[pos..], n, h, w, sum);
      HeaderRead(z, file, pos, n, h, w, sum);
    }
  }

  // What init takes from a frame header and the four bytes behind it: the high bit of the first block size says that
  // the block is not compressed, and a content size of zero means that it is unknown, but for an empty frame.
  lemma Lz4InitExactly(z: Lz4, b: seq<byte>, i: Lz4Info)
    requires z.parse(b) == Some(i)
    ensures InitLz4(z, b)
            == if i.headerSize + 4 > |b| then None
               else
                 var size := Value(b[i.headerSize..i.headerSize + 4]);
                 if i.skippable then Some(Lz4Frame(i.headerSize + 4, size, size, false, false))
                 else
                   var data := if size < 0x8000_0000 then size else size - 0x8000_0000;
                   Some(Lz4Frame(i.headerSize + 4,
                                 if i.contentSize == 0 && data > 0 then 0xFFFF_FFFF_FFFF_FFFF else i.contentSize,
                                 data, size < 0x8000_0000,
                                 i.blockChecksum && i.contentChecksum && i.independent && i.max4MB))
  {
    if i.headerSize + 4 <= |b| {
      CompressedLoops.ValueOfFour(b[i.headerSize..i.headerSize + 4]);
    }
  }
}
