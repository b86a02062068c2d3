/**
 What the scanner of an uncompressed archive does with any header, and what extraction returns for any item.
 */
module ArchiveExact {
  import opened Bytes
  import opened Numerals
  import opened TarHeader
  import opened TarBlock
  import opened TarExact
  import opened PaxDecoder
  import opened CacheItem
  import opened ScanLoop
  import opened Archive

  // A round goes on behind the header and the content, in whole blocks, or to the end of the file if that is
  // nearer: an archive that is cut off in the content of its last entry is listed.
  lemma RoundExactly(widen: Widen, file: seq<byte>, pos: nat, d: Decoded, p: Decoded, items: seq<Item>)
    requires pos + 512 <= pos + d.headerSize <= |file| && Sized(d)
    requires InfoAt(widen, file, pos, Some(d)) == Some((p, items))
    requires !IsZero(file[pos..pos + 512]) && HeaderAt(file, pos) == Some(d)
    ensures var next := pos + d.headerSize + Round512(p.info.size);
            ScanOne(widen, file, pos) == More(items, if next < |file| then next else |file|)
  {
    hide HeaderAt, AddPaxInfo;
    HeaderAtFits(file, pos);
  }

  // An archive is scanned exactly if its first block is an accepted 'x' or 'g' block of a pax archive.
  lemma ScannedExactly(widen: Widen, file: seq<byte>)
    ensures if |file| >= 512 && Accepted(file[..512]) && PosixMagic(file[..512]) && file[156] in {103, 120}
            then Scan(widen, file) == Loop(Rounds(widen, file), |file|, 0) else Scan(widen, file) == None
  {
    hide Accepted, CheckTarHeader, Loop, FormatOf;
    if |file| >= 512 {
      CheckedExactly(file[..512]);
      if Accepted(file[..512]) {
        PosixFormat(file[..512]);
      }
    }
  }

  lemma PosixFormat(h: seq<byte>)
    requires |h| == 512 && Accepted(h)
    ensures FormatOf(h) == Posix <==> PosixMagic(h) && h[156] in {103, 120}
  {
    hide DecodeOctal, Sum, Negative;
    FormatIs(h);
  }

  // ------------------------------------------------------------------------------------ global headers

  ghost predicate IsGlobal(h: seq<byte>)
    requires |h| == 512
  {
    Accepted(h) && PosixMagic(h) && h[156] == 103
  }

  // Of a global header the scanner passes over the block, whatever its size field says.
  lemma GlobalHeader(widen: Widen, file: seq<byte>, pos: nat)
    requires pos + 512 <= |file| && IsGlobal(file[pos..pos + 512])
    ensures ScanOne(widen, file, pos) == More([], pos + 512)
  {
    hide Accepted, DecodeOctal, CheckTarHeader;
    var h := file[pos..pos + 512];
    FirstExactly(h);
    FormatIs(h);
    assert h[148] > 0 && h[148] == file[pos + 148] by {
      CheckedExactly(h);
      NotZeroBlock(h);
    }
    var d := Decoded(Posix, 0, 0, 103, 512, [], NO_INFO);
    assert FormatOf(h) == Posix;
    assert HeaderAt(file, pos) == Some(d);
    RoundExactly(widen, file, pos, d, d, []);
  }

  lemma NotZeroBlock(h: seq<byte>)
    requires |h| == 512 && Accepted(h)
    ensures h[148] > 0
  {
  }

  // So it gets behind the records of a global header exactly if there are none.
  lemma GlobalHeaderPassed(widen: Widen, file: seq<byte>, pos: nat)
    requires pos + 512 <= |file| && IsGlobal(file[pos..pos + 512])
    requires pos + 512 + Round512(DecodeOctal(file[pos..pos + 512][124..136])) <= |file|
    ensures var size := DecodeOctal(file[pos..pos + 512][124..136]);
            ScanOne(widen, file, pos) == More([], pos + 512 + Round512(size)) <==> size == 0
  {
    hide IsGlobal, ScanOne, DecodeOctal;
    GlobalHeader(widen, file, pos);
  }

  // And otherwise takes the records for a header: an archive that begins with a global header with a comment, as
  // git writes it, is refused.
  lemma CommentRefused(widen: Widen, h: seq<byte>, text: seq<byte>, rest: seq<byte>)
    requires |h| == 512 && IsGlobal(h) && 0 < |text| <= 257 && text[0] != 0
    ensures Scan(widen, h + text + Zeros(512 - |text|) + rest) == None
  {
    hide Accepted, DecodeOctal, CheckTarHeader, ScanOne, Zeros;
    var file := h + text + Zeros(512 - |text|) + rest;
    var b := text + Zeros(512 - |text|);
    assert file[..512] == file[0..512] == h && file[512..1024] == b;
    GlobalHeader(widen, file, 0);
    NoMagic(b);
    ScannedExactly(widen, file);
    assert file[156] == h[156];
    RecordsBreak(widen, file, b);
    var round := Rounds(widen, file);
    assert round(0) == More([], 512) && round(512) == Broken;
    assert Loop(round, |file|, 512) == None;
  }

  lemma NoMagic(b: seq<byte>)
    requires |b| == 512 && b[257] == 0
    ensures CheckTarHeader(b) == None
  {
    hide DecodeOctal, Sum, SignedSum;
    assert b[MAGIC_OFF..261][0] == 0;
    assert MAGIC[..4][0] == 117;
  }

  lemma RecordsBreak(widen: Widen, file: seq<byte>, b: seq<byte>)
    requires |file| >= 1024 && file[512..1024] == b && b[0] != 0 && CheckTarHeader(b) == None
    ensures ScanOne(widen, file, 512) == Broken
  {
    hide CheckTarHeader;
    assert !IsZero(file[512..512 + 512]);
    assert FirstHeader(b) == None;
  }

  // -------------------------------------------------------------------------------------- extracting

  // As many bytes behind the header as the entry has, or up to the end of the file; nothing behind it is an error.
  lemma ExtractedExactly(file: seq<byte>, i: Item)
    ensures var r, start := ExtractPax(file, i), i.pos + i.hdrSize;
            && (r.Some? <==> start < |file|)
            && (r.Some? ==> r.value <= file[start..]
                            && |r.value| == if i.dataSize <= |file| - start then i.dataSize else |file| - start)
  {
  }
}
