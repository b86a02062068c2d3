/**
 The scanners of compressed archives find what was packed: for any list of entries, each a frame with its header
 and, if it has any content, a frame with that, both scanners find exactly the entries, in order, whatever the
 codec does.
 */
module CompressedRoundTrip {
  import opened Bytes
  import opened PaxFlags
  import opened PaxHeader
  import opened PaxDecoder
  import opened CacheItem
  import opened ScanLoop
  import opened Archive
  import opened ArchiveRoundTrip
  import opened ZstdWalk
  import opened ZstdExact
  import opened CompressedScan
  import ZstdHeaders
  import Lz4Exact

  // The record of an entry whose frames are q, as if it stood at the beginning.
  function FrameItem(widen: Widen, e: Entry, o: Options, q: Piece): Item
    requires EntryOk(e) && |e.name| >= 2
  {
    EntryItem(widen, e, o, |EncodeHeader(e.fi, o, e.xname, e.name)|, 0)
    .(packSize := |q.head| + |q.body|, hdrPackSize := |q.head|)
  }

  // The text of a header frame is decoded.
  lemma HeaderDecoded(e: Entry, o: Options, h: seq<byte>, exact: bool) returns (d: Decoded, p: Decoded)
    requires EntryOk(e) && h == EncodeHeader(e.fi, o, e.xname, e.name)
    ensures HeaderIn(h, exact) == Some(d) && Sized(d) && d.headerSize == |h| && d.format.Posix? && d.kind == Kind(e.fi)
    ensures d.info.size == 0 <==> e.content == []
    ensures ReadHeader(d, h) == Some(p) && p.name == e.name && p.headerSize == |h|
    ensures p.info == PaxRoundTrip.Recovered(e.fi, o)
  {
    hide EncodeHeader, FirstHeader, SecondHeader, ReadHeader;
    var d1;
    d1, d, p := HeaderKnown(e, o, h);
  }

  // A round that has read such an entry adds it and goes on behind its frames.
  lemma EntryRound(widen: Widen, e: Entry, o: Options, q: Piece, exact: bool, pos: nat, h: seq<byte>, r: Read,
                   content: Option<nat>)
    requires EntryOk(e) && NameFits(widen, e.name) && h == EncodeHeader(e.fi, o, e.xname, e.name) && |q.head| > 0
    requires e.content == [] ==> q.body == []
    requires e.content != [] ==> content == Some(|q.body|)
    requires r == ReadOf(Front.Text(h, |q.head|), FrontHeader(Front.Text(h, |q.head|), exact), content)
    ensures RoundOf(widen, pos, r) == More([FrameItem(widen, e, o, q).(pos := pos)], pos + |q.head| + |q.body|)
  {
    hide EncodeHeader, HeaderIn, ReadHeader, AddPaxInfo;
    var d, p := HeaderDecoded(e, o, h, exact);
    StripPrefix(e.name);
    var total := |q.head| + |q.body|;
    var i := FrameItem(widen, e, o, q).(pos := pos);
    InfoAdded(widen, d, h, p, e.name[2..], pos, |q.head|, total, i);
  }

  // -------------------------------------------------------------------------------------------- Zstd

  ghost predicate ZstdPiece(z: Zstd, e: Entry, o: Options, q: Piece)
    requires EntryOk(e)
  {
    && ZstdHeaders.IsZstdHeader(z, q.head, |q.head|, EncodeHeader(e.fi, o, e.xname, e.name))
    && if e.content == [] then q.body == [] else IsFrame(z.parse, q.body, |q.body|)
  }

  // A frame is one wherever it stands.
  lemma FrameAnywhere(parse: Parser, s: seq<byte>, t: seq<byte>, head: nat, ws: seq<Coded>, checksum: bool)
    requires FrameOf(parse, s, |s|, head, ws, checksum) && s <= t
    ensures FrameOf(parse, t, |s|, head, ws, checksum)
  {
    hide Blocks, StoredSize, WellFormed;
    assert t[..5] == s[..5] && t[..head + 3] == s[..head + 3];
    assert t[head..head + StoredSize(ws)] == s[head..head + StoredSize(ws)];
  }

  lemma ZstdHeaderAnywhere(z: Zstd, s: seq<byte>, t: seq<byte>, h: seq<byte>)
    requires ZstdHeaders.IsZstdHeader(z, s, |s|, h) && s <= t
    ensures ZstdHeaders.IsZstdHeader(z, t, |s|, h)
  {
    hide FrameOf;
    var head: nat, ws: seq<Coded> :| ZstdHeaders.ZstdHeaderFrame(z, s, |s|, h, head, ws);
    FrameAnywhere(z.parse, s, t, head, ws, true);
    FrameInside(z.parse, s, head, ws);
    assert t[..head + 3] == s[..head + 3] && t[..4] == s[..4] && t[..|s|] == s[..|s|];
    assert ZstdHeaders.ZstdHeaderFrame(z, t, |s|, h, head, ws);
  }

  lemma FrameInside(parse: Parser, s: seq<byte>, head: nat, ws: seq<Coded>)
    requires FrameOf(parse, s, |s|, head, ws, true)
    ensures head + 3 <= |s| && 4 <= |s|
  {
  }

  lemma ContentAnywhere(parse: Parser, s: seq<byte>, t: seq<byte>)
    requires IsFrame(parse, s, |s|) && s <= t
    ensures ReadSeeking(parse, t) == Some(|s|)
  {
    hide FrameOf, ReadSeeking;
    var head: nat, ws: seq<Coded>, checksum: bool :| FrameOf(parse, s, |s|, head, ws, checksum);
    FrameAnywhere(parse, s, t, head, ws, checksum);
    FrameIsSeeking(parse, t, |s|);
  }

  lemma Behind(file: seq<byte>, p: Piece, pos: nat)
    requires LiesAt(file, p, pos)
    ensures p.head <= file[pos..] && p.body <= file[pos + |p.head|..]
  {
    SliceOfDrop(file, pos, pos, pos + |p.head|);
    SliceOfDrop(file, pos + |p.head|, pos + |p.head|, pos + |p.head| + |p.body|);
    var s, t := file[pos..], file[pos + |p.head|..];
    assert s[0..|p.head|] == s[..|p.head|] && t[0..|p.body|] == t[..|p.body|];
  }

  lemma ZstdEntryScans(z: Zstd, widen: Widen, file: seq<byte>, round: nat -> Found<Item>, e: Entry, o: Options,
                       q: Piece)
    requires EntryOk(e) && NameFits(widen, e.name) && ZstdPiece(z, e, o, q)
    requires round == RoundsOf(widen, ZstdReader(z, file))
    ensures |q.head| > 0 && Scans(round, file, q, FrameItem(widen, e, o, q))
  {
    hide EncodeHeader, HeaderIn, ZstdFront, ReadSeeking, RoundOf, ReadOf, FrameItem;
    var h := EncodeHeader(e.fi, o, e.xname, e.name);
    SomeHead(z, q.head, h);
    forall pos: nat | LiesAt(file, q, pos)
      ensures round(pos) == More([FrameItem(widen, e, o, q).(pos := pos)], pos + |q.head| + |q.body|)
    {
      Behind(file, q, pos);
      ZstdHeaderAnywhere(z, q.head, file[pos..], h);
      ZstdHeaders.ZstdFrontExactly(z, file, pos, |q.head|, h, 0);
      if e.content != [] {
        ContentAnywhere(z.parse, q.body, file[pos + |q.head|..]);
      }
      EntryRound(widen, e, o, q, false, pos, h, ZstdRead(z, file, pos), ReadSeeking(z.parse, file[pos + |q.head|..]));
    }
  }

  lemma SomeHead(z: Zstd, s: seq<byte>, h: seq<byte>)
    requires ZstdHeaders.IsZstdHeader(z, s, |s|, h)
    ensures |s| > 0
  {
  }

  // --------------------------------------------------------------------------------------------- LZ4

  ghost predicate Lz4Piece(z: Lz4, e: Entry, o: Options, q: Piece)
    requires EntryOk(e)
  {
    && Lz4Exact.IsHeaderFrame(z, q.head, |q.head|, EncodeHeader(e.fi, o, e.xname, e.name))
    && if e.content == [] then q.body == [] else Lz4Exact.IsContentFrame(z, q.body, |q.body|)
  }

  lemma Lz4HeaderAnywhere(z: Lz4, s: seq<byte>, t: seq<byte>, h: seq<byte>)
    requires Lz4Exact.IsHeaderFrame(z, s, |s|, h) && s <= t
    ensures |s| >= 31 && Lz4Exact.IsHeaderFrame(z, t, |s|, h)
  {
    hide Lz4Exact.HeaderOk, Lz4Exact.SizeWord, Value;
    var w: Lz4Exact.Lz4Block, sum: seq<byte> :| Lz4Exact.HeaderFrame(z, s, |s|, h, w, sum);
    assert t[..19] == s[..19] && t[15..|s|] == s[15..|s|];
    assert Lz4Exact.HeaderFrame(z, t, |s|, h, w, sum);
  }

  lemma Lz4ContentAnywhere(z: Lz4, s: seq<byte>, t: seq<byte>)
    requires Lz4Exact.IsContentFrame(z, s, |s|) && s <= t
    ensures Lz4Exact.IsContentFrame(z, t, |s|)
  {
    hide Lz4Exact.HeaderOk, Lz4Exact.BlockText, Lz4Exact.BlockSizes, Lz4Exact.BlocksOk;
    var ws: seq<Lz4Exact.Lz4Block>, sum: seq<byte> :| Lz4Exact.ContentFrame(z, s, |s|, ws, sum);
    Lz4Exact.FirstSize(ws);
    assert t[..19] == s[..19] && t[15..|s|] == s[15..|s|];
    assert Lz4Exact.ContentFrame(z, t, |s|, ws, sum);
  }

  lemma Lz4EntryScans(z: Lz4, widen: Widen, file: seq<byte>, round: nat -> Found<Item>, e: Entry, o: Options, q: Piece)
    requires EntryOk(e) && NameFits(widen, e.name) && Lz4Piece(z, e, o, q)
    requires round == RoundsOf(widen, Lz4Reader(z, file))
    ensures |q.head| > 0 && Scans(round, file, q, FrameItem(widen, e, o, q))
  {
    hide EncodeHeader, HeaderIn, Lz4Front, Lz4Content, RoundOf, ReadOf, FrameItem, Lz4Exact.HeaderFrame;
    var h := EncodeHeader(e.fi, o, e.xname, e.name);
    Lz4HeaderAnywhere(z, q.head, q.head, h);
    forall pos: nat | LiesAt(file, q, pos)
      ensures round(pos) == More([FrameItem(widen, e, o, q).(pos := pos)], pos + |q.head| + |q.body|)
    {
      Behind(file, q, pos);
      Lz4HeaderAnywhere(z, q.head, file[pos..], h);
      Lz4Exact.HeaderExactly(z, file, pos, |q.head|, h, 0);
      var at := pos + |q.head|;
      if e.content != [] {
        Lz4ContentAnywhere(z, q.body, file[at..]);
        Lz4Exact.ContentExactly(z, file, at, |q.body|);
      }
      EntryRound(widen, e, o, q, true, pos, h, Lz4Read(z, file, pos), Lz4Size(z, file, at));
    }
  }

  // ------------------------------------------------------------------------------------ whole archives

  // The records of the entries, each at the place of its frames.
  function FrameItems(widen: Widen, es: seq<Entry>, o: Options, ps: seq<Piece>): (items: seq<Item>)
    requires AllEntriesOk(es) && AllNamesFit(widen, es) && |ps| == |es|
    ensures |items| == |es|
  {
    seq(|es|, k requires 0 <= k < |es| && EntryOk(es[k]) && NameFits(widen, es[k].name) =>
      FrameItem(widen, es[k], o, ps[k]))
  }

  lemma ScanFrames(round: nat -> Found<Item>, file: seq<byte>, begin: nat, ps: seq<Piece>, items: seq<Item>,
                   tail: seq<byte>, end: nat)
    requires |ps| == |items| && forall k | 0 <= k < |ps| :: |ps[k].head| > 0 && Scans(round, file, ps[k], items[k])
    requires begin <= |file| && file[begin..] == Stream(ps) + tail && round(|file| - |tail|) == End(end)
    ensures Loop(round, |file|, begin) == Some((Placed(ps, items, begin), end))
  {
    hide Scans, Loop;
    var some := seq(|items|, k requires 0 <= k < |items| => Some(items[k]));
    ScanStream(round, ps, some, tail, file, begin, end);
    AllPlacedSome(ps, items, some, begin);
  }

  lemma ZstdEntriesScan(z: Zstd, widen: Widen, file: seq<byte>, round: nat -> Found<Item>, es: seq<Entry>, o: Options,
                         ps: seq<Piece>, items: seq<Item>)
    requires AllEntriesOk(es) && AllNamesFit(widen, es) && |ps| == |es| && items == FrameItems(widen, es, o, ps)
    requires forall k | 0 <= k < |es| :: EntryOk(es[k]) && ZstdPiece(z, es[k], o, ps[k])
    requires round == RoundsOf(widen, ZstdReader(z, file))
    ensures forall k | 0 <= k < |ps| :: |ps[k].head| > 0 && Scans(round, file, ps[k], items[k])
  {
    hide ZstdPiece, Scans, FrameItem, ZstdReader, RoundsOf;
    forall k | 0 <= k < |ps| ensures |ps[k].head| > 0 && Scans(round, file, ps[k], items[k]) {
      ZstdEntryScans(z, widen, file, round, es[k], o, ps[k]);
    }
  }

  // A Zstd archive: something in front, the frames of the entries, the frame at the end, and anything behind it.
  lemma ZstdRoundTrip(z: Zstd, widen: Widen, es: seq<Entry>, o: Options, ps: seq<Piece>, begin: nat, tail: seq<byte>,
                      file: seq<byte>)
    requires AllEntriesOk(es) && AllNamesFit(widen, es) && |ps| == |es|
    requires forall k | 0 <= k < |es| :: EntryOk(es[k]) && ZstdPiece(z, es[k], o, ps[k])
    requires begin <= |file| && file[begin..] == Stream(ps) + tail
    requires |tail| >= 22 && tail[..4] == [0x55, 0x2A, 0x4D, 0x18] && z.validEnd(tail[..22])
    ensures ScanBy(widen, ZstdReader(z, file), |file|, begin)
         == Some((Placed(ps, FrameItems(widen, es, o, ps), begin), |file| - |tail| + 22))
  {
    hide ZstdPiece, Scans, FrameItem, Loop, ZstdFront, Stream, RoundOf;
    var round, items := RoundsOf(widen, ZstdReader(z, file)), FrameItems(widen, es, o, ps);
    ZstdEntriesScan(z, widen, file, round, es, o, ps, items);
    var at := |file| - |tail|;
    TailAt(file, begin, Stream(ps), tail);
    ZstdHeaders.ZstdFrontExactly(z, file, at, 0, [], at + 22);
    ZstdEnd(z, widen, file, at);
    ScanFrames(round, file, begin, ps, items, tail, at + 22);
  }

  lemma ZstdEnd(z: Zstd, widen: Widen, file: seq<byte>, at: nat)
    requires ZstdFront(z, file, at) == Stop(at + 22)
    ensures RoundsOf(widen, ZstdReader(z, file))(at) == End(at + 22)
  {
    hide ZstdFront, AddPaxInfo, HeaderIn;
    assert ZstdRead(z, file, at) == Ends(at + 22);
    assert ZstdReader(z, file)(at) == Ends(at + 22);
  }

  lemma Lz4End(z: Lz4, widen: Widen, file: seq<byte>, at: nat, end: nat)
    requires Lz4Front(z, file, at) == Stop(end)
    ensures RoundsOf(widen, Lz4Reader(z, file))(at) == End(end)
  {
    hide Lz4Front, AddPaxInfo, HeaderIn;
    assert Lz4Read(z, file, at) == Ends(end);
    assert Lz4Reader(z, file)(at) == Ends(end);
  }

  lemma TailAt(file: seq<byte>, begin: nat, stream: seq<byte>, tail: seq<byte>)
    requires begin <= |file| && file[begin..] == stream + tail
    ensures |tail| <= |file| && file[|file| - |tail|..] == tail && begin + |stream| == |file| - |tail|
    ensures |tail| >= 4 ==> file[|file| - |tail|..|file| - |tail| + 4] == tail[..4]
    ensures |tail| >= 22 ==> file[|file| - |tail|..|file| - |tail| + 22] == tail[..22]
  {
    assert file[begin..][|stream|..] == tail;
  }

  lemma Lz4EntriesScan(z: Lz4, widen: Widen, file: seq<byte>, round: nat -> Found<Item>, es: seq<Entry>, o: Options,
                        ps: seq<Piece>, items: seq<Item>)
    requires AllEntriesOk(es) && AllNamesFit(widen, es) && |ps| == |es| && items == FrameItems(widen, es, o, ps)
    requires forall k | 0 <= k < |es| :: EntryOk(es[k]) && Lz4Piece(z, es[k], o, ps[k])
    requires round == RoundsOf(widen, Lz4Reader(z, file))
    ensures forall k | 0 <= k < |ps| :: |ps[k].head| > 0 && Scans(round, file, ps[k], items[k])
  {
    hide Lz4Piece, Scans, FrameItem, Lz4Reader, RoundsOf;
    forall k | 0 <= k < |ps| ensures |ps[k].head| > 0 && Scans(round, file, ps[k], items[k]) {
      Lz4EntryScans(z, widen, file, round, es[k], o, ps[k]);
    }
  }

  // An LZ4 archive: something in front, the frames of the entries, and either nothing or something that is no frame.
  lemma Lz4RoundTrip(z: Lz4, widen: Widen, es: seq<Entry>, o: Options, ps: seq<Piece>, begin: nat, tail: seq<byte>,
                     file: seq<byte>)
    requires AllEntriesOk(es) && AllNamesFit(widen, es) && |ps| == |es|
    requires forall k | 0 <= k < |es| :: EntryOk(es[k]) && Lz4Piece(z, es[k], o, ps[k])
    requires begin <= |file| && file[begin..] == Stream(ps) + tail
    requires |tail| < 19 || tail[..4] != [0x04, 0x22, 0x4D, 0x18]
    ensures ScanBy(widen, Lz4Reader(z, file), |file|, begin)
         == Some((Placed(ps, FrameItems(widen, es, o, ps), begin), |file| - |tail| + if |tail| < 19 then 0 else 19))
  {
    hide Lz4Piece, Scans, FrameItem, Loop, Lz4Front, Stream, RoundOf;
    var round, items := RoundsOf(widen, Lz4Reader(z, file)), FrameItems(widen, es, o, ps);
    Lz4EntriesScan(z, widen, file, round, es, o, ps, items);
    var at := |file| - |tail|;
    TailAt(file, begin, Stream(ps), tail);
    var end := at + if |tail| < 19 then 0 else 19;
    Lz4Exact.HeaderExactly(z, file, at, 0, [], end);
    Lz4End(z, widen, file, at, end);
    ScanFrames(round, file, begin, ps, items, tail, end);
  }

  // ------------------------------------------------------------------------- more text than the header

  // The text of an LZ4 header frame is a header of several blocks and nothing else, or begins with one of a single
  // block.
  lemma Lz4HoldsOneHeader(z: Lz4, file: seq<byte>, pos: nat)
    requires Lz4Read(z, file, pos).Reads?
    ensures var r := Lz4Read(z, file, pos); r.d.headerSize == |r.h| || r.d.headerSize == 512 <= |r.h|
  {
    hide FirstHeader, SecondHeader, Lz4Front, Lz4Behind;
    var front := Lz4Front(z, file, pos);
    if front.Text? && |front.h| >= 512 && FirstHeader(front.h[..512]).Some? {
      SizesAgree(FirstHeader(front.h[..512]).value, front.h[..512], front.h);
    }
  }

  // The text of a Zstd header frame may go on behind the header.
  lemma ZstdMayHoldMore(z: Zstd, file: seq<byte>, pos: nat, h: seq<byte>, n: nat, d1: Decoded, d2: Decoded)
    requires ZstdFront(z, file, pos) == CompressedScan.Text(h, n) && |h| >= 512 && FirstHeader(h[..512]) == Some(d1)
    requires 512 < d1.headerSize <= |h| && Sized(d1) && SecondHeader(d1, h) == Some(d2) && d2.info.size == 0
    ensures ZstdRead(z, file, pos) == Reads(d2, h, n, n)
  {
    hide FirstHeader, ZstdFront, ZstdContent;
    SizesAgree(d1, h[..512], h);
  }

  lemma SizesAgree(d: Decoded, b: seq<byte>, h: seq<byte>)
    requires |b| == 512 && FirstHeader(b) == Some(d)
    ensures Sized(d) && d.headerSize >= 512
    ensures SecondHeader(d, h).Some? ==> SecondHeader(d, h).value.headerSize == d.headerSize <= |h|
  {
  }
}
