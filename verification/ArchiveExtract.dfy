/**
 extract_pax: the content of a file is copied out of the archive in chunks; and the whole way of an
 archive through the packer, the scanner, the index and the extractor.
 */
module ArchiveExtract {
  import opened Bytes
  import opened PaxTime
  import opened PaxFlags
  import opened PaxRoundTrip
  import opened CacheItem
  import opened CacheStore
  import opened CacheWalk
  import opened Archive
  import opened ArchivePack
  import opened ArchiveScan
  import opened ArchiveRoundTrip

  const BUF_SIZE := 4 * 1024 * 1024

  // The copy loop; reads and writes succeed.
  method Copy(file: seq<byte>, start: nat, end: nat) returns (out: seq<byte>)
    requires start <= end <= |file|
    ensures out == file[start..end]
  {
    out := [];
    var pos := start;
    while pos < end
      invariant start <= pos <= end && out == file[start..pos]
    {
      var sz := BUF_SIZE;
      if pos + sz > end {
        sz := end - pos;
      }
      assert file[start..pos] + file[pos..pos + sz] == file[start..pos + sz];
      out := out + file[pos..pos + sz];
      pos := pos + sz;
    }
  }

  method Extract(file: seq<byte>, i: Item) returns (out: Option<seq<byte>>)
    ensures out == ExtractPax(file, i)
  {
    var pos := i.pos + i.hdrSize;
    if pos >= |file| {
      return None;
    }
    var size := i.dataSize;
    if pos + size > |file| {
      size := |file| - pos;
    }
    var copied := Copy(file, pos, pos + size);
    out := Some(copied);
  }

  lemma TimesFit(t: int)
    requires IsFiletime(t)
    ensures IsInt64(ReadBack(t)) && IsInt64(BlockTime(t))
  {
  }

  // Everything that is recovered fits into an item.
  lemma RecoveredFits(widen: Widen, file: seq<byte>, e: Entry, o: Options, i: Item, last: bool)
    requires EntryOk(e) && NameFits(widen, e.name) && Recovers(widen, file, e, o, i, last) && i.pos < INT64_MAX
    ensures ItemOk(i)
  {
    TimesFit(e.fi.ctime);
    TimesFit(e.fi.mtime);
    AttrFits(Recovered(e.fi, o).attr);
  }

  // Extracting through the records of an index.
  method ExtractAll(file: seq<byte>, listed: seq<seq<byte>>, ghost items: seq<Item>)
    returns (out: seq<Option<seq<byte>>>)
    requires listed == Imaged(items) && forall k | 0 <= k < |items| :: ItemOk(items[k])
    ensures |out| == |items| && forall k | 0 <= k < |items| :: out[k] == ExtractPax(file, items[k])
  {
    out := [];
    while |out| < |listed|
      invariant |out| <= |listed|
      invariant forall k | 0 <= k < |out| :: out[k] == ExtractPax(file, items[k])
    {
      ghost var i := items[|out|];
      ImagedAt(items, |out|);
      ItemBack(i);
      var one := Extract(file, ReadItem(listed[|out|]));
      assert one == ExtractPax(file, i);
      out := out + [one];
    }
  }

  // Packs the entries, scans the archive into an index, walks through the index and extracts every file.
  method PackScanExtract(widen: Widen, es: seq<Entry>, o: Options) returns (ok: bool, out: seq<Option<seq<byte>>>)
    requires es != [] && AllEntriesOk(es) && AllNamesFit(widen, es)
    requires |Stream(Pieces(es, o))| < INT64_MAX
    ensures ok && |out| == |es|
    ensures forall k | 0 <= k < |es| ::
              out[k] == if es[k].content == [] && k == |es| - 1 then None else Some(es[k].content)
  {
    hide Stream, ExtractPax, Cache.Valid;
    var packer := new Packer();
    ok := packer.PackFiles(es, o);
    var file := packer.out;
    ghost var items := EndToEnd(widen, es, o, []);
    assert file + [] == file;
    ItemsFit(widen, file, es, o, items);
    var c := new Cache();
    var end := ScanPaxFile(widen, file, c);
    if end.None? {
      return false, [];
    }
    var listed := ListFiles(c);
    assert listed == Imaged(items) by {
      assert [] + Imaged(items) == Imaged(items);
    }
    out := ExtractAll(file, listed, items);
    forall k | 0 <= k < |es|
      ensures out[k] == if es[k].content == [] && k == |es| - 1 then None else Some(es[k].content)
    {
      assert Recovers(widen, file, es[k], o, items[k], k == |es| - 1);
    }
  }

  lemma ItemsFit(widen: Widen, file: seq<byte>, es: seq<Entry>, o: Options, items: seq<Item>)
    requires |items| == |es| && |file| < INT64_MAX && Tiles(items, |file|)
    requires forall k | 0 <= k < |es| ::
               EntryOk(es[k]) && NameFits(widen, es[k].name) && Recovers(widen, file, es[k], o, items[k], k == |es| - 1)
    ensures forall k | 0 <= k < |items| :: ItemOk(items[k])
  {
    forall k | 0 <= k < |items| ensures ItemOk(items[k]) {
      TilesInside(items, |file|, k);
      RecoveredFits(widen, file, es[k], o, items[k], k == |es| - 1);
    }
  }

  lemma {:induction false} TilesInside(items: seq<Item>, len: nat, k: nat)
    requires Tiles(items, len) && k < |items|
    ensures items[k].pos <= len
    decreases |items| - k
  {
    assert Tile(items, len, k);
    if k + 1 < |items| {
      TilesInside(items, len, k + 1);
    }
  }
}
