/**
 The items of a scanned uncompressed archive, whatever the file is, lie one behind the other: each takes its
 header and its data filled up to whole blocks, and only the data of the last one may reach behind the end.
 */
module ArchiveTiling {
  import opened Bytes
  import opened PaxRecord
  import opened PaxDecoder
  import opened CacheItem
  import opened ScanLoop
  import opened Archive
  import opened ArchiveScan

  function Span(i: Item): nat {
    i.hdrSize + BlocksizeRound(i.dataSize)
  }

  // The items from pos on are in order, without common bytes, and their headers lie inside the file.
  ghost predicate InOrder(items: seq<Item>, pos: nat, len: nat) {
    items != [] ==>
      && pos <= items[0].pos && items[0].pos + items[0].hdrSize <= len
      && InOrder(items[1..], items[0].pos + Span(items[0]), len)
  }

  // A round adds at most the entry at its position, and moves on behind it or to the end of the file.
  lemma RoundSpans(widen: Widen, file: seq<byte>, pos: nat)
    requires pos <= |file|
    ensures match ScanOne(widen, file, pos)
            case More(items, next) =>
              items != [] ==>
                && |items| == 1 && items[0].pos == pos && pos + items[0].hdrSize <= |file|
                && next == if pos + Span(items[0]) >= |file| then |file| else pos + Span(items[0])
            case _ => true
    ensures |file| - pos < BLOCKSIZE ==> ScanOne(widen, file, pos) == End(pos)
  {
    hide HeaderAt, HeaderFits;
    if |file| - pos >= BLOCKSIZE {
      HeaderAtFits(file, pos);
      var header := HeaderAt(file, pos);
      HeaderIsSmall(file, pos);
      assert HeaderFits(file, pos, header) && (header.Some? ==> InfoOk(header.value.info));
      AddedSpans(widen, file, pos, header);
    }
  }

  lemma AddedSpans(widen: Widen, file: seq<byte>, pos: nat, header: Option<Decoded>)
    requires pos <= |file| && HeaderFits(file, pos, header) && (header.Some? ==> InfoOk(header.value.info))
    ensures match InfoAt(widen, file, pos, header)
            case None => true
            case Some((p, items)) =>
              items != [] ==>
                && |items| == 1 && items[0].pos == pos && items[0].hdrSize == header.value.headerSize
                && items[0].dataSize == p.info.size
  {
    hide ReadHeader, InfoOk;
    if header.Some? {
      var d := header.value;
      HeaderFitsItem(d, file[pos..pos + d.headerSize]);
    }
  }

  lemma {:induction false} ScanInOrder(widen: Widen, file: seq<byte>, pos: nat)
    requires pos <= |file| && Loop(Rounds(widen, file), |file|, pos).Some?
    ensures InOrder(Loop(Rounds(widen, file), |file|, pos).value.0, pos, |file|)
    decreases |file| - pos
  {
    hide ScanOne;
    var round := Rounds(widen, file);
    var one := ScanOne(widen, file, pos);
    assert round(pos) == one;
    RoundSpans(widen, file, pos);
    RoundSpans(widen, file, |file|);
    if one.More? {
      ScanInOrder(widen, file, one.next);
      var rest := Loop(round, |file|, one.next).value.0;
      assert round(|file|) == End(|file|);
      if one.items == [] {
        assert one.items + rest == rest;
      } else {
        assert (one.items + rest)[0] == one.items[0] && (one.items + rest)[1..] == rest;
      }
    }
  }

  // No two entries of an archive have common bytes.
  lemma {:induction false} Apart(items: seq<Item>, pos: nat, len: nat, j: nat, k: nat)
    requires InOrder(items, pos, len) && j < k < |items|
    ensures items[j].pos + Span(items[j]) <= items[k].pos
    decreases k
  {
    var rest, next := items[1..], items[0].pos + Span(items[0]);
    if j > 0 {
      Apart(rest, next, len, j - 1, k - 1);
    } else {
      Behind(rest, next, len, k - 1);
    }
  }

  lemma {:induction false} Behind(items: seq<Item>, pos: nat, len: nat, k: nat)
    requires InOrder(items, pos, len) && k < |items|
    ensures pos <= items[k].pos && items[k].pos + items[k].hdrSize <= len
    decreases k
  {
    if k > 0 {
      Behind(items[1..], items[0].pos + Span(items[0]), len, k - 1);
    }
  }

  // In an uncompressed archive, whatever its bytes are, every header lies inside the file and every entry ends
  // in front of every later one.
  lemma ArchiveInOrder(widen: Widen, file: seq<byte>, j: nat, k: nat)
    requires Scan(widen, file).Some? && j <= k < |Scan(widen, file).value.0|
    ensures var items := Scan(widen, file).value.0;
            && items[k].pos + items[k].hdrSize <= |file|
            && (j < k ==> items[j].pos + Span(items[j]) <= items[k].pos)
  {
    hide Loop;
    ScanInOrder(widen, file, 0);
    var items := Scan(widen, file).value.0;
    Behind(items, 0, |file|, k);
    if j < k {
      Apart(items, 0, |file|, j, k);
    }
  }
}
