/**
 The items of a scanned LZ4 or Zstd archive lie one behind the other in the file, and exactly when no skipped
 entry stands in front of a file or directory they lie there without gaps.
 */
module CompressedTiling {
  import opened Bytes
  import opened PaxDecoder
  import opened CacheItem
  import opened ScanLoop
  import opened Archive
  import opened CompressedScan
  import opened PaxHeader
  import opened TarHeader
  import PaxRoundTrip

  // The items from pos on lie one behind the other, inside the file.
  ghost predicate Ordered(items: seq<Item>, pos: nat, len: nat) {
    if items == [] then pos <= len
    else pos <= items[0].pos && Ordered(items[1..], items[0].pos + items[0].packSize, len)
  }

  // There are no gaps between them either.
  ghost predicate Contiguous(items: seq<Item>, pos: nat) {
    items != [] ==> items[0].pos == pos && Contiguous(items[1..], pos + items[0].packSize)
  }

  // ----------------------------------------------------------------------------------- skipped entries

  // The entries that a scan comes to, up to its end or to an entry that reaches behind the end of the file.
  function Visited(reader: Reader, len: nat, pos: nat): (es: seq<Read>)
    requires pos <= len
    ensures forall e | e in es :: e.Reads?
    decreases len - pos
  {
    var r := reader(pos);
    if r.Reads? && pos + r.total <= len then [r] + Visited(reader, len, pos + r.total) else []
  }

  // An entry that is neither a file nor a directory, or has no name behind its prefix, is not listed.
  predicate Skipped(e: Read) {
    && e.Reads?
    && (|| (e.d.kind != NORMAL && e.d.kind != DIRECTORY)
        || match ReadHeader(e.d, e.h)
           case None => false
           case Some(p) => Stripped(p.name) == [])
  }

  ghost predicate AllSkipped(es: seq<Read>, skips: Read -> bool) {
    forall e | e in es :: skips(e)
  }

  // No skipped entry stands in front of a listed one.
  ghost predicate NoGap(es: seq<Read>, skips: Read -> bool) {
    forall i, j | 0 <= i < j < |es| && skips(es[i]) :: skips(es[j])
  }

  // A round at pos over what was read there: what it adds starts at its position, covers what the round moves
  // on by, and is missing exactly for a skipped entry.
  ghost predicate Lists(f: Found<Item>, pos: nat, e: Read, skipped: bool) {
    match e
    case Ends(end) => f == End(end)
    case Fails => f == Broken
    case Reads(_, _, _, total) =>
      f.More? ==>
        && f.next == pos + total
        && if skipped then f.items == [] else |f.items| == 1 && f.items[0].pos == pos && f.items[0].packSize == total
  }

  ghost predicate AllList(round: nat -> Found<Item>, reader: Reader, skips: Read -> bool) {
    forall pos: nat {:trigger round(pos)} ::
      !(reader(pos).Reads? && round(pos).End?) && Lists(round(pos), pos, reader(pos), skips(reader(pos)))
  }

  lemma RoundLists(widen: Widen, pos: nat, e: Read)
    ensures Lists(RoundOf(widen, pos, e), pos, e, Skipped(e)) && !(e.Reads? && RoundOf(widen, pos, e).End?)
  {
  }

  // ------------------------------------------------------------------------------------------ tilings

  lemma LoopFirst(round: nat -> Found<Item>, reader: Reader, skips: Read -> bool, len: nat, pos: nat)
    returns (own: seq<Item>, rest: seq<Item>, next: nat)
    requires AllList(round, reader, skips) && pos <= len && Loop(round, len, pos).Some?
    ensures var items := Loop(round, len, pos).value.0;
            if reader(pos).Reads? then
              && next == pos + reader(pos).total <= len && items == own + rest
              && Loop(round, len, next).Some? && rest == Loop(round, len, next).value.0
              && if skips(reader(pos)) then own == []
                 else |own| == 1 && own[0].pos == pos && pos + own[0].packSize == next
            else items == []
  {
    own, rest, next := [], [], pos;
    assert Lists(round(pos), pos, reader(pos), skips(reader(pos)));
    if reader(pos).Reads? {
      own, next := round(pos).items, round(pos).next;
      rest := Loop(round, len, next).value.0;
    }
  }

  lemma {:induction false} TilingBy(round: nat -> Found<Item>, reader: Reader, skips: Read -> bool, len: nat, pos: nat)
    requires AllList(round, reader, skips) && pos <= len && Loop(round, len, pos).Some?
    ensures var items, es := Loop(round, len, pos).value.0, Visited(reader, len, pos);
            && Ordered(items, pos, len)
            && (items == [] <==> AllSkipped(es, skips))
            && (Contiguous(items, pos) <==> NoGap(es, skips))
    decreases len - pos
  {
    var own, rest, next := LoopFirst(round, reader, skips, len, pos);
    var r := reader(pos);
    if r.Reads? {
      TilingBy(round, reader, skips, len, next);
      var es, all := Visited(reader, len, next), Visited(reader, len, pos);
      assert all == [r] + es;
      GapsBehind(r, es, skips);
      TilesBefore(own, rest, pos, next, len, skips(r));
      var items := own + rest;
      assert Contiguous(items, pos) <==> NoGap(all, skips);
    }
  }

  // Every scan lists exactly the entries that are not skipped, one behind the other inside the file, each with
  // the position and the packed size of its frames; and it leaves no gap if and only if no skipped entry
  // stands in front of a listed one.
  lemma Tiling(widen: Widen, reader: Reader, len: nat, begin: nat)
    requires begin <= len && ScanBy(widen, reader, len, begin).Some?
    ensures var items, es := ScanBy(widen, reader, len, begin).value.0, Visited(reader, len, begin);
            && Ordered(items, begin, len)
            && (items == [] <==> AllSkipped(es, Skipped))
            && (Contiguous(items, begin) <==> NoGap(es, Skipped))
  {
    var round := RoundsOf(widen, reader);
    forall pos: nat
      ensures !(reader(pos).Reads? && round(pos).End?) && Lists(round(pos), pos, reader(pos), Skipped(reader(pos)))
    {
      RoundLists(widen, pos, reader(pos));
    }
    TilingBy(round, reader, Skipped, len, begin);
  }

  // The items of one round in front of those of the rounds behind it.
  lemma TilesBefore(own: seq<Item>, rest: seq<Item>, pos: nat, next: nat, len: nat, skipped: bool)
    requires pos < next && Ordered(rest, next, len)
    requires if skipped then own == []
             else |own| == 1 && own[0].pos == pos && pos + own[0].packSize == next
    ensures Ordered(own + rest, pos, len)
    ensures own + rest == [] <==> skipped && rest == []
    ensures Contiguous(own + rest, pos) <==> if skipped then rest == [] else Contiguous(rest, next)
  {
    if skipped {
      assert own + rest == rest;
      OrderedFrom(rest, pos, next, len);
    } else {
      assert (own + rest)[0] == own[0] && (own + rest)[1..] == rest;
    }
  }

  lemma GapsBehind(e: Read, es: seq<Read>, skips: Read -> bool)
    ensures NoGap([e] + es, skips) <==> if skips(e) then AllSkipped(es, skips) else NoGap(es, skips)
    ensures AllSkipped([e] + es, skips) <==> skips(e) && AllSkipped(es, skips)
  {
    var all := [e] + es;
    assert forall k | 0 <= k < |es| :: all[k + 1] == es[k];
    if NoGap(all, skips) {
      forall i, j | 0 <= i < j < |es| && skips(es[i]) ensures skips(es[j]) {
        assert all[i + 1] == es[i] && all[j + 1] == es[j];
      }
      if skips(e) {
        forall x | x in es ensures skips(x) {
          var k :| 0 <= k < |es| && x == es[k];
          assert all[0] == e && all[k + 1] == x;
        }
      }
    }
  }

  lemma OrderedFrom(items: seq<Item>, pos: nat, next: nat, len: nat)
    requires pos <= next && Ordered(items, next, len)
    ensures Ordered(items, pos, len)
  {
  }

  // In an ordered list every item ends in front of every later one.
  lemma {:induction false} Disjoint(items: seq<Item>, pos: nat, len: nat, j: nat, k: nat)
    requires Ordered(items, pos, len) && j < k < |items|
    ensures items[j].pos + items[j].packSize <= items[k].pos && items[k].pos + items[k].packSize <= len
    decreases k
  {
    var end := items[0].pos + items[0].packSize;
    if j > 0 {
      Disjoint(items[1..], end, len, j - 1, k - 1);
    } else {
      StartsBehind(items[1..], end, len, k - 1);
    }
  }

  lemma {:induction false} StartsBehind(items: seq<Item>, pos: nat, len: nat, k: nat)
    requires Ordered(items, pos, len) && k < |items|
    ensures pos <= items[k].pos && items[k].pos + items[k].packSize <= len
    decreases k
  {
    var end := items[0].pos + items[0].packSize;
    if k > 0 {
      StartsBehind(items[1..], end, len, k - 1);
    } else {
      OrderedInside(items[1..], end, len);
    }
  }

  lemma {:induction false} OrderedInside(items: seq<Item>, pos: nat, len: nat)
    requires Ordered(items, pos, len)
    ensures pos <= len
    decreases |items|
  {
    if items != [] {
      OrderedInside(items[1..], items[0].pos + items[0].packSize, len);
    }
  }

  // Both scanners, on any file.
  lemma ZstdTiling(z: Zstd, widen: Widen, file: seq<byte>, begin: nat)
    requires begin <= |file| && ScanBy(widen, ZstdReader(z, file), |file|, begin).Some?
    ensures var items := ScanBy(widen, ZstdReader(z, file), |file|, begin).value.0;
            && Ordered(items, begin, |file|)
            && (Contiguous(items, begin) <==> NoGap(Visited(ZstdReader(z, file), |file|, begin), Skipped))
  {
    Tiling(widen, ZstdReader(z, file), |file|, begin);
  }

  lemma Lz4Tiling(z: Lz4, widen: Widen, file: seq<byte>, begin: nat)
    requires begin <= |file| && ScanBy(widen, Lz4Reader(z, file), |file|, begin).Some?
    ensures var items := ScanBy(widen, Lz4Reader(z, file), |file|, begin).value.0;
            && Ordered(items, begin, |file|)
            && (Contiguous(items, begin) <==> NoGap(Visited(Lz4Reader(z, file), |file|, begin), Skipped))
  {
    Tiling(widen, Lz4Reader(z, file), |file|, begin);
  }

  // ------------------------------------------------------------------------------------- a gap

  const ROOT: seq<byte> := [46, 47] // "./"

  // The header of the directory "./" is read.
  lemma RootRead(fi: FileInfo, o: PaxFlags.Options, xname: seq<byte>, exact: bool) returns (d: Decoded, p: Decoded)
    requires MachineInfo(fi) && fi.attr.directory && fi.realsize == 0 && |xname| <= NAME_ROOM
    ensures var h := EncodeHeader(fi, o, xname, ROOT);
            && HeaderIn(h, exact) == Some(d) && Sized(d) && d.headerSize <= |h| && ReadHeader(d, h) == Some(p)
    ensures d.info.size == 0 && d.kind == DIRECTORY && d.format.Posix? && p.name == ROOT
  {
    hide EncodeHeader, FirstHeader, SecondHeader, ReadHeader;
    var h := EncodeHeader(fi, o, xname, ROOT);
    PaxRoundTrip.HeaderRoundTrip(fi, o, xname, ROOT);
    d := PaxRoundTrip.SecondDecoded(fi, |PaxRecord.Records(HeaderParams(fi, o, ROOT))|);
    p := ReadHeader(d, h).value;
  }

  // It adds nothing.
  lemma RootSkipped(fi: FileInfo, o: PaxFlags.Options, xname: seq<byte>, exact: bool, widen: Widen, pos: nat, n: nat)
    returns (e: Read)
    requires MachineInfo(fi) && fi.attr.directory && fi.realsize == 0 && |xname| <= NAME_ROOM && n > 0
    ensures var h := EncodeHeader(fi, o, xname, ROOT);
            && e.Reads? && e.h == h && e.n == e.total == n && e.d.info.size == 0 && HeaderIn(h, exact) == Some(e.d)
    ensures Skipped(e) && RoundOf(widen, pos, e) == More([], pos + n)
  {
    hide EncodeHeader, HeaderIn, ReadHeader;
    var d, p := RootRead(fi, o, xname, exact);
    e := Reads(d, EncodeHeader(fi, o, xname, ROOT), n, n);
    assert Stripped(p.name) == [];
  }

  // A skipped entry in front of everything else.
  lemma GapInFront(widen: Widen, reader: Reader, len: nat, begin: nat, e: Read)
    requires e.Reads? && reader(begin) == e && Skipped(e) && begin + e.total <= len
    requires RoundOf(widen, begin, e) == More([], begin + e.total)
    ensures ScanBy(widen, reader, len, begin) == ScanBy(widen, reader, len, begin + e.total)
    ensures var goal := ScanBy(widen, reader, len, begin);
            goal.Some? && goal.value.0 != [] ==> !Contiguous(goal.value.0, begin)
  {
    hide Skipped, RoundOf;
    var goal := ScanBy(widen, reader, len, begin);
    PrefixedNothing(ScanBy(widen, reader, len, begin + e.total));
    if goal.Some? {
      Tiling(widen, reader, len, begin);
      var es := Visited(reader, len, begin);
      if NoGap(es, Skipped) {
        forall x | x in es ensures Skipped(x) {
          var k :| 0 <= k < |es| && es[k] == x;
        }
      }
    }
  }

  // The directory "./" in front of an archive: the scan lists the rest of the archive, and if this lists
  // anything at all there is a gap in front.
  lemma RootLeavesGap(z: Lz4, y: Zstd, widen: Widen, file: seq<byte>, begin: nat,
                      fi: FileInfo, o: PaxFlags.Options, xname: seq<byte>, n: nat)
    requires n > 0 && begin + n <= |file|
    requires MachineInfo(fi) && fi.attr.directory && fi.realsize == 0 && |xname| <= NAME_ROOM
    ensures Lz4Front(z, file, begin) == Text(EncodeHeader(fi, o, xname, ROOT), n) ==>
              GapAt(widen, Lz4Reader(z, file), |file|, begin, begin + n)
    ensures ZstdFront(y, file, begin) == Text(EncodeHeader(fi, o, xname, ROOT), n) ==>
              GapAt(widen, ZstdReader(y, file), |file|, begin, begin + n)
  {
    hide EncodeHeader, HeaderIn, Skipped, RoundOf, Lz4Front, ZstdFront, ScanBy;
    var h := EncodeHeader(fi, o, xname, ROOT);
    if Lz4Front(z, file, begin) == Text(h, n) {
      var e := RootSkipped(fi, o, xname, true, widen, begin, n);
      GapInFront(widen, Lz4Reader(z, file), |file|, begin, e);
    }
    if ZstdFront(y, file, begin) == Text(h, n) {
      var e := RootSkipped(fi, o, xname, false, widen, begin, n);
      GapInFront(widen, ZstdReader(y, file), |file|, begin, e);
    }
  }

  // The scan from pos on finds what it finds from next on, which is not at pos.
  ghost predicate GapAt(widen: Widen, reader: Reader, len: nat, pos: nat, next: nat)
    requires pos <= next <= len
  {
    var goal := ScanBy(widen, reader, len, pos);
    goal == ScanBy(widen, reader, len, next) && (goal.Some? && goal.value.0 != [] ==> !Contiguous(goal.value.0, pos))
  }
}
