/**
 An uncompressed archive with entries of other types between its files and directories, as other programs write
 them: links, devices and the like are passed over, and everything else is found as if they were not there.
 */
module ArchiveMixed {
  import opened Bytes
  import opened PaxRecord
  import opened PaxFlags
  import opened TarHeader
  import opened PaxHeader
  import opened PaxDecoder
  import opened PaxExact
  import opened CacheItem
  import opened ScanLoop
  import opened Archive
  import opened ArchiveRoundTrip

  // A file or directory as this program packs it, or an entry of another type with a header of its own.
  datatype Part = Plain(e: Entry) | Special(fi: FileInfo, xname: seq<byte>, name: seq<byte>, kind: byte,
                                            records: seq<Param>, body: seq<byte>)

  // Links, directories and FIFOs.
  predicate NoContent(kind: byte) {
    kind == 49 || kind == 50 || kind == 53 || kind == 54
  }

  // The type is neither that of a file, '0' or NUL, nor that of a directory, '5'; the content has as many whole
  // blocks as the size in the block says, or none for some types.
  ghost predicate SpecialOk(p: Part)
    requires p.Special?
  {
    && |p.xname| <= NAME_ROOM && p.kind != 0 && p.kind != 48 && p.kind != 53
    && 0 < |Records(p.records)| < 1024 * 1024 && (NoContent(p.kind) || p.fi.size < 8589934591)
    && |p.body| == if NoContent(p.kind) then 0 else BlocksizeRound(p.fi.size)
  }

  ghost predicate PartOk(widen: Widen, p: Part) {
    match p
    case Plain(e) => EntryOk(e) && NameFits(widen, e.name)
    case Special(_, _, _, _, _, _) => SpecialOk(p)
  }

  ghost predicate PartsOk(widen: Widen, parts: seq<Part>) {
    forall p | p in parts :: PartOk(widen, p)
  }

  function PartPiece(widen: Widen, p: Part, o: Options): Piece
    requires PartOk(widen, p)
  {
    match p
    case Plain(e) => PieceOf(e, o)
    case Special(fi, xname, name, kind, records, body) => Piece(HeaderWith(records, fi, xname, name, kind), body)
  }

  function PartPieces(widen: Widen, parts: seq<Part>, o: Options): (ps: seq<Piece>)
    requires PartsOk(widen, parts)
    ensures |ps| == |parts|
  {
    if parts == [] then []
    else
      assert parts[0] in parts;
      [PartPiece(widen, parts[0], o)] + PartPieces(widen, parts[1..], o)
  }

  // The items of the files and directories.
  function Listed(widen: Widen, parts: seq<Part>, o: Options, pos: nat): seq<Item>
    requires PartsOk(widen, parts)
    decreases |parts|
  {
    if parts == [] then []
    else
      assert parts[0] in parts;
      var q := PartPiece(widen, parts[0], o);
      var rest := Listed(widen, parts[1..], o, pos + |q.head| + |q.body|);
      if parts[0].Plain? then [EntryItem(widen, parts[0].e, o, |q.head|, pos)] + rest else rest
  }

  lemma SpecialRound(widen: Widen, file: seq<byte>, pos: nat, p: Part, q: Piece)
    requires p.Special? && SpecialOk(p) && q == Piece(HeaderWith(p.records, p.fi, p.xname, p.name, p.kind), p.body)
    requires LiesAt(file, q, pos)
    ensures Rounds(widen, file)(pos) == More([], pos + |q.head| + |q.body|)
  {
    hide HeaderWith, HeaderAt, FirstHeader, SecondHeader, Records;
    var d1, d2 := HeaderWithDetected(p.records, p.fi, p.xname, p.name, p.kind);
    HeaderAtIs(file, pos, q.head, d1, d2);
    InfoIs(widen, file, pos, q.head, d2, d2.headerSize + BlocksizeRound(d2.info.size));
    assert AddPaxInfo(widen, d2, q.head, pos, 0, d2.headerSize + BlocksizeRound(d2.info.size)) == Some((d2, []));
  }

  // The item of a part, if it has one, as if it stood at the beginning.
  function ItemAt(widen: Widen, p: Part, o: Options): Option<Item>
    requires PartOk(widen, p)
  {
    match p
    case Plain(e) => Some(EntryItem(widen, e, o, |PieceOf(e, o).head|, 0))
    case _ => None
  }

  lemma PartScans(widen: Widen, file: seq<byte>, round: nat -> Found<Item>, p: Part, o: Options)
    requires PartOk(widen, p) && round == Rounds(widen, file)
    ensures var q := PartPiece(widen, p, o);
            && |q.head| > 0
            && match ItemAt(widen, p, o)
               case None => Passes(round, file, q)
               case Some(i) => Scans(round, file, q, i)
  {
    hide EncodeHeader, HeaderWith, ScanOne, Records, Scans, Passes;
    var q := PartPiece(widen, p, o);
    match p {
      case Plain(e) => var i := EntryScans(widen, file, round, e, o, q);
      case Special(_, _, _, _, _, _) => SpecialPasses(widen, file, round, p, q);
    }
  }

  lemma SpecialPasses(widen: Widen, file: seq<byte>, round: nat -> Found<Item>, p: Part, q: Piece)
    requires p.Special? && SpecialOk(p) && q == Piece(HeaderWith(p.records, p.fi, p.xname, p.name, p.kind), p.body)
    requires round == Rounds(widen, file)
    ensures |q.head| > 0 && Passes(round, file, q)
  {
    hide HeaderWith, ScanOne, Records;
    var d1, d2 := HeaderWithDetected(p.records, p.fi, p.xname, p.name, p.kind);
    forall pos: nat | LiesAt(file, q, pos) ensures round(pos) == More([], pos + |q.head| + |q.body|) {
      SpecialRound(widen, file, pos, p, q);
    }
  }

  lemma {:induction false} PartsScan(widen: Widen, file: seq<byte>, round: nat -> Found<Item>, parts: seq<Part>,
                                     o: Options, pos: nat) returns (items: seq<Option<Item>>)
    requires PartsOk(widen, parts) && round == Rounds(widen, file)
    ensures var ps := PartPieces(widen, parts, o);
            && AllScan(round, file, ps, items) && PlacedSome(ps, items, pos) == Listed(widen, parts, o, pos)
    decreases |parts|
  {
    hide PartOk, PartPiece, Scans, Passes, Rounds, EntryItem;
    items := [];
    if parts != [] {
      assert parts[0] in parts;
      var q := PartPiece(widen, parts[0], o);
      PartScans(widen, file, round, parts[0], o);
      var rest := PartsScan(widen, file, round, parts[1..], o, pos + |q.head| + |q.body|);
      var i := ItemAt(widen, parts[0], o);
      items := [i] + rest;
      var ps := PartPieces(widen, parts, o);
      assert ps[1..] == PartPieces(widen, parts[1..], o) && items[1..] == rest;
      forall k | 0 <= k < |ps|
        ensures |ps[k].head| > 0
        ensures if items[k].Some? then Scans(round, file, ps[k], items[k].value) else Passes(round, file, ps[k])
      {
        if k > 0 {
          assert ps[k] == ps[1..][k - 1] && items[k] == items[1..][k - 1];
        }
      }
      ListedFirst(widen, parts, o, pos, q, i);
    }
  }

  lemma ListedFirst(widen: Widen, parts: seq<Part>, o: Options, pos: nat, q: Piece, i: Option<Item>)
    requires PartsOk(widen, parts) && parts != [] && parts[0] in parts
    requires q == PartPiece(widen, parts[0], o) && i == ItemAt(widen, parts[0], o)
    ensures Listed(widen, parts, o, pos)
         == (match i case None => [] case Some(i) => [i.(pos := pos)])
            + Listed(widen, parts[1..], o, pos + |q.head| + |q.body|)
  {
    hide EncodeHeader, HeaderWith;
  }

  // The scan of such an archive finds exactly the files and directories, each at its place, whatever stands
  // between them and whatever stands behind the zero block at the end.
  lemma OthersPassedOver(widen: Widen, parts: seq<Part>, o: Options, tail: seq<byte>)
    requires PartsOk(widen, parts) && Tail(tail)
    ensures var stream := Stream(PartPieces(widen, parts, o));
            Loop(Rounds(widen, stream + tail), |stream + tail|, 0)
            == Some((Listed(widen, parts, o, 0), |stream| + if |tail| < 512 then 0 else 512))
  {
    hide PartOk, Listed, AllScan, Loop;
    var ps := PartPieces(widen, parts, o);
    var file := Stream(ps) + tail;
    var round := Rounds(widen, file);
    var items := PartsScan(widen, file, round, parts, o, 0);
    assert file[0..] == file && file[|file| - |tail|..] == tail;
    TailEnds(widen, file, tail);
    AllScanLength(round, file, ps, items);
    ScanStream(round, ps, items, tail, file, 0, |file| - |tail| + if |tail| < 512 then 0 else 512);
  }

  lemma AllScanLength(round: nat -> Found<Item>, file: seq<byte>, ps: seq<Piece>, items: seq<Option<Item>>)
    requires AllScan(round, file, ps, items)
    ensures |ps| == |items|
  {
  }
}
