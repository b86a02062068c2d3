/**
 An uncompressed archive as a byte string: what pack_files writes, what scan_pax_file finds in it and
 what extract_pax reads through the index.
 */
module Archive {
  import opened Bytes
  import opened PaxRecord
  import opened PaxFlags
  import opened TarHeader
  import opened TarBlock
  import opened PaxHeader
  import opened PaxDecoder
  import opened CacheItem
  import opened ScanLoop

  // ------------------------------------------------------------------------------------- packing

  // xname is the name of the 'x' block.
  datatype Entry = Entry(fi: FileInfo, xname: seq<byte>, name: seq<byte>, content: seq<byte>)

  // A file or directory on the disk: directories have no content.
  ghost predicate EntryOk(e: Entry) {
    && MachineInfo(e.fi) && ArchiveName(e.name) && |e.xname| <= NAME_ROOM
    && e.fi.realsize == 0 && e.fi.size == |e.content| <= INT64_MAX - BLOCKSIZE
    && (e.fi.attr.directory ==> e.content == [])
  }

  // What an entry becomes: its header, and its content filled up with zeros.
  datatype Piece = Piece(head: seq<byte>, body: seq<byte>)

  function PieceOf(e: Entry, o: Options): Piece
    requires EntryOk(e)
  {
    Piece(EncodeHeader(e.fi, o, e.xname, e.name), Padded(e.content))
  }

  ghost predicate AllEntriesOk(es: seq<Entry>) {
    forall k | 0 <= k < |es| :: EntryOk(es[k])
  }

  function Pieces(es: seq<Entry>, o: Options): (ps: seq<Piece>)
    requires AllEntriesOk(es)
    ensures |ps| == |es|
  {
    seq(|es|, k requires 0 <= k < |es| && EntryOk(es[k]) => PieceOf(es[k], o))
  }

  function Stream(ps: seq<Piece>): seq<byte> {
    if ps == [] then [] else ps[0].head + ps[0].body + Stream(ps[1..])
  }

  // ------------------------------------------------------------------------------------ scanning

  const SCAN_BUFFER := 2 * 1024 * 1024
  const NAME_CAPACITY := 32767

  const SLASH: wchar := 47
  const BACKSLASH: wchar := 92

  function BackSlashed(w: seq<wchar>): (r: seq<wchar>)
    ensures |r| == |w|
  {
    seq(|w|, i requires 0 <= i < |w| => if w[i] == SLASH then BACKSLASH else w[i])
  }

  function UpToNul(w: seq<wchar>): seq<wchar> {
    if w == [] || w[0] == 0 then [] else [w[0]] + UpToNul(w[1..])
  }

  // Leading '.' or '/' and then another '/' are not part of a name in the index.
  function Stripped(name: seq<byte>): seq<byte> {
    var n := if name != [] && (name[0] == 46 || name[0] == 47) then name[1..] else name;
    if n != [] && n[0] == 47 then n[1..] else n
  }

  function Bit(b: bool, v: nat): nat {
    if b then v else 0
  }

  // FileAttributes.
  function AttrBits(a: Attr): nat {
    Bit(a.readonly, 0x1) + Bit(a.hidden, 0x2) + Bit(a.system, 0x4) + Bit(a.directory, 0x10) + Bit(a.archive, 0x20)
    + Bit(a.device, 0x40) + Bit(a.normal, 0x80) + Bit(a.sparse, 0x200) + Bit(a.reparse, 0x400)
    + Bit(a.compressed, 0x800)
  }

  // The conversion from UTF-8 is a library call; it yields nothing if it fails.
  type Widen = seq<byte> -> seq<wchar>

  function NewItem(d: Decoded, name: seq<wchar>, pos: nat, hdrPackSize: nat, total: nat): Item {
    Item(name, d.info.size, AttrBits(d.info.attr), d.info.ctime, d.info.mtime, total, pos, d.info.realsize,
         hdrPackSize, d.headerSize)
  }

  // The block of add_pax_info behind parse_header.
  function Added(widen: Widen, isFileDir: bool, p: Decoded, pos: nat, hdrPackSize: nat, total: nat)
    : Option<(Decoded, seq<Item>)>
  {
    var name := Stripped(p.name);
    if !isFileDir || name == [] then Some((p, []))
    else
      var w := widen(name);
      if w == [] || |w| >= NAME_CAPACITY - 32 || UpToNul(w) == [] then None
      else Some((p, [NewItem(p, BackSlashed(UpToNul(w)), pos, hdrPackSize, total)]))
  }

  // The decoder after add_pax_info, and the item that it adds, if any.
  function AddPaxInfo(widen: Widen, d: Decoded, h: seq<byte>, pos: nat, hdrPackSize: nat, total: nat)
    : Option<(Decoded, seq<Item>)>
    requires Sized(d) && d.headerSize <= |h|
  {
    var isFileDir := d.kind == NORMAL || d.kind == DIRECTORY;
    if d.format != Posix then None
    else if !isFileDir && d.info.size != OLD_SIZE_LIMIT then Some((d, []))
    else
      match ReadHeader(d, h)
      case None => None
      case Some(p) => Added(widen, isFileDir, p, pos, hdrPackSize, total)
  }

  predicate IsZero(h: seq<byte>) {
    forall i | 0 <= i < |h| :: h[i] == 0
  }

  // The header at pos and what it takes to get behind it.
  function HeaderAt(file: seq<byte>, pos: nat): Option<Decoded>
    requires pos + BLOCKSIZE <= |file|
  {
    match FirstHeader(file[pos..pos + BLOCKSIZE])
    case None => None
    case Some(d) =>
      if d.headerSize <= BLOCKSIZE then Some(d)
      else if d.headerSize >= SCAN_BUFFER || |file| - pos < d.headerSize then None
      else SecondHeader(d, file[pos..pos + d.headerSize])
  }

  predicate HeaderFits(file: seq<byte>, pos: nat, header: Option<Decoded>) {
    header.Some? ==> Sized(header.value) && BLOCKSIZE <= header.value.headerSize <= |file| - pos
  }

  lemma HeaderAtFits(file: seq<byte>, pos: nat)
    requires pos + BLOCKSIZE <= |file|
    ensures HeaderFits(file, pos, HeaderAt(file, pos))
  {
  }

  // What is added for the header at pos.
  function InfoAt(widen: Widen, file: seq<byte>, pos: nat, header: Option<Decoded>): Option<(Decoded, seq<Item>)>
    requires pos <= |file| && HeaderFits(file, pos, header)
  {
    match header
    case None => None
    case Some(d) =>
      AddPaxInfo(widen, d, file[pos..pos + d.headerSize], pos, 0, d.headerSize + BlocksizeRound(d.info.size))
  }

  // The rest of a round of scan_pax_file, behind the header.
  function ScanEntry(file: seq<byte>, pos: nat, header: Option<Decoded>, added: Option<(Decoded, seq<Item>)>)
    : (f: Found<Item>)
    requires pos <= |file| && HeaderFits(file, pos, header)
    ensures f.More? ==> pos < f.next <= |file|
  {
    match header
    case None => Broken
    case Some(d) => Behind(file, pos + d.headerSize, added)
  }

  // Behind the content of the entry.
  function Behind(file: seq<byte>, pos: nat, added: Option<(Decoded, seq<Item>)>): (f: Found<Item>)
    requires pos <= |file|
    ensures f.More? ==> pos <= f.next <= |file|
  {
    match added
    case None => Broken
    case Some((p, items)) =>
      var next := pos + BlocksizeRound(p.info.size);
      More(items, if next >= |file| then |file| else next)
  }

  lemma InfoIs(widen: Widen, file: seq<byte>, pos: nat, h: seq<byte>, d: Decoded, total: nat)
    requires pos + |h| <= |file| && file[pos..pos + |h|] == h && BLOCKSIZE <= |h| == d.headerSize && Sized(d)
    requires total == d.headerSize + BlocksizeRound(d.info.size)
    ensures InfoAt(widen, file, pos, Some(d)) == AddPaxInfo(widen, d, h, pos, 0, total)
  {
    hide AddPaxInfo;
    assert file[pos..pos + d.headerSize] == h;
  }

  // One round of scan_pax_file.
  function ScanOne(widen: Widen, file: seq<byte>, pos: nat): (f: Found<Item>)
    requires pos <= |file|
    ensures f.More? ==> pos < f.next <= |file|
  {
    if |file| - pos < BLOCKSIZE then End(pos)
    else if IsZero(file[pos..pos + BLOCKSIZE]) then End(pos + BLOCKSIZE)
    else
      HeaderAtFits(file, pos);
      var header := HeaderAt(file, pos);
      ScanEntry(file, pos, header, InfoAt(widen, file, pos, header))
  }

  function Rounds(widen: Widen, file: seq<byte>): nat -> Found<Item> {
    (pos: nat) => if pos <= |file| then ScanOne(widen, file, pos) else Broken
  }

  // update_type and scan_pax_file: the format is that of the first block.
  function Scan(widen: Widen, file: seq<byte>): Option<(seq<Item>, nat)> {
    if |file| < BLOCKSIZE || CheckTarHeader(file[..BLOCKSIZE]) != Some(Posix) then None
    else Loop(Rounds(widen, file), |file|, 0)
  }

  // ---------------------------------------------------------------------------------- extracting

  function ExtractPax(file: seq<byte>, i: Item): Option<seq<byte>> {
    var pos := i.pos + i.hdrSize;
    if pos >= |file| then None
    else Some(file[pos..if pos + i.dataSize > |file| then |file| else pos + i.dataSize])
  }
}
