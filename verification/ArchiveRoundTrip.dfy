/**
 Packing, scanning and extracting: every entry is found again, in order, and its content comes back.
 */
module ArchiveRoundTrip {
  import opened Bytes
  import opened PaxRecord
  import opened PaxFlags
  import opened TarHeader
  import opened TarBlock
  import opened PaxHeader
  import opened PaxDecoder
  import opened PaxRoundTrip
  import opened CacheItem
  import opened ScanLoop
  import opened Archive

  // "./" and a name that can be converted and fits into the buffer of the scanner.
  predicate NameFits(widen: Widen, name: seq<byte>) {
    && |name| > 2 && name[0] == 46 && name[1] == 47
    && var w := widen(name[2..]);
    0 < |w| < NAME_CAPACITY - 32 && 0 !in w
  }

  // The record of an entry whose header has n bytes and starts at pos.
  function EntryItem(widen: Widen, e: Entry, o: Options, n: nat, pos: nat): Item
    requires EntryOk(e) && |e.name| >= 2
  {
    var info := Recovered(e.fi, o);
    Item(BackSlashed(widen(e.name[2..])), |e.content|, AttrBits(info.attr), info.ctime, info.mtime,
         n + BlocksizeRound(Clip(|e.content|)), pos, 0, 0, n)
  }

  lemma {:induction false} WholeName(w: seq<wchar>)
    requires 0 !in w
    ensures UpToNul(w) == w
  {
    if w != [] {
      assert w[0] in w;
      WholeName(w[1..]);
    }
  }

  lemma StripPrefix(name: seq<byte>)
    requires |name| > 2 && name[0] == 46 && name[1] == 47
    ensures Stripped(name) == name[2..]
  {
    assert name[1..][1..] == name[2..];
  }

  lemma NotZero(h: seq<byte>)
    requires |h| == BLOCKSIZE && CheckTarHeader(h).Some?
    ensures !IsZero(h)
  {
    assert h[MAGIC_OFF] == h[MAGIC_OFF..261][0] == MAGIC[..4][0];
  }

  // The two decoders of a header and the parsed one.
  lemma HeaderKnown(e: Entry, o: Options, h: seq<byte>) returns (d1: Decoded, d2: Decoded, p: Decoded)
    requires EntryOk(e) && h == EncodeHeader(e.fi, o, e.xname, e.name)
    ensures BLOCKSIZE < |h| == d1.headerSize == d2.headerSize < SCAN_BUFFER && Sized(d1) && Sized(d2)
    ensures FirstHeader(h[..BLOCKSIZE]) == Some(d1) && d1.format == Posix
    ensures SecondHeader(d1, h) == Some(d2) && d2.format == Posix && d2.kind == Kind(e.fi)
    ensures d2.info.size == Clip(|e.content|)
    ensures ReadHeader(d2, h) == Some(p) && p == d2.(name := e.name, info := Recovered(e.fi, o))
  {
    HeaderRoundTrip(e.fi, o, e.xname, e.name);
    var data := DataFacts(e.fi, o, e.name);
    DataBound(e.fi, o, e.name);
    d1, d2 := FirstDecoded(|data|), SecondDecoded(e.fi, |data|);
    p := d2.(name := e.name, info := Recovered(e.fi, o));
  }

  lemma HeaderAtIs(file: seq<byte>, pos: nat, h: seq<byte>, d1: Decoded, d2: Decoded)
    requires pos + |h| <= |file| && file[pos..pos + |h|] == h
    requires BLOCKSIZE < |h| == d1.headerSize < SCAN_BUFFER && Sized(d1)
    requires FirstHeader(h[..BLOCKSIZE]) == Some(d1) && d1.format == Posix
    requires SecondHeader(d1, h) == Some(d2)
    ensures HeaderAt(file, pos) == Some(d2)
    ensures CheckTarHeader(file[pos..pos + BLOCKSIZE]) == Some(Posix) && !IsZero(file[pos..pos + BLOCKSIZE])
  {
    FirstOf(file, pos, h, BLOCKSIZE);
    NotZero(h[..BLOCKSIZE]);
  }

  lemma FirstOf(file: seq<byte>, pos: nat, h: seq<byte>, n: nat)
    requires pos + |h| <= |file| && file[pos..pos + |h|] == h && n <= |h|
    ensures file[pos..pos + n] == h[..n]
  {
    SliceOfSlice(file, pos, pos + |h|, 0, n);
    assert h[0..n] == h[..n];
  }

  lemma InfoAdded(widen: Widen, d: Decoded, h: seq<byte>, p: Decoded, s: seq<byte>, pos: nat, n: nat, total: nat,
                  i: Item)
    requires Sized(d) && d.headerSize == |h| && d.format == Posix && (d.kind == NORMAL || d.kind == DIRECTORY)
    requires ReadHeader(d, h) == Some(p) && Stripped(p.name) == s != []
    requires 0 < |widen(s)| < NAME_CAPACITY - 32 && 0 !in widen(s)
    requires i == NewItem(p, BackSlashed(widen(s)), pos, n, total)
    ensures AddPaxInfo(widen, d, h, pos, n, total) == Some((p, [i]))
  {
    hide ReadHeader, BackSlashed, NewItem;
    WholeName(widen(s));
  }

  // ------------------------------------------------------------------------------ whole archives

  ghost predicate AllNamesFit(widen: Widen, es: seq<Entry>) {
    forall k | 0 <= k < |es| :: NameFits(widen, es[k].name)
  }

  // Wherever the file has this piece, the scanner adds the item there and goes on behind the piece.
  ghost predicate Scans(round: nat -> Found<Item>, file: seq<byte>, p: Piece, item: Item) {
    forall pos: nat | LiesAt(file, p, pos) :: round(pos) == More([item.(pos := pos)], pos + |p.head| + |p.body|)
  }

  // Wherever the file has this piece, the scanner adds nothing and goes on behind it.
  ghost predicate Passes(round: nat -> Found<Item>, file: seq<byte>, p: Piece) {
    forall pos: nat | LiesAt(file, p, pos) :: round(pos) == More([], pos + |p.head| + |p.body|)
  }

  predicate LiesAt(file: seq<byte>, p: Piece, pos: nat) {
    && pos + |p.head| + |p.body| <= |file| && file[pos..pos + |p.head|] == p.head
    && file[pos + |p.head|..pos + |p.head| + |p.body|] == p.body
  }

  // The three decoders of a header that the scanner accepts and that belongs to a file or directory.
  ghost predicate Known(h: seq<byte>, d1: Decoded, d2: Decoded, p: Decoded) {
    && BLOCKSIZE < |h| == d1.headerSize == d2.headerSize < SCAN_BUFFER && Sized(d1) && Sized(d2)
    && FirstHeader(h[..BLOCKSIZE]) == Some(d1) && d1.format == Posix
    && SecondHeader(d1, h) == Some(d2) && d2.format == Posix && (d2.kind == NORMAL || d2.kind == DIRECTORY)
    && ReadHeader(d2, h) == Some(p)
  }

  // One round of the scanner over a known header.
  lemma ScanKnown(widen: Widen, file: seq<byte>, pos: nat, h: seq<byte>, d1: Decoded, d2: Decoded, p: Decoded,
                  s: seq<byte>, i: Item)
    requires Known(h, d1, d2, p) && Stripped(p.name) == s != []
    requires 0 < |widen(s)| < NAME_CAPACITY - 32 && 0 !in widen(s)
    requires i == NewItem(p, BackSlashed(widen(s)), pos, 0, |h| + BlocksizeRound(d2.info.size))
    requires pos + |h| + BlocksizeRound(p.info.size) <= |file| && file[pos..pos + |h|] == h
    ensures ScanOne(widen, file, pos) == More([i], pos + |h| + BlocksizeRound(p.info.size))
  {
    HeaderAtIs(file, pos, h, d1, d2);
    EntryBehind(widen, file, pos, h, d2, p, s, i);
  }

  lemma EntryBehind(widen: Widen, file: seq<byte>, pos: nat, h: seq<byte>, d: Decoded, p: Decoded,
                    s: seq<byte>, i: Item)
    requires BLOCKSIZE < |h| == d.headerSize && Sized(d) && d.format == Posix
    requires (d.kind == NORMAL || d.kind == DIRECTORY) && ReadHeader(d, h) == Some(p) && Stripped(p.name) == s != []
    requires 0 < |widen(s)| < NAME_CAPACITY - 32 && 0 !in widen(s)
    requires i == NewItem(p, BackSlashed(widen(s)), pos, 0, |h| + BlocksizeRound(d.info.size))
    requires pos + |h| + BlocksizeRound(p.info.size) <= |file| && file[pos..pos + |h|] == h
    ensures ScanEntry(file, pos, Some(d), InfoAt(widen, file, pos, Some(d)))
         == More([i], pos + |h| + BlocksizeRound(p.info.size))
  {
    var total := d.headerSize + BlocksizeRound(d.info.size);
    InfoAdded(widen, d, h, p, s, pos, 0, total, i);
    InfoIs(widen, file, pos, h, d, total);
  }

  lemma RoundKnown(widen: Widen, file: seq<byte>, pos: nat, q: Piece, d1: Decoded, d2: Decoded, p: Decoded,
                   s: seq<byte>, i: Item, next: nat)
    requires Known(q.head, d1, d2, p) && Stripped(p.name) == s != []
    requires 0 < |widen(s)| < NAME_CAPACITY - 32 && 0 !in widen(s)
    requires i == NewItem(p, BackSlashed(widen(s)), pos, 0, |q.head| + BlocksizeRound(d2.info.size))
    requires |q.body| == BlocksizeRound(p.info.size) && next == pos + |q.head| + |q.body|
    requires next <= |file| && file[pos..pos + |q.head|] == q.head
    ensures Rounds(widen, file)(pos) == More([i], next)
  {
    ScanKnown(widen, file, pos, q.head, d1, d2, p, s, i);
  }

  lemma KnownScans(widen: Widen, file: seq<byte>, round: nat -> Found<Item>, q: Piece,
                   d1: Decoded, d2: Decoded, p: Decoded, s: seq<byte>, i: Item)
    requires Known(q.head, d1, d2, p) && Stripped(p.name) == s != []
    requires 0 < |widen(s)| < NAME_CAPACITY - 32 && 0 !in widen(s)
    requires i == NewItem(p, BackSlashed(widen(s)), i.pos, 0, |q.head| + BlocksizeRound(d2.info.size))
    requires |q.body| == BlocksizeRound(p.info.size) && round == Rounds(widen, file)
    ensures Scans(round, file, q, i)
  {
    hide Known, ScanOne, Stripped;
    forall pos: nat | LiesAt(file, q, pos)
      ensures round(pos) == More([i.(pos := pos)], pos + |q.head| + |q.body|)
    {
      RoundKnown(widen, file, pos, q, d1, d2, p, s, i.(pos := pos), pos + |q.head| + |q.body|);
    }
  }

  // The scanner finds every entry that was packed.
  lemma EntryScans(widen: Widen, file: seq<byte>, round: nat -> Found<Item>, e: Entry, o: Options, q: Piece)
    returns (i: Item)
    requires round == Rounds(widen, file)
    requires EntryOk(e) && NameFits(widen, e.name) && q == PieceOf(e, o)
    ensures BLOCKSIZE < |q.head| < SCAN_BUFFER && CheckTarHeader(q.head[..BLOCKSIZE]) == Some(Posix)
    ensures i == EntryItem(widen, e, o, |q.head|, 0) && Scans(round, file, q, i)
  {
    hide EncodeHeader, Scans, CheckTarHeader;
    var d1, d2, p := HeaderKnown(e, o, q.head);
    StripPrefix(e.name);
    i := EntryItem(widen, e, o, |q.head|, 0);
    KnownScans(widen, file, round, q, d1, d2, p, e.name[2..], i);
  }

  // The records of pieces that start at pos.
  function Placed(ps: seq<Piece>, items: seq<Item>, pos: nat): (r: seq<Item>)
    requires |ps| == |items|
    ensures |r| == |ps|
    decreases |ps|
  {
    if ps == [] then []
    else [items[0].(pos := pos)] + Placed(ps[1..], items[1..], pos + |ps[0].head| + |ps[0].body|)
  }

  lemma PieceInFile(file: seq<byte>, pos: nat, h: seq<byte>, c: seq<byte>, rest: seq<byte>)
    requires pos <= |file| && file[pos..] == h + c + rest
    ensures pos + |h| + |c| + |rest| == |file|
    ensures file[pos..pos + |h|] == h && file[pos + |h|..pos + |h| + |c|] == c && file[pos + |h| + |c|..] == rest
  {
    var t := file[pos..];
    assert t[..|h|] == h && t[|h|..|h| + |c|] == c && t[|h| + |c|..] == rest;
    SliceOfDrop(file, pos, pos, pos + |h|);
    SliceOfDrop(file, pos, pos + |h|, pos + |h| + |c|);
    SliceOfDrop(file, pos, pos + |h| + |c|, |file|);
    assert t[0..|h|] == t[..|h|];
    assert t[|h| + |c|..|t|] == t[|h| + |c|..] && file[pos + |h| + |c|..|file|] == file[pos + |h| + |c|..];
  }

  lemma OnePiece(file: seq<byte>, p: Piece, rest: seq<byte>, pos: nat) returns (next: nat)
    requires pos <= |file| && file[pos..] == p.head + p.body + rest && |p.head| > 0
    ensures next == pos + |p.head| + |p.body| && pos < next <= |file| && LiesAt(file, p, pos) && file[next..] == rest
  {
    PieceInFile(file, pos, p.head, p.body, rest);
    next := pos + |p.head| + |p.body|;
  }

  // Each piece is found as its item, or passed over if it has none.
  ghost predicate AllScan(round: nat -> Found<Item>, file: seq<byte>, ps: seq<Piece>, items: seq<Option<Item>>) {
    && |ps| == |items|
    && forall k | 0 <= k < |ps| ::
         |ps[k].head| > 0
         && if items[k].Some? then Scans(round, file, ps[k], items[k].value) else Passes(round, file, ps[k])
  }

  // The records of the pieces that have one; the pieces start at pos.
  function PlacedSome(ps: seq<Piece>, items: seq<Option<Item>>, pos: nat): (r: seq<Item>)
    requires |ps| == |items|
    decreases |ps|
  {
    if ps == [] then []
    else
      (match items[0] case None => [] case Some(i) => [i.(pos := pos)])
      + PlacedSome(ps[1..], items[1..], pos + |ps[0].head| + |ps[0].body|)
  }

  lemma {:induction false} AllPlacedSome(ps: seq<Piece>, items: seq<Item>, some: seq<Option<Item>>, pos: nat)
    requires |ps| == |items| == |some| && forall k | 0 <= k < |ps| :: some[k] == Some(items[k])
    ensures PlacedSome(ps, some, pos) == Placed(ps, items, pos)
    decreases |ps|
  {
    if ps != [] {
      AllPlacedSome(ps[1..], items[1..], some[1..], pos + |ps[0].head| + |ps[0].body|);
    }
  }

  // The scan of a stream of pieces, with a tail behind it at which the scan ends.
  lemma {:induction false} ScanStream(round: nat -> Found<Item>, ps: seq<Piece>, items: seq<Option<Item>>,
                                      tail: seq<byte>, file: seq<byte>, pos: nat, end: nat)
    requires AllScan(round, file, ps, items) && |tail| <= |file| && round(|file| - |tail|) == End(end)
    requires pos <= |file| && file[pos..] == Stream(ps) + tail
    ensures Loop(round, |file|, pos) == Some((PlacedSome(ps, items, pos), end))
    decreases |ps|
  {
    hide Scans, Passes;
    if ps == [] {
      assert pos == |file| - |tail|;
    } else {
      assert file[pos..] == ps[0].head + ps[0].body + (Stream(ps[1..]) + tail);
      var next := OnePiece(file, ps[0], Stream(ps[1..]) + tail, pos);
      ScanStream(round, ps[1..], items[1..], tail, file, next, end);
      var found := FoundAt(round, file, ps[0], items[0], pos);
      LoopMore(round, |file|, pos, found, next, PlacedSome(ps[1..], items[1..], next), end);
    }
  }

  lemma FoundAt(round: nat -> Found<Item>, file: seq<byte>, p: Piece, item: Option<Item>, pos: nat)
    returns (found: seq<Item>)
    requires if item.Some? then Scans(round, file, p, item.value) else Passes(round, file, p)
    requires LiesAt(file, p, pos)
    ensures found == match item case None => [] case Some(i) => [i.(pos := pos)]
    ensures round(pos) == More(found, pos + |p.head| + |p.body|)
  {
    found := match item case None => [] case Some(i) => [i.(pos := pos)];
  }

  // The number of bytes in front of piece k.
  function Before(ps: seq<Piece>, k: nat): nat
    requires k <= |ps|
  {
    if k == 0 then 0 else |ps[0].head| + |ps[0].body| + Before(ps[1..], k - 1)
  }

  lemma {:induction false} PlacedAt(ps: seq<Piece>, items: seq<Item>, pos: nat, k: nat)
    requires |ps| == |items| && k < |ps|
    ensures Placed(ps, items, pos)[k] == items[k].(pos := pos + Before(ps, k))
    decreases k
  {
    if k > 0 {
      PlacedAt(ps[1..], items[1..], pos + |ps[0].head| + |ps[0].body|, k - 1);
    }
  }

  lemma {:induction false} PieceAt(file: seq<byte>, ps: seq<Piece>, tail: seq<byte>, pos: nat, k: nat)
    returns (q: nat)
    requires k < |ps| && forall j | 0 <= j < |ps| :: |ps[j].head| > 0
    requires pos <= |file| && file[pos..] == Stream(ps) + tail
    ensures q == pos + Before(ps, k) && q + |ps[k].head| + |ps[k].body| <= |file|
    ensures file[q + |ps[k].head|..q + |ps[k].head| + |ps[k].body|] == ps[k].body
    ensures q + |ps[k].head| + |ps[k].body| <= |file| - |tail|
    ensures q + |ps[k].head| + |ps[k].body| == |file| - |tail| <==> k == |ps| - 1
    decreases k
  {
    assert file[pos..] == ps[0].head + ps[0].body + (Stream(ps[1..]) + tail);
    PieceInFile(file, pos, ps[0].head, ps[0].body, Stream(ps[1..]) + tail);
    if k == 0 {
      q := pos;
      assert |ps| > 1 ==> |ps[1..][0].head| > 0;
    } else {
      q := PieceAt(file, ps[1..], tail, pos + |ps[0].head| + |ps[0].body|, k - 1);
    }
  }

  lemma ContentBack(file: seq<byte>, i: Item, body: seq<byte>, content: seq<byte>)
    requires i.pos + i.hdrSize + |body| <= |file| && i.dataSize == |content| && body == Padded(content)
    requires file[i.pos + i.hdrSize..i.pos + i.hdrSize + |body|] == body
    ensures ExtractPax(file, i)
            == if content == [] && i.pos + i.hdrSize + |body| == |file| then None else Some(content)
  {
    var at := i.pos + i.hdrSize;
    SliceOfSlice(file, at, at + |body|, 0, |content|);
    assert body[0..|content|] == content;
  }

  lemma PieceOfEntry(es: seq<Entry>, o: Options, k: nat)
    requires AllEntriesOk(es) && k < |es|
    ensures Pieces(es, o)[k] == PieceOf(es[k], o)
  {
  }

  // The items of the entries, as if every header were at position 0.
  function ItemsOf(widen: Widen, es: seq<Entry>, o: Options): (items: seq<Item>)
    requires AllEntriesOk(es) && AllNamesFit(widen, es)
    ensures |items| == |es|
  {
    seq(|es|, k requires 0 <= k < |es| && EntryOk(es[k]) && NameFits(widen, es[k].name) =>
      EntryItem(widen, es[k], o, |PieceOf(es[k], o).head|, 0))
  }

  lemma ItemOfEntry(widen: Widen, es: seq<Entry>, o: Options, k: nat, n: nat)
    requires AllEntriesOk(es) && AllNamesFit(widen, es) && k < |es| && n == |PieceOf(es[k], o).head|
    ensures ItemsOf(widen, es, o)[k] == EntryItem(widen, es[k], o, n, 0)
  {
  }

  lemma OneEntry(widen: Widen, file: seq<byte>, round: nat -> Found<Item>, es: seq<Entry>, o: Options,
                 ps: seq<Piece>, items: seq<Item>, k: nat)
    requires AllEntriesOk(es) && AllNamesFit(widen, es) && ps == Pieces(es, o) && round == Rounds(widen, file)
    requires items == ItemsOf(widen, es, o) && k < |es|
    ensures BLOCKSIZE < |ps[k].head| < SCAN_BUFFER && Scans(round, file, ps[k], items[k])
    ensures CheckTarHeader(ps[k].head[..BLOCKSIZE]) == Some(Posix)
  {
    var q := ps[k];
    PieceOfEntry(es, o, k);
    var i := EntryScans(widen, file, round, es[k], o, q);
    ItemOfEntry(widen, es, o, k, |q.head|);
  }

  lemma EntriesScan(widen: Widen, file: seq<byte>, round: nat -> Found<Item>, es: seq<Entry>, o: Options,
                    ps: seq<Piece>, items: seq<Item>) returns (some: seq<Option<Item>>)
    requires AllEntriesOk(es) && AllNamesFit(widen, es) && ps == Pieces(es, o) && round == Rounds(widen, file)
    requires items == ItemsOf(widen, es, o)
    ensures AllScan(round, file, ps, some) && forall k | 0 <= k < |ps| :: some[k] == Some(items[k])
    ensures forall k | 0 <= k < |ps| :: 0 < |ps[k].head| < SCAN_BUFFER
  {
    hide Scans, EncodeHeader, ItemsOf, Rounds;
    some := seq(|items|, k requires 0 <= k < |items| => Some(items[k]));
    forall k | 0 <= k < |ps| ensures 0 < |ps[k].head| < SCAN_BUFFER && Scans(round, file, ps[k], items[k]) {
      OneEntry(widen, file, round, es, o, ps, items, k);
    }
  }

  // What may stand behind the entries: the zero blocks at the end of a tar file and anything behind the first of
  // them, or less than a block.
  predicate Tail(tail: seq<byte>) {
    |tail| < 512 || forall i | 0 <= i < 512 :: tail[i] == 0
  }

  // The scan stops behind the first zero block.
  lemma TailEnds(widen: Widen, file: seq<byte>, tail: seq<byte>)
    requires Tail(tail) && |tail| <= |file| && file[|file| - |tail|..] == tail
    ensures var at := |file| - |tail|; Rounds(widen, file)(at) == End(at + if |tail| < 512 then 0 else 512)
  {
    hide HeaderAt, InfoAt;
    var at := |file| - |tail|;
    if |tail| >= 512 {
      assert file[at..at + 512] == file[at..][..512];
    }
  }

  // ----------------------------------------------------------------------------------- the theorem

  // What an item of the index gives back of an entry.
  ghost predicate Recovers(widen: Widen, file: seq<byte>, e: Entry, o: Options, i: Item, last: bool)
    requires EntryOk(e) && NameFits(widen, e.name)
  {
    && i == EntryItem(widen, e, o, i.hdrSize, i.pos) && 0 < i.hdrSize < SCAN_BUFFER
    && ExtractPax(file, i) == if e.content == [] && last then None else Some(e.content)
  }

  // Item k ends where the next one starts, and the last one at the end of the file.
  ghost predicate Tile(items: seq<Item>, len: nat, k: nat)
    requires k < |items|
  {
    var i := items[k];
    i.pos + i.hdrSize + BlocksizeRound(i.dataSize) == if k + 1 < |items| then items[k + 1].pos else len
  }

  // The items lie one behind the other and fill the file.
  ghost predicate Tiles(items: seq<Item>, len: nat) {
    && (items != [] ==> items[0].pos == 0)
    && forall k | 0 <= k < |items| :: Tile(items, len, k)
  }

  // A piece and its item, without looking into the header.
  ghost predicate Pair(widen: Widen, e: Entry, o: Options, p: Piece, i: Item) {
    && EntryOk(e) && NameFits(widen, e.name)
    && 0 < |p.head| < SCAN_BUFFER && p.body == Padded(e.content)
    && i == EntryItem(widen, e, o, |p.head|, 0)
  }

  ghost predicate Pairs(widen: Widen, es: seq<Entry>, o: Options, ps: seq<Piece>, base: seq<Item>) {
    |es| == |ps| == |base| && forall k | 0 <= k < |es| :: Pair(widen, es[k], o, ps[k], base[k])
  }

  lemma EntryPair(widen: Widen, es: seq<Entry>, o: Options, ps: seq<Piece>, base: seq<Item>, k: nat)
    requires AllEntriesOk(es) && AllNamesFit(widen, es) && ps == Pieces(es, o) && base == ItemsOf(widen, es, o)
    requires k < |es| && 0 < |ps[k].head| < SCAN_BUFFER
    ensures Pair(widen, es[k], o, ps[k], base[k])
  {
    PieceOfEntry(es, o, k);
    ItemOfEntry(widen, es, o, k, |ps[k].head|);
  }

  lemma PieceRecovers(widen: Widen, file: seq<byte>, e: Entry, o: Options, p: Piece, b: Item, i: Item, last: bool)
    requires Pair(widen, e, o, p, b) && i == b.(pos := i.pos) && i.pos + |p.head| + |p.body| <= |file|
    requires file[i.pos + |p.head|..i.pos + |p.head| + |p.body|] == p.body
    requires i.pos + |p.head| + |p.body| == |file| <==> last
    ensures Recovers(widen, file, e, o, i, last)
    ensures i.hdrSize == |p.head| && BlocksizeRound(i.dataSize) == |p.body|
  {
    ContentBack(file, i, p.body, e.content);
  }

  lemma {:induction false} BeforeNext(ps: seq<Piece>, k: nat)
    requires k < |ps|
    ensures Before(ps, k + 1) == Before(ps, k) + |ps[k].head| + |ps[k].body|
    decreases k
  {
    if k > 0 {
      BeforeNext(ps[1..], k - 1);
    }
  }

  lemma ItemRecovers(widen: Widen, file: seq<byte>, es: seq<Entry>, o: Options, ps: seq<Piece>, tail: seq<byte>,
                     base: seq<Item>, k: nat, i: Item)
    requires Pairs(widen, es, o, ps, base) && k < |es| && file == Stream(ps) + tail
    requires i == base[k].(pos := Before(ps, k))
    ensures EntryOk(es[k]) && NameFits(widen, es[k].name)
    ensures Recovers(widen, file, es[k], o, i, k == |es| - 1 && tail == [])
    ensures i.pos + i.hdrSize + BlocksizeRound(i.dataSize)
            == if k + 1 < |es| then Before(ps, k + 1) else |file| - |tail|
  {
    forall j | 0 <= j < |ps| ensures |ps[j].head| > 0 {
      assert Pair(widen, es[j], o, ps[j], base[j]);
    }
    assert file[0..] == file;
    var q := PieceAt(file, ps, tail, 0, k);
    BeforeNext(ps, k);
    PieceRecovers(widen, file, es[k], o, ps[k], base[k], i, k == |es| - 1 && tail == []);
  }

  // The end-to-end theorem.  The scan of a packed archive, with or without zero blocks at its end, succeeds and
  // finds exactly the entries, in order, with names, sizes, times and attributes; the items tile the archive; and
  // extracting gives back the content of every entry, except for an empty one at the very end of the file.
  lemma EndToEnd(widen: Widen, es: seq<Entry>, o: Options, tail: seq<byte>) returns (items: seq<Item>)
    requires es != [] && AllEntriesOk(es) && AllNamesFit(widen, es) && Tail(tail)
    ensures var stream := Stream(Pieces(es, o));
            && Scan(widen, stream + tail) == Some((items, |stream| + if |tail| < 512 then 0 else 512))
            && Tiles(items, |stream|)
    ensures |items| == |es|
    ensures forall k | 0 <= k < |es| ::
              Recovers(widen, Stream(Pieces(es, o)) + tail, es[k], o, items[k], k == |es| - 1 && tail == [])
  {
    hide Scan, EncodeHeader;
    var ps := Pieces(es, o);
    var file := Stream(ps) + tail;
    items := ScanArchive(widen, file, es, o, ps, tail);
    var base := ItemsOf(widen, es, o);
    AllPairs(widen, file, es, o, ps, base);
    AllPlaced(ps, base, items);
    EveryItem(widen, file, es, o, ps, tail, base, items);
  }

  lemma AllPairs(widen: Widen, file: seq<byte>, es: seq<Entry>, o: Options, ps: seq<Piece>, base: seq<Item>)
    requires AllEntriesOk(es) && AllNamesFit(widen, es) && ps == Pieces(es, o) && base == ItemsOf(widen, es, o)
    requires forall k | 0 <= k < |ps| :: 0 < |ps[k].head| < SCAN_BUFFER
    ensures Pairs(widen, es, o, ps, base)
  {
    forall k | 0 <= k < |es| ensures Pair(widen, es[k], o, ps[k], base[k]) {
      EntryPair(widen, es, o, ps, base, k);
    }
  }

  lemma EveryItem(widen: Widen, file: seq<byte>, es: seq<Entry>, o: Options, ps: seq<Piece>, tail: seq<byte>,
                  base: seq<Item>, items: seq<Item>)
    requires Pairs(widen, es, o, ps, base) && |items| == |es| == |ps| && file == Stream(ps) + tail && es != []
    requires forall k | 0 <= k < |es| :: items[k] == base[k].(pos := Before(ps, k))
    ensures Tiles(items, |file| - |tail|)
    ensures forall k | 0 <= k < |es| ::
              && EntryOk(es[k]) && NameFits(widen, es[k].name)
              && Recovers(widen, file, es[k], o, items[k], k == |es| - 1 && tail == [])
  {
    hide Recovers, Pairs;
    forall k | 0 <= k < |es|
      ensures EntryOk(es[k]) && NameFits(widen, es[k].name)
      ensures Recovers(widen, file, es[k], o, items[k], k == |es| - 1 && tail == [])
      ensures items[k].pos + items[k].hdrSize + BlocksizeRound(items[k].dataSize)
              == if k + 1 < |es| then Before(ps, k + 1) else |file| - |tail|
    {
      ItemRecovers(widen, file, es, o, ps, tail, base, k, items[k]);
    }
  }

  lemma ScanArchive(widen: Widen, file: seq<byte>, es: seq<Entry>, o: Options, ps: seq<Piece>, tail: seq<byte>)
    returns (items: seq<Item>)
    requires es != [] && AllEntriesOk(es) && AllNamesFit(widen, es) && ps == Pieces(es, o)
    requires Tail(tail) && file == Stream(ps) + tail
    ensures Scan(widen, file) == Some((items, |file| - |tail| + if |tail| < 512 then 0 else 512))
    ensures |items| == |es| == |ps| && forall k | 0 <= k < |ps| :: 0 < |ps[k].head| < SCAN_BUFFER
    ensures var base := ItemsOf(widen, es, o); items == Placed(ps, base, 0)
  {
    hide EncodeHeader, Scans, Passes, ItemsOf, Loop;
    var round, base := Rounds(widen, file), ItemsOf(widen, es, o);
    var some := EntriesScan(widen, file, round, es, o, ps, base);
    assert file[0..] == file && file[|file| - |tail|..] == tail;
    TailEnds(widen, file, tail);
    ScanStream(round, ps, some, tail, file, 0, |file| - |tail| + if |tail| < 512 then 0 else 512);
    AllPlacedSome(ps, base, some, 0);
    items := Placed(ps, base, 0);
    OneEntry(widen, file, round, es, o, ps, base, 0);
    FirstBlock(file, ps, tail);
  }

  lemma AllPlaced(ps: seq<Piece>, base: seq<Item>, items: seq<Item>)
    requires |ps| == |base| && items == Placed(ps, base, 0)
    ensures forall k | 0 <= k < |ps| :: items[k] == base[k].(pos := Before(ps, k))
  {
    forall k | 0 <= k < |ps| ensures items[k] == base[k].(pos := Before(ps, k)) {
      PlacedAt(ps, base, 0, k);
    }
  }

  lemma FirstBlock(file: seq<byte>, ps: seq<Piece>, tail: seq<byte>)
    requires ps != [] && file == Stream(ps) + tail && |ps[0].head| > BLOCKSIZE
    ensures |file| > BLOCKSIZE && file[..BLOCKSIZE] == ps[0].head[..BLOCKSIZE]
  {
  }

  // The recorded packed size is the space that the entry takes exactly up to one byte above the largest
  // size of a ustar block; above that it is computed from the clipped size in the block.
  lemma PackSize(widen: Widen, e: Entry, o: Options, n: nat, pos: nat)
    requires EntryOk(e) && NameFits(widen, e.name)
    ensures EntryItem(widen, e, o, n, pos).packSize == n + |Padded(e.content)| <==> |e.content| <= OLD_SIZE_LIMIT + 1
  {
  }

  // An archive whose only file is empty: the file is found, but extracting it fails.
  lemma OnlyEmptyFile(widen: Widen, e: Entry, o: Options) returns (i: Item)
    requires EntryOk(e) && NameFits(widen, e.name) && e.content == []
    ensures var file := Stream(Pieces([e], o)); Scan(widen, file) == Some(([i], |file|)) && ExtractPax(file, i) == None
  {
    hide Scan, Stream, ExtractPax;
    var es := [e];
    assert forall k | 0 <= k < |es| :: es[k] == e;
    var items := EndToEnd(widen, es, o, []);
    var file := Stream(Pieces(es, o));
    assert file + [] == file;
    i := items[0];
    assert items == [i] && es[0] == e;
  }

  // A file of 077777777777 + 2 bytes: the recorded packed size is too small by one block.
  lemma PackSizeTooSmall(widen: Widen, e: Entry, o: Options, n: nat, pos: nat)
    requires EntryOk(e) && NameFits(widen, e.name) && |e.content| == OLD_SIZE_LIMIT + 2
    ensures EntryItem(widen, e, o, n, pos).packSize == n + |Padded(e.content)| - BLOCKSIZE
  {
    assert BlocksizeRound(OLD_SIZE_LIMIT) == OLD_SIZE_LIMIT + 1;
    assert BlocksizeRound(OLD_SIZE_LIMIT + 2) == OLD_SIZE_LIMIT + 1 + BLOCKSIZE;
  }
}
