/**
 The index of an archive: a chain of one MiB blocks that records are appended to in place
 (src/wcx_cache.cpp, add_file_internal), and the cursor that walks it (get_next_file).
 */
module CacheStore {
  import opened Bytes
  import opened Fields
  import opened CacheItem

  const ALLOC_BLOCK_SIZE := 1024 * 1024
  const HEADER := 8 // the link to the next block
  const SPARE := 32

  function Concat(ss: seq<seq<byte>>): seq<byte> {
    if ss == [] then [] else Concat(ss[..|ss| - 1]) + ss[|ss| - 1]
  }

  lemma ConcatMore(ss: seq<seq<byte>>, s: seq<byte>)
    ensures Concat(ss + [s]) == Concat(ss) + s
  {
    assert (ss + [s])[..|ss|] == ss;
  }

  lemma {:induction false} ConcatPart(ss: seq<seq<byte>>, j: nat)
    requires j < |ss|
    ensures var o := |Concat(ss[..j])|;
            o + |ss[j]| <= |Concat(ss)| && Concat(ss)[o..o + |ss[j]|] == ss[j]
  {
    var n := |ss| - 1;
    if j < n {
      assert ss[..n][..j] == ss[..j];
      ConcatPart(ss[..n], j);
      var o, z := |Concat(ss[..j])|, |ss[j]|;
      assert Concat(ss)[o..o + z] == Concat(ss[..n])[o..o + z];
    }
  }

  // A record starts with its own size and fits into a block.
  ghost predicate Record(r: seq<byte>) {
    ITEM_SIZE <= |r| && HEADER + |r| + SPARE < ALLOC_BLOCK_SIZE && At(r, 0, 4) == |r|
  }

  lemma ImageIsRecord(i: Item)
    requires ItemOk(i)
    ensures Record(Image(i)) && ReadItem(Image(i)) == i
  {
    ItemBack(i);
  }

  // Where record number j starts.
  function Offset(rs: seq<seq<byte>>, j: nat): nat
    requires j <= |rs|
  {
    HEADER + |Concat(rs[..j])|
  }

  lemma OffsetZero(rs: seq<seq<byte>>)
    ensures Offset(rs, 0) == HEADER
  {
    assert rs[..0] == [];
  }

  lemma OffsetNext(rs: seq<seq<byte>>, j: nat)
    requires j < |rs|
    ensures Offset(rs, j + 1) == Offset(rs, j) + |rs[j]|
  {
    assert rs[..j + 1] == rs[..j] + [rs[j]];
    ConcatMore(rs[..j], rs[j]);
  }

  // The bytes of a block that holds these records and nothing else.
  ghost predicate Laid(b: seq<byte>, rs: seq<seq<byte>>) {
    && |b| == ALLOC_BLOCK_SIZE
    && HEADER + |Concat(rs)| + SPARE < ALLOC_BLOCK_SIZE
    && b[HEADER..] == Concat(rs) + Zeros(ALLOC_BLOCK_SIZE - HEADER - |Concat(rs)|)
    && forall r | r in rs :: Record(r)
  }

  lemma EmptyLaid(b: seq<byte>)
    requires b == Zeros(ALLOC_BLOCK_SIZE)
    ensures Laid(b, [])
  {
    assert b[HEADER..] == [] + Zeros(ALLOC_BLOCK_SIZE - HEADER);
  }

  // Every record lies inside its block, with its size at its start.
  lemma RecordInside(b: seq<byte>, rs: seq<seq<byte>>, j: nat)
    requires Laid(b, rs) && j < |rs|
    ensures var o := Offset(rs, j);
            && o + |rs[j]| + SPARE < ALLOC_BLOCK_SIZE
            && At(b, o, 4) == |rs[j]| >= ITEM_SIZE
            && b[o..o + |rs[j]|] == rs[j]
  {
    assert rs[j] in rs;
    ConcatPart(rs, j);
    RecordFound(b, Concat(rs), ALLOC_BLOCK_SIZE - HEADER - |Concat(rs)|, |Concat(rs[..j])|, rs[j]);
  }

  lemma RecordFound(b: seq<byte>, p: seq<byte>, n: nat, o: nat, r: seq<byte>)
    requires |b| >= HEADER && b[HEADER..] == p + Zeros(n)
    requires 4 <= |r| && o + |r| <= |p| && p[o..o + |r|] == r
    ensures HEADER + o + |r| <= |b| && b[HEADER + o..HEADER + o + |r|] == r
    ensures At(b, HEADER + o, 4) == At(r, 0, 4)
  {
    RecordSlice(b, p, n, o, |r|);
    SliceOfSlice(b, HEADER + o, HEADER + o + |r|, 0, 4);
  }

  lemma RecordSlice(b: seq<byte>, p: seq<byte>, n: nat, o: nat, z: nat)
    requires |b| >= HEADER && b[HEADER..] == p + Zeros(n) && o + z <= |p|
    ensures b[HEADER + o..HEADER + o + z] == p[o..o + z]
  {
    var t := b[HEADER..];
    assert t[o..o + z] == p[o..o + z];
    SliceOfDrop(b, HEADER, HEADER + o, HEADER + o + z);
  }

  // Behind the last record there is a zero size, still inside the block.
  lemma TerminatorInside(b: seq<byte>, rs: seq<seq<byte>>)
    requires Laid(b, rs)
    ensures var o := Offset(rs, |rs|); o + 4 <= ALLOC_BLOCK_SIZE && At(b, o, 4) == 0
  {
    assert rs[..|rs|] == rs;
    var o, t, p := Offset(rs, |rs|), b[HEADER..], Concat(rs);
    SliceOfDrop(b, HEADER, o, o + 4);
    assert t[|p|..|p| + 4] == Zeros(4);
    ZeroValue(4);
  }

  lemma {:induction false} ZeroValue(n: nat)
    ensures Value(Zeros(n)) == 0
  {
    if n > 0 {
      assert Zeros(n)[1..] == Zeros(n - 1);
      ZeroValue(n - 1);
    }
  }

  // One more record behind the others.
  lemma LaidMore(b: seq<byte>, rs: seq<seq<byte>>, r: seq<byte>)
    requires Laid(b, rs) && Record(r) && HEADER + |Concat(rs)| + |r| + SPARE < ALLOC_BLOCK_SIZE
    ensures var o := HEADER + |Concat(rs)|;
            b[o..o + |r|] == Zeros(|r|) && Laid(Splice(b, o, r), rs + [r])
  {
    ConcatMore(rs, r);
    var p, n := Concat(rs), ALLOC_BLOCK_SIZE - HEADER - |Concat(rs)|;
    var o := HEADER + |p|;
    var t := b[HEADER..];
    SliceOfDrop(b, HEADER, o, o + |r|);
    assert t[|p|..|p| + |r|] == Zeros(|r|);
    TailSplice(b, p, n, r);
  }

  lemma TailSplice(b: seq<byte>, p: seq<byte>, n: nat, m: seq<byte>)
    requires |b| >= HEADER && b[HEADER..] == p + Zeros(n) && |m| <= n
    ensures Splice(b, HEADER + |p|, m)[HEADER..] == p + m + Zeros(n - |m|)
  {
    var t, o := b[HEADER..], HEADER + |p|;
    assert b[HEADER..o] == t[..|p|] == p;
    assert b[o + |m|..] == t[|p| + |m|..] == Zeros(n - |m|);
    assert Splice(b, o, m)[HEADER..] == b[HEADER..o] + m + b[o + |m|..];
  }

  // ------------------------------------------------------------------------------ writing a record

  method WriteItem(buf: array<byte>, off: nat, i: Item)
    requires off + ItemSize(i) <= buf.Length && buf[off..off + ItemSize(i)] == Zeros(ItemSize(i))
    modifies buf
    ensures buf[..] == Splice(old(buf[..]), off, Image(i))
  {
    ghost var b0, n := buf[..], ItemSize(i);
    ghost var fs := FieldList(i);
    NothingWritten(b0, off, n, fs);
    WriteFile(buf, off, i, b0, n, fs);
    WriteInfo(buf, off, i, b0, n, fs);
    assert fs[13..] == [];
    Whole(b0, buf[..], off, n);
  }

  lemma Whole(b0: seq<byte>, b: seq<byte>, off: nat, n: nat)
    requires off + n <= |b0| == |b| && b[..off] == b0[..off] && b[off + n..] == b0[off + n..]
    ensures b == Splice(b0, off, b[off..off + n])
  {
  }

  // The assignments of add_file_internal.
  method WriteFile(buf: array<byte>, off: nat, i: Item, ghost b0: seq<byte>, ghost n: nat, ghost fs: seq<Field>)
    requires FileFields(fs, i) && Written(b0, buf[..], off, n, fs, 0)
    modifies buf
    ensures Written(b0, buf[..], off, n, fs, 6)
  {
    PutField(buf, off, n, 32, LittleEndian(i.dataSize, 8), b0, fs, 0);
    PutField(buf, off, n, 48, LittleEndian(i.attr, 4), b0, fs, 1);
    PutField(buf, off, n, 68, LittleEndian(|i.name|, 2), b0, fs, 2);
    PutField(buf, off, n, NAME_OFF, Wide(i.name), b0, fs, 3);
    PutField(buf, off, n, NAME_OFF + 2 * |i.name|, [0, 0], b0, fs, 4);
    PutField(buf, off, n, 0, LittleEndian(ItemSize(i), 4), b0, fs, 5);
  }

  // The assignments of add_pax_info.
  method WriteInfo(buf: array<byte>, off: nat, i: Item, ghost b0: seq<byte>, ghost n: nat, ghost fs: seq<Field>)
    requires InfoFields(fs, i) && Written(b0, buf[..], off, n, fs, 6)
    modifies buf
    ensures Written(b0, buf[..], off, n, fs, 13)
  {
    PutField(buf, off, n, 52, LittleEndian(Unsigned(i.ctime), 8), b0, fs, 6);
    PutField(buf, off, n, 60, LittleEndian(Unsigned(i.mtime), 8), b0, fs, 7);
    PutField(buf, off, n, 40, LittleEndian(i.packSize, 8), b0, fs, 8);
    PutField(buf, off, n, 8, LittleEndian(i.pos, 8), b0, fs, 9);
    PutField(buf, off, n, 24, LittleEndian(i.realsize, 8), b0, fs, 10);
    PutField(buf, off, n, 16, LittleEndian(i.hdrPackSize, 4), b0, fs, 11);
    PutField(buf, off, n, 20, LittleEndian(i.hdrSize, 4), b0, fs, 12);
  }

  // ------------------------------------------------------------------------------------ the chain

  // One malloc'ed block; next stands for the link in its first eight bytes.
  class Block {
    const data: array<byte>
    var next: Block?

    constructor ()
      ensures fresh(data) && data.Length == ALLOC_BLOCK_SIZE && data[..] == Zeros(ALLOC_BLOCK_SIZE) && next == null
    {
      data := new byte[ALLOC_BLOCK_SIZE](_ => 0);
      next := null;
    }
  }

  // The bytes of every block are those of its records.
  ghost predicate AllLaid(contents: seq<seq<byte>>, lists: seq<seq<seq<byte>>>) {
    |contents| == |lists| && forall i | 0 <= i < |lists| :: Laid(contents[i], lists[i])
  }

  // All lists but the last.
  ghost predicate Filled(lists: seq<seq<seq<byte>>>) {
    forall i | 0 <= i < |lists| - 1 :: lists[i] != []
  }

  function Flat(lists: seq<seq<seq<byte>>>): seq<seq<byte>> {
    if lists == [] then [] else Flat(lists[..|lists| - 1]) + lists[|lists| - 1]
  }

  lemma FlatSnoc(lists: seq<seq<seq<byte>>>, r: seq<byte>)
    requires lists != []
    ensures var n := |lists| - 1; Flat(lists[n := lists[n] + [r]]) == Flat(lists) + [r]
  {
    var n := |lists| - 1;
    assert lists[n := lists[n] + [r]][..n] == lists[..n];
  }

  lemma FlatEmpty(lists: seq<seq<seq<byte>>>)
    ensures Flat(lists + [[]]) == Flat(lists)
  {
    assert (lists + [[]])[..|lists|] == lists;
  }

  // The records in the blocks, the place behind the last one and their number.
  ghost predicate Stored(contents: seq<seq<byte>>, lists: seq<seq<seq<byte>>>, pos: nat, count: nat) {
    && AllLaid(contents, lists)
    && Filled(lists)
    && (lists != [] ==> pos == HEADER + |Concat(lists[|lists| - 1])|)
    && count == |Flat(lists)|
  }

  lemma StoredBlock(contents: seq<seq<byte>>, lists: seq<seq<seq<byte>>>, pos: nat, count: nat, c: seq<byte>)
    returns (l: seq<seq<seq<byte>>>)
    requires Stored(contents, lists, pos, count) && (lists != [] ==> lists[|lists| - 1] != [])
    requires c == Zeros(ALLOC_BLOCK_SIZE)
    ensures Stored(contents + [c], l, HEADER, count) && l == lists + [[]] && Flat(l) == Flat(lists)
  {
    l := lists + [[]];
    EmptyLaid(c);
    FlatEmpty(lists);
    assert Concat([]) == [];
  }

  lemma StoredItem(contents: seq<seq<byte>>, lists: seq<seq<seq<byte>>>, pos: nat, count: nat, r: seq<byte>)
    returns (l: seq<seq<seq<byte>>>, c: seq<byte>)
    requires Stored(contents, lists, pos, count) && lists != []
    requires Record(r) && pos + |r| + SPARE < ALLOC_BLOCK_SIZE
    ensures var n := |lists| - 1;
            && |contents[n]| == ALLOC_BLOCK_SIZE && contents[n][pos..pos + |r|] == Zeros(|r|)
            && c == Splice(contents[n], pos, r)
            && Stored(contents[n := c], l, pos + |r|, count + 1)
    ensures |l| == |lists| && l[|l| - 1] != [] && Flat(l) == Flat(lists) + [r]
    ensures l == lists[|lists| - 1 := lists[|lists| - 1] + [r]]
  {
    var n := |lists| - 1;
    LaidMore(contents[n], lists[n], r);
    ConcatMore(lists[n], r);
    FlatSnoc(lists, r);
    l, c := lists[n := lists[n] + [r]], Splice(contents[n], pos, r);
  }

  // One more record: it goes behind the others in the last block, or into a new block if less than 33 bytes would be
  // left behind it.
  function Appended(lists: seq<seq<seq<byte>>>, r: seq<byte>): seq<seq<seq<byte>>> {
    var n := |lists| - 1;
    if n < 0 || 8 + |Concat(lists[n])| + |r| + 32 >= 1024 * 1024 then lists + [[r]]
    else lists[n := lists[n] + [r]]
  }

  lemma NewList(lists: seq<seq<seq<byte>>>, r: seq<byte>)
    ensures var l := lists + [[]]; l[|lists| := l[|lists|] + [r]] == lists + [[r]]
  {
    assert [] + [r] == [r];
  }

  // The lists of all blocks for these records.
  function Filling(rs: seq<seq<byte>>): seq<seq<seq<byte>>> {
    if rs == [] then [] else Appended(Filling(rs[..|rs| - 1]), rs[|rs| - 1])
  }

  // No block is empty, and the first record of a block would not have fitted into the one before.
  ghost predicate NoneWasted(lists: seq<seq<seq<byte>>>) {
    && (forall i | 0 <= i < |lists| :: lists[i] != [])
    && forall i | 0 <= i < |lists| - 1 :: 8 + |Concat(lists[i])| + |lists[i + 1][0]| + 32 >= 1024 * 1024
  }

  lemma AppendedWastesNone(lists: seq<seq<seq<byte>>>, r: seq<byte>)
    requires NoneWasted(lists)
    ensures NoneWasted(Appended(lists, r)) && Flat(Appended(lists, r)) == Flat(lists) + [r]
  {
    hide Concat;
    var l, n := Appended(lists, r), |lists| - 1;
    if |l| == |lists| {
      FlatSnoc(lists, r);
      assert l[n][0] == lists[n][0] && l[..n] == lists[..n];
    } else {
      assert l[..|lists|] == lists;
    }
  }

  // The blocks hold the records in order, and a new one is begun only when the next record needs it.
  lemma {:induction false} FilledBlocks(rs: seq<seq<byte>>)
    ensures NoneWasted(Filling(rs)) && Flat(Filling(rs)) == rs
  {
    hide NoneWasted, Appended;
    if rs == [] {
      NothingWasted();
    } else {
      FilledBlocks(rs[..|rs| - 1]);
      AppendedWastesNone(Filling(rs[..|rs| - 1]), rs[|rs| - 1]);
    }
  }

  lemma NothingWasted()
    ensures NoneWasted([])
  {
  }

  // ---- walking

  lemma {:induction false} FlatPlace(lists: seq<seq<seq<byte>>>, i: nat, j: nat)
    requires i < |lists| && j < |lists[i]|
    ensures var k := |Flat(lists[..i])| + j; k < |Flat(lists)| && Flat(lists)[k] == lists[i][j]
  {
    var n := |lists| - 1;
    if i < n {
      assert lists[..n][..i] == lists[..i];
      FlatPlace(lists[..n], i, j);
    }
  }

  lemma FlatPrefix(lists: seq<seq<seq<byte>>>, i: nat)
    requires i < |lists|
    ensures |Flat(lists[..i + 1])| == |Flat(lists[..i])| + |lists[i]|
    ensures i + 1 == |lists| ==> |Flat(lists)| == |Flat(lists[..i])| + |lists[i]|
  {
    assert lists[..i + 1][..i] == lists[..i];
    assert i + 1 == |lists| ==> lists[..i + 1] == lists;
  }

  // The place behind record j of block i; k is the number of records in front of it.
  lemma CursorNext(lists: seq<seq<seq<byte>>>, i: nat, j: nat, k: nat) returns (more: bool, i': nat, j': nat)
    requires i < |lists| && j < |lists[i]| && (i + 1 < |lists| ==> lists[i + 1] != [])
    requires k == |Flat(lists[..i])| + j + 1
    ensures more <==> k < |Flat(lists)|
    ensures more <==> j + 1 < |lists[i]| || i + 1 < |lists|
    ensures more ==> i' < |lists| && j' < |lists[i']| && |Flat(lists[..i'])| + j' == k
    ensures more ==> if j + 1 < |lists[i]| then i' == i && j' == j + 1 else i' == i + 1 && j' == 0
    ensures !more ==> k == |Flat(lists)|
  {
    FlatPrefix(lists, i);
    more, i', j' := false, i, j;
    if j + 1 < |lists[i]| {
      more, j' := true, j + 1;
      FlatPlace(lists, i, j + 1);
    } else if i + 1 < |lists| {
      more, i', j' := true, i + 1, 0;
      FlatPlace(lists, i + 1, 0);
    }
  }

  // What the cursor finds behind record j of block i.
  lemma NextInBlock(contents: seq<seq<byte>>, lists: seq<seq<seq<byte>>>, i: nat, j: nat)
    requires AllLaid(contents, lists) && i < |lists| && j < |lists[i]|
    ensures var b, rs := contents[i], lists[i];
            var o, next := Offset(rs, j), Offset(rs, j + 1);
            && |b| == ALLOC_BLOCK_SIZE
            && next == o + |rs[j]| && next + 4 <= ALLOC_BLOCK_SIZE
            && At(b, o, 4) == |rs[j]| >= ITEM_SIZE && b[o..next] == rs[j]
            && (At(b, next, 4) == 0 <==> j + 1 == |rs|)
  {
    var b, rs := contents[i], lists[i];
    RecordInside(b, rs, j);
    OffsetNext(rs, j);
    if j + 1 < |rs| {
      RecordInside(b, rs, j + 1);
    } else {
      TerminatorInside(b, rs);
    }
  }

  // The place of a cursor: record j of block i.
  class CacheEnum {
    var block: Block?
    var record: nat
    ghost var i: nat
    ghost var j: nat

    constructor ()
      ensures block == null
    {
      block, record := null, 0;
    }
  }

  ghost predicate Separate(bs: seq<Block>) {
    forall i, j | 0 <= i < j < |bs| :: bs[i] != bs[j] && bs[i].data != bs[j].data
  }

  class Cache {
    var root: Block?
    var block: Block?
    var pos: nat
    var blockCount: nat
    var itemCount: nat
    ghost var blocks: seq<Block>
    ghost var contents: seq<seq<byte>>
    ghost var lists: seq<seq<seq<byte>>>
    ghost var repr: set<object>

    // The blocks are linked in order and have these contents.
    ghost predicate Linked()
      reads `root, `block, `blockCount, `blocks, `contents, `repr, repr
    {
      && this !in repr && |blocks| == |contents| == blockCount
      && (forall i | 0 <= i < |blocks| :: blocks[i] in repr && blocks[i].data in repr)
      && (forall i | 0 <= i < |blocks| :: blocks[i].data[..] == contents[i])
      && (forall i | 0 <= i < |blocks| - 1 :: blocks[i].next == blocks[i + 1])
      && (blocks != [] ==> root == blocks[0] && block == blocks[|blocks| - 1] && blocks[|blocks| - 1].next == null)
      && (blocks == [] ==> root == null)
      && Separate(blocks)
    }

    // A new block at the end may still be empty.
    ghost predicate Chained()
      reads this, repr
    {
      Linked() && Stored(contents, lists, pos, itemCount)
    }

    ghost predicate Valid()
      reads this, repr
    {
      Chained() && (lists != [] ==> lists[|lists| - 1] != [])
    }

    // The records in order.
    ghost function Records(): seq<seq<byte>>
      reads this
    {
      Flat(lists)
    }

    constructor ()
      ensures Valid() && lists == [] && Records() == [] && blockCount == 0 && fresh(repr)
    {
      root, block, pos, blockCount, itemCount := null, null, 0, 0, 0;
      blocks, contents, lists, repr := [], [], [], {};
    }

    method LinkBlock(blk: Block)
      requires Linked() && blk !in repr && blk.data !in repr && blk.next == null
      modifies this`root, this`block, this`blockCount, this`blocks, this`contents, this`repr, repr
      ensures Linked() && blocks == old(blocks) + [blk] && contents == old(contents) + [blk.data[..]]
      ensures repr == old(repr) + {blk, blk.data}
    {
      if blockCount == 0 {
        root := blk;
      } else {
        block.next := blk;
      }
      block := blk;
      blockCount := blockCount + 1;
      blocks := blocks + [blk];
      contents := contents + [blk.data[..]];
      repr := repr + {blk, blk.data};
    }

    method NewBlock()
      requires Valid()
      modifies this, repr
      ensures Chained() && lists == old(lists) + [[]] && Records() == old(Records()) && pos == HEADER
      ensures fresh(repr - old(repr))
    {
      hide Stored, Flat;
      var blk := new Block();
      lists := StoredBlock(contents, lists, pos, itemCount, blk.data[..]);
      pos := HEADER;
      LinkBlock(blk);
    }

    method PutBytes(i: Item, ghost r: seq<byte>, ghost n: nat, ghost c: seq<byte>)
      requires Linked() && n == |blocks| - 1 && |contents[n]| == ALLOC_BLOCK_SIZE && r == Image(i)
      requires pos + |r| <= ALLOC_BLOCK_SIZE && contents[n][pos..pos + |r|] == Zeros(|r|)
      requires c == Splice(contents[n], pos, r)
      modifies `contents, block.data
      ensures Linked() && contents == old(contents)[n := c]
    {
      WriteItem(block.data, pos, i);
      contents := contents[n := block.data[..]];
    }

    // The record goes behind the others in the last block.
    method PutItem(i: Item, ghost r: seq<byte>, ghost n: nat, ghost c: seq<byte>, ghost l: seq<seq<seq<byte>>>)
      requires Linked() && n == |blocks| - 1 && |contents[n]| == ALLOC_BLOCK_SIZE && r == Image(i)
      requires pos + |r| <= ALLOC_BLOCK_SIZE && contents[n][pos..pos + |r|] == Zeros(|r|)
      requires c == Splice(contents[n], pos, r)
      modifies `contents, `pos, `itemCount, `lists, block.data
      ensures Linked() && contents == old(contents)[n := c] && lists == l
      ensures pos == old(pos) + |r| && itemCount == old(itemCount) + 1
    {
      PutBytes(i, r, n, c);
      pos := pos + ItemSize(i);
      itemCount := itemCount + 1;
      lists := l;
    }

    method AppendItem(i: Item, ghost r: seq<byte>)
      requires Chained() && lists != [] && r == Image(i) && Record(r) && pos + |r| + SPARE < ALLOC_BLOCK_SIZE
      modifies `contents, `pos, `itemCount, `lists, block.data
      ensures Valid() && Records() == old(Records()) + [r]
      ensures var n := |old(lists)| - 1; lists == old(lists)[n := old(lists)[n] + [r]]
    {
      ghost var l, c := StoredItem(contents, lists, pos, itemCount, r);
      PutItem(i, r, |lists| - 1, c, l);
    }

    // add_file_internal, with the assignments to the fields of the new record.
    method AddItem(i: Item)
      requires Valid() && ItemOk(i)
      modifies this, repr
      ensures Valid() && Records() == old(Records()) + [Image(i)] && fresh(repr - old(repr))
      ensures lists == Appended(old(lists), Image(i)) && blockCount == |lists|
    {
      hide Flat, Concat, Image, ItemOk;
      ghost var r := Image(i);
      ImageIsRecord(i);
      if blockCount == 0 || pos + ItemSize(i) + SPARE >= ALLOC_BLOCK_SIZE {
        NewBlock();
      }
      NewList(old(lists), r);
      AppendItem(i, r);
    }

    ghost predicate CursorOk(ce: CacheEnum)
      reads this, ce
    {
      ce.block != null ==>
        && ce.i < |blocks| && ce.i < |lists| && ce.j < |lists[ce.i]|
        && ce.block == blocks[ce.i] && ce.record == Offset(lists[ce.i], ce.j)
    }

    // The number of records that the cursor has passed.
    ghost function Seen(ce: CacheEnum): nat
      requires CursorOk(ce)
      reads this, ce
    {
      if ce.block == null then 0 else |Flat(lists[..ce.i])| + ce.j + 1
    }

    // Every record of the list is found in its block, with the next one or a zero size behind it.
    lemma AtCursor(i: nat, j: nat, r: seq<byte>)
      requires Valid() && i < |lists| && j < |lists[i]| && r == lists[i][j]
      ensures var o := Offset(lists[i], j);
              && i < |blocks| && blocks[i].data.Length == ALLOC_BLOCK_SIZE
              && o + |r| + 4 <= ALLOC_BLOCK_SIZE && |r| >= ITEM_SIZE
              && At(blocks[i].data[..], o, 4) == |r|
              && blocks[i].data[o..o + |r|] == r
              && Offset(lists[i], j + 1) == o + |r|
              && (At(blocks[i].data[..], o + |r|, 4) == 0 <==> j + 1 == |lists[i]|)
    {
      NextInBlock(contents, lists, i, j);
      assert blocks[i].data[..] == contents[i];
    }

    // The first branch of get_next_file: the first record of the first block.
    method FirstFile(ce: CacheEnum) returns (found: bool)
      requires Valid() && CursorOk(ce) && ce.block == null
      modifies ce
      ensures found <==> |Records()| > 0
      ensures CursorOk(ce) && (found ==> ce.block != null) && Seen(ce) == if found then 1 else 0
    {
      found := false;
      if root == null || itemCount == 0 {
        return;
      }
      AtCursor(0, 0, lists[0][0]);
      OffsetZero(lists[0]);
      if At(root.data[..], HEADER, 4) == 0 {
        return;
      }
      ce.block, ce.record := root, HEADER;
      ce.i, ce.j := 0, 0;
      found := true;
    }

    // What lies behind record j of a block.
    lemma Behind(blk: Block, record: nat, i: nat, j: nat)
      requires Valid() && i < |blocks| && i < |lists| && j < |lists[i]|
      requires blk == blocks[i] && record == Offset(lists[i], j)
      ensures |lists| == |blocks| && blk.data.Length == ALLOC_BLOCK_SIZE && record + 4 <= ALLOC_BLOCK_SIZE
      ensures var next := record + At(blk.data[..], record, 4);
              && next + 4 <= ALLOC_BLOCK_SIZE && next == Offset(lists[i], j + 1)
              && (At(blk.data[..], next, 4) == 0 <==> j + 1 == |lists[i]|)
    {
      AtCursor(i, j, lists[i][j]);
    }

    // The next block, and its first record.
    lemma BehindBlock(blk: Block, i: nat)
      requires Valid() && i < |blocks| && blk == blocks[i]
      ensures |lists| == |blocks|
      ensures if i + 1 < |blocks| then
                && blk.next == blocks[i + 1] && blocks[i + 1].data.Length == ALLOC_BLOCK_SIZE
                && lists[i + 1] != [] && At(blocks[i + 1].data[..], HEADER, 4) != 0 && Offset(lists[i + 1], 0) == HEADER
              else blk.next == null
    {
      if i + 1 < |blocks| {
        AtCursor(i + 1, 0, lists[i + 1][0]);
        OffsetZero(lists[i + 1]);
      }
    }

    // The record behind record j of block i, or the first of the next block.
    method FindNext(blk: Block, record: nat, ghost i: nat, ghost j: nat, ghost k: nat)
      returns (found: bool, b: Block, rec: nat, ghost i': nat, ghost j': nat)
      requires Valid() && i < |blocks| && i < |lists| && j < |lists[i]|
      requires blk == blocks[i] && record == Offset(lists[i], j) && k == |Flat(lists[..i])| + j + 1
      ensures found <==> k < |Records()|
      ensures found ==> i' < |blocks| && i' < |lists| && j' < |lists[i']| && |Flat(lists[..i'])| + j' == k
      ensures found ==> b == blocks[i'] && rec == Offset(lists[i'], j')
      ensures !found ==> k == |Records()|
    {
      hide Stored, Separate, Flat;
      BehindBlock(blk, i);
      Behind(blk, record, i, j);
      ghost var more;
      more, i', j' := CursorNext(lists, i, j, k);
      found, b, rec := false, blk, record;
      var next := record + At(blk.data[..], record, 4);
      if next >= ALLOC_BLOCK_SIZE {
        return;
      }
      if At(blk.data[..], next, 4) != 0 {
        found, rec := true, next;
      } else if blk.next != null && At(blk.next.data[..], HEADER, 4) != 0 {
        found, b, rec := true, blk.next, HEADER;
      }
    }

    // get_next_file; the bytes of the record stand for the pointer to it.
    method GetNextFile(ce: CacheEnum) returns (item: Option<seq<byte>>)
      requires Valid() && CursorOk(ce)
      modifies ce
      ensures CursorOk(ce)
      ensures var k := old(Seen(ce));
              if k < |Records()| then Seen(ce) == k + 1 && item == Some(Records()[k])
              else Seen(ce) == k && item == None
    {
      hide Flat, Stored;
      var found := Advance(ce);
      item := None;
      if found {
        var r := Current(ce);
        item := Some(r);
      }
    }

    method Advance(ce: CacheEnum) returns (found: bool)
      requires Valid() && CursorOk(ce)
      modifies ce
      ensures CursorOk(ce)
      ensures found <==> old(Seen(ce)) < |Records()|
      ensures found ==> ce.block != null && Seen(ce) == old(Seen(ce)) + 1
      ensures !found ==> Seen(ce) == old(Seen(ce))
    {
      hide Flat, Stored;
      if ce.block == null {
        found := FirstFile(ce);
      } else {
        var b, rec;
        ghost var i, j;
        found, b, rec, i, j := FindNext(ce.block, ce.record, ce.i, ce.j, Seen(ce));
        if found {
          ce.block, ce.record := b, rec;
          ce.i, ce.j := i, j;
        }
      }
    }

    // The record at the cursor.
    method Current(ce: CacheEnum) returns (r: seq<byte>)
      requires Valid() && CursorOk(ce) && ce.block != null
      ensures 0 < Seen(ce) <= |Records()| && r == Records()[Seen(ce) - 1]
    {
      hide Separate, Stored;
      ghost var x := lists[ce.i][ce.j];
      AtCursor(ce.i, ce.j, x);
      FlatPlace(lists, ce.i, ce.j);
      var size := At(ce.block.data[..], ce.record, 4);
      r := ce.block.data[ce.record..ce.record + size];
      assert r == x;
    }
  }
}
