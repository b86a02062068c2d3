/**
 The record of a file in the index (src/wcx_cache.h, struct cache_item): its fields in place, in
 little-endian order, and reading them back.
 */
module CacheItem {
  import opened Bytes
  import opened Numerals
  import opened Fields

  type wchar = x: int | 0 <= x < 65536

  const ITEM_SIZE := 72 // with room for the NUL behind the name
  const NAME_OFF := 70

  datatype Item = Item(name: seq<wchar>, dataSize: nat, attr: nat, ctime: int, mtime: int, packSize: nat,
                       pos: nat, realsize: nat, hdrPackSize: nat, hdrSize: nat)

  predicate IsInt64(t: int) {
    -INT64_MAX - 1 <= t <= INT64_MAX
  }

  // The values fit into the fields.
  predicate ItemOk(i: Item) {
    && 0 < |i.name| < 65536 && i.dataSize < UINT64_LIMIT && i.attr < UINT32_LIMIT
    && IsInt64(i.ctime) && IsInt64(i.mtime) && i.packSize < UINT64_LIMIT
    && i.pos < UINT64_LIMIT && i.realsize < UINT64_LIMIT && i.hdrPackSize < UINT32_LIMIT && i.hdrSize < UINT32_LIMIT
  }

  // ------------------------------------------------------------------------------- little endian

  function LittleEndian(v: nat, n: nat): (s: seq<byte>)
    ensures |s| == n
  {
    if n == 0 then [] else [v % 256] + LittleEndian(v / 256, n - 1)
  }

  lemma {:induction false} ValueBack(v: nat, n: nat)
    requires v < Pow(256, n)
    ensures Value(LittleEndian(v, n)) == v
  {
    if n > 0 {
      assert LittleEndian(v, n)[1..] == LittleEndian(v / 256, n - 1);
      ValueBack(v / 256, n - 1);
    }
  }

  lemma FieldWidths()
    ensures Pow(256, 2) == 65536 && Pow(256, 4) == UINT32_LIMIT && Pow(256, 8) == UINT64_LIMIT
  {
    PowSum(256, 2, 2);
    PowSum(256, 4, 4);
  }

  function Unsigned(t: int): nat {
    t % UINT64_LIMIT
  }

  function Wrapped(v: nat): int {
    if v > INT64_MAX then v - UINT64_LIMIT else v
  }

  lemma SignedBack(t: int)
    requires IsInt64(t)
    ensures Unsigned(t) < UINT64_LIMIT && Wrapped(Unsigned(t)) == t
  {
  }

  function Wide(name: seq<wchar>): (s: seq<byte>)
    ensures |s| == 2 * |name|
  {
    if name == [] then [] else LittleEndian(name[0], 2) + Wide(name[1..])
  }

  function Narrow(s: seq<byte>): seq<wchar> {
    if |s| < 2 then []
    else
      var c: int := s[0] + 256 * (s[1] as int);
      [c] + Narrow(s[2..])
  }

  lemma {:induction false} NarrowBack(name: seq<wchar>)
    ensures Narrow(Wide(name)) == name
  {
    if name != [] {
      var s := Wide(name);
      assert s[2..] == Wide(name[1..]);
      NarrowBack(name[1..]);
      assert LittleEndian(name[0], 2) == [name[0] % 256, name[0] / 256];
    }
  }

  // ---------------------------------------------------------------------------------- the fields

  function ItemSize(i: Item): nat {
    ITEM_SIZE + 2 * |i.name|
  }

  const FIELDS := 13

  // In the order of the assignments: add_file_internal writes the first six, its callers the rest.
  function ItemField(i: Item, k: nat): Field
    requires k < FIELDS
  {
    if k == 0 then Field(32, LittleEndian(i.dataSize, 8))
    else if k == 1 then Field(48, LittleEndian(i.attr, 4))
    else if k == 2 then Field(68, LittleEndian(|i.name|, 2))
    else if k == 3 then Field(NAME_OFF, Wide(i.name))
    else if k == 4 then Field(NAME_OFF + 2 * |i.name|, [0, 0])
    else if k == 5 then Field(0, LittleEndian(ItemSize(i), 4))
    else if k == 6 then Field(52, LittleEndian(Unsigned(i.ctime), 8))
    else if k == 7 then Field(60, LittleEndian(Unsigned(i.mtime), 8))
    else if k == 8 then Field(40, LittleEndian(i.packSize, 8))
    else if k == 9 then Field(8, LittleEndian(i.pos, 8))
    else if k == 10 then Field(24, LittleEndian(i.realsize, 8))
    else if k == 11 then Field(16, LittleEndian(i.hdrPackSize, 4))
    else Field(20, LittleEndian(i.hdrSize, 4))
  }

  function ItemFields(i: Item): (fs: seq<Field>)
    ensures |fs| == FIELDS
  {
    seq(FIELDS, k requires 0 <= k < FIELDS => ItemField(i, k))
  }

  lemma FieldNumber(i: Item, k: nat)
    requires k < FIELDS
    ensures ItemFields(i)[k] == ItemField(i, k)
  {
  }

  ghost predicate FileFields(fs: seq<Field>, i: Item) {
    && |fs| == FIELDS
    && fs[0] == Field(32, LittleEndian(i.dataSize, 8))
    && fs[1] == Field(48, LittleEndian(i.attr, 4))
    && fs[2] == Field(68, LittleEndian(|i.name|, 2))
    && fs[3] == Field(NAME_OFF, Wide(i.name))
    && fs[4] == Field(NAME_OFF + 2 * |i.name|, [0, 0])
    && fs[5] == Field(0, LittleEndian(ItemSize(i), 4))
  }

  ghost predicate InfoFields(fs: seq<Field>, i: Item) {
    && |fs| == FIELDS
    && fs[6] == Field(52, LittleEndian(Unsigned(i.ctime), 8))
    && fs[7] == Field(60, LittleEndian(Unsigned(i.mtime), 8))
    && fs[8] == Field(40, LittleEndian(i.packSize, 8))
    && fs[9] == Field(8, LittleEndian(i.pos, 8))
    && fs[10] == Field(24, LittleEndian(i.realsize, 8))
    && fs[11] == Field(16, LittleEndian(i.hdrPackSize, 4))
    && fs[12] == Field(20, LittleEndian(i.hdrSize, 4))
  }

  lemma FieldsOf(i: Item)
    ensures FileFields(ItemFields(i), i)
  {
    FieldNumber(i, 0);
    FieldNumber(i, 1);
    FieldNumber(i, 2);
    FieldNumber(i, 3);
    FieldNumber(i, 4);
    FieldNumber(i, 5);
  }

  lemma FieldsOfInfo(i: Item)
    ensures InfoFields(ItemFields(i), i)
  {
    FieldNumber(i, 6);
    FieldNumber(i, 7);
    FieldNumber(i, 8);
    FieldNumber(i, 9);
    FieldNumber(i, 10);
    FieldNumber(i, 11);
    FieldNumber(i, 12);
  }

  // The fields as a list of their own, with what is known about them.
  lemma FieldList(i: Item) returns (fs: seq<Field>)
    ensures fs == ItemFields(i) && Fits(fs, ItemSize(i)) && FileFields(fs, i) && InfoFields(fs, i)
    ensures Overlay(Zeros(ItemSize(i)), fs) == Image(i)
  {
    fs := ItemFields(i);
    ItemFieldsFit(i);
    FieldsOf(i);
    FieldsOfInfo(i);
  }

  lemma ItemFieldsFit(i: Item)
    ensures Fits(ItemFields(i), ItemSize(i))
  {
    forall f | f in ItemFields(i) ensures f.off + |f.bytes| <= ItemSize(i) {
      var k :| 0 <= k < FIELDS && ItemFields(i)[k] == f;
      FieldNumber(i, k);
      Places(i);
    }
  }

  // The record as it lies in a cleared block.
  function Image(i: Item): (s: seq<byte>)
    ensures |s| == ItemSize(i)
  {
    ItemFieldsFit(i);
    Overlay(Zeros(ItemSize(i)), ItemFields(i))
  }

  // Reading the record at the start of b.
  function ReadItem(b: seq<byte>): Item
    requires |b| >= ITEM_SIZE
  {
    var end := NAME_OFF + 2 * At(b, 68, 2);
    Item(if end <= |b| then Narrow(b[NAME_OFF..end]) else [], At(b, 32, 8), At(b, 48, 4),
         Wrapped(At(b, 52, 8)), Wrapped(At(b, 60, 8)), At(b, 40, 8),
         At(b, 8, 8), At(b, 24, 8), At(b, 16, 4), At(b, 20, 4))
  }

  // Where a field starts and ends.
  predicate Place(i: Item, k: nat, lo: nat, hi: nat)
    requires k < FIELDS
  {
    var f := ItemField(i, k);
    f.off == lo && f.off + |f.bytes| == hi
  }

  lemma Places(i: Item)
    ensures Place(i, 0, 32, 40) && Place(i, 1, 48, 52) && Place(i, 2, 68, 70) && Place(i, 3, 70, 70 + 2 * |i.name|)
    ensures Place(i, 4, 70 + 2 * |i.name|, ItemSize(i)) && Place(i, 5, 0, 4) && Place(i, 6, 52, 60)
    ensures Place(i, 7, 60, 68) && Place(i, 8, 40, 48) && Place(i, 9, 8, 16) && Place(i, 10, 24, 32)
    ensures Place(i, 11, 16, 20) && Place(i, 12, 20, 24)
  {
  }

  lemma ItemFieldsApart(i: Item, k: nat, j: nat)
    requires k < j < FIELDS
    ensures Apart(ItemFields(i)[k], ItemFields(i)[j])
  {
    FieldNumber(i, k);
    FieldNumber(i, j);
    Places(i);
  }

  // Every field is found again.
  lemma FieldBack(i: Item, k: nat, f: Field)
    requires k < FIELDS && f == ItemField(i, k)
    ensures f.off + |f.bytes| <= ItemSize(i) && Image(i)[f.off..f.off + |f.bytes|] == f.bytes
  {
    ItemFieldsFit(i);
    FieldNumber(i, k);
    forall j | k < j < FIELDS ensures Apart(f, ItemFields(i)[j]) {
      ItemFieldsApart(i, k, j);
    }
    KeptIn(Zeros(ItemSize(i)), ItemFields(i), k, f);
  }

  lemma KeptIn(b: seq<byte>, fs: seq<Field>, k: nat, f: Field)
    requires Fits(fs, |b|) && k < |fs| && f == fs[k] && forall j | k < j < |fs| :: Apart(f, fs[j])
    ensures f.off + |f.bytes| <= |b| && Overlay(b, fs)[f.off..f.off + |f.bytes|] == f.bytes
  {
    assert f in fs;
    OverlayField(b, fs, k);
  }

  lemma NumberBack(i: Item, k: nat, off: nat, v: nat, n: nat)
    requires k < FIELDS && ItemField(i, k) == Field(off, LittleEndian(v, n)) && v < Pow(256, n)
    ensures off + n <= ItemSize(i) && At(Image(i), off, n) == v
  {
    FieldBack(i, k, Field(off, LittleEndian(v, n)));
    ValueBack(v, n);
  }

  // A record is read back, and its first field is its size.
  lemma ItemBack(i: Item)
    requires ItemOk(i)
    ensures ReadItem(Image(i)) == i && At(Image(i), 0, 4) == ItemSize(i)
  {
    FieldWidths();
    SizesBack(i);
    PaxBack(i);
    FieldBack(i, 3, Field(NAME_OFF, Wide(i.name)));
    NarrowBack(i.name);
  }

  lemma SizesBack(i: Item)
    requires ItemOk(i)
    ensures At(Image(i), 32, 8) == i.dataSize && At(Image(i), 48, 4) == i.attr && At(Image(i), 68, 2) == |i.name|
    ensures At(Image(i), 0, 4) == ItemSize(i) && Wrapped(At(Image(i), 52, 8)) == i.ctime
    ensures Wrapped(At(Image(i), 60, 8)) == i.mtime
  {
    FieldWidths();
    NumberBack(i, 0, 32, i.dataSize, 8);
    NumberBack(i, 1, 48, i.attr, 4);
    NumberBack(i, 2, 68, |i.name|, 2);
    NumberBack(i, 5, 0, ItemSize(i), 4);
    SignedBack(i.ctime);
    NumberBack(i, 6, 52, Unsigned(i.ctime), 8);
    SignedBack(i.mtime);
    NumberBack(i, 7, 60, Unsigned(i.mtime), 8);
  }

  lemma PaxBack(i: Item)
    requires ItemOk(i)
    ensures At(Image(i), 40, 8) == i.packSize && At(Image(i), 8, 8) == i.pos && At(Image(i), 24, 8) == i.realsize
    ensures At(Image(i), 16, 4) == i.hdrPackSize && At(Image(i), 20, 4) == i.hdrSize
  {
    FieldWidths();
    NumberBack(i, 8, 40, i.packSize, 8);
    NumberBack(i, 9, 8, i.pos, 8);
    NumberBack(i, 10, 24, i.realsize, 8);
    NumberBack(i, 11, 16, i.hdrPackSize, 4);
    NumberBack(i, 12, 20, i.hdrSize, 4);
  }
}
