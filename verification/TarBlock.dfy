/**
 Writing a ustar block into a buffer, reading its fields back, and check_tar_header.
 */
module TarBlock {
  import opened Bytes
  import opened Numerals
  import opened PaxRecord
  import opened Fields
  import opened TarHeader

  datatype Format = OldGnu | Ustar1988 | Posix | Star | Gnu

  // check_tar_header with the checksum required; None for every error code.
  function CheckTarHeader(h: seq<byte>): Option<Format>
    requires |h| == BLOCKSIZE
  {
    var posix := h[261..265] == [114, 0, 48, 48];  // "r", NUL, "00"
    var gnu := h[261..265] == [114, 32, 32, 0];    // "r  ", NUL
    if h[MAGIC_OFF..261] != MAGIC[..4] then None
    else if !posix && !gnu then None
    else if !IsOctal(h[CHKSUM_OFF]) || CheckTarCksum(h) != 1 then None
    else if posix then
      if h[TYPE_OFF] == XHDTYPE || h[TYPE_OFF] == XGLTYPE then Some(Posix)
      else if h[475] == 0 && IsOctal(h[476]) && h[487] == 32 && IsOctal(h[488]) && h[499] == 32 then Some(Star)
      else Some(Ustar1988)
    else if h[MODE_OFF..MODE_OFF + 3] == [48, 48, 48] then Some(Gnu)
    else Some(OldGnu)
  }

  // --------------------------------------------------------------------------------- the writer

  method PutOctal(buf: array<byte>, off: nat, o: nat, v: nat, n: nat, ghost b0: seq<byte>, ghost fs: seq<Field>,
                  ghost k: nat)
    requires n > 1 && Written(b0, buf[..], off, BLOCKSIZE, fs, k) && k < |fs| && fs[k] == Field(o, OctalField(v, n))
    modifies buf
    ensures Written(b0, buf[..], off, BLOCKSIZE, fs, k + 1)
  {
    hide Overlay;
    assert fs[k] in fs;
    WrittenMore(b0, buf[..], off, BLOCKSIZE, fs, k);
    OctalAt(buf, off + o, v, n);
  }

  lemma FieldsFit(name: seq<byte>, kind: byte, size: nat, readonly: bool, mtime: int)
    requires |name| <= NAME_ROOM
    ensures Fits(UstarFields(name, kind, size, readonly, mtime), BLOCKSIZE)
  {
  }

  ghost predicate SetTarFields(fs: seq<Field>, kind: byte, size: nat, readonly: bool, mtime: int) {
    && NumberFields(fs, kind, size, readonly, mtime)
    && OtherFields(fs, kind)
  }

  ghost predicate NumberFields(fs: seq<Field>, kind: byte, size: nat, readonly: bool, mtime: int) {
    && |fs| == 11
    && fs[1] == Field(MODE_OFF, OctalField(Mode(kind, readonly), 8))
    && fs[2] == Field(108, Fill(7, 48) + [0])
    && fs[3] == Field(116, Fill(7, 48) + [0])
    && fs[4] == Field(SIZE_OFF, OctalField(if size > OLD_SIZE_LIMIT then OLD_SIZE_LIMIT else size, 12))
    && fs[5] == Field(MTIME_OFF, OctalField(MtimeField(mtime), 12))
  }

  ghost predicate OtherFields(fs: seq<Field>, kind: byte) {
    && |fs| == 11
    && fs[6] == Field(TYPE_OFF, [kind])
    && fs[7] == Field(MAGIC_OFF, MAGIC)
    && fs[8] == Field(329, Fill(7, 48) + [0])
    && fs[9] == Field(337, Fill(7, 48) + [0])
  }

  // set_tar.
  method SetTar(buf: array<byte>, off: nat, kind: byte, size: nat, readonly: bool, mtime: int,
                ghost b0: seq<byte>, ghost fs: seq<Field>)
    requires SetTarFields(fs, kind, size, readonly, mtime)
    requires Written(b0, buf[..], off, BLOCKSIZE, fs, 1)
    modifies buf
    ensures Written(b0, buf[..], off, BLOCKSIZE, fs, 10)
  {
    PutOctal(buf, off, MODE_OFF, Mode(kind, readonly), 8, b0, fs, 1);
    PutField(buf, off, BLOCKSIZE, 108, Fill(7, 48) + [0], b0, fs, 2);
    PutField(buf, off, BLOCKSIZE, 116, Fill(7, 48) + [0], b0, fs, 3);
    if size > OLD_SIZE_LIMIT {
      PutOctal(buf, off, SIZE_OFF, OLD_SIZE_LIMIT, 12, b0, fs, 4);
    } else {
      PutOctal(buf, off, SIZE_OFF, size, 12, b0, fs, 4);
    }
    PutOctal(buf, off, MTIME_OFF, MtimeField(mtime), 12, b0, fs, 5);
    PutField(buf, off, BLOCKSIZE, TYPE_OFF, [kind], b0, fs, 6);
    PutField(buf, off, BLOCKSIZE, MAGIC_OFF, MAGIC, b0, fs, 7);
    PutField(buf, off, BLOCKSIZE, 329, Fill(7, 48) + [0], b0, fs, 8);
    PutField(buf, off, BLOCKSIZE, 337, Fill(7, 48) + [0], b0, fs, 9);
  }

  method CopyFields(buf: array<byte>, off: nat, name: seq<byte>, kind: byte, size: nat, readonly: bool, mtime: int,
                    ghost b0: seq<byte>, ghost fs: seq<Field>)
    requires SetTarFields(fs, kind, size, readonly, mtime)
    requires fs[0] == Field(0, name) && fs[10] == Field(CHKSUM_OFF, Fill(8, 32))
    requires Written(b0, buf[..], off, BLOCKSIZE, fs, 0)
    modifies buf
    ensures Written(b0, buf[..], off, BLOCKSIZE, fs, 11)
  {
    hide Overlay, Fits;
    PutField(buf, off, BLOCKSIZE, 0, name, b0, fs, 0);
    SetTar(buf, off, kind, size, readonly, mtime, b0, fs);
    PutField(buf, off, BLOCKSIZE, CHKSUM_OFF, Fill(8, 32), b0, fs, 10);
  }

  // set_tar_name, set_tar and set_tar_chksum on a cleared block.
  method WriteUstar(buf: array<byte>, off: nat, name: seq<byte>, kind: byte, size: nat, readonly: bool, mtime: int)
    requires off + BLOCKSIZE <= buf.Length && |name| <= NAME_ROOM
    requires buf[off..off + BLOCKSIZE] == Zeros(BLOCKSIZE)
    modifies buf
    ensures buf[..] == Splice(old(buf[..]), off, Ustar(name, kind, size, readonly, mtime))
  {
    ghost var b0 := buf[..];
    ghost var fs := FieldList(b0, off, name, kind, size, readonly, mtime);
    CopyFields(buf, off, name, kind, size, readonly, mtime, b0, fs);
    FinishUstar(b0, buf[..], off, fs, name, kind, size, readonly, mtime);
    SetTarChksum(buf, off);
  }

  lemma FieldList(b0: seq<byte>, off: nat, name: seq<byte>, kind: byte, size: nat, readonly: bool, mtime: int)
    returns (fs: seq<Field>)
    requires off + BLOCKSIZE <= |b0| && |name| <= NAME_ROOM
    ensures fs == UstarFields(name, kind, size, readonly, mtime)
    ensures SetTarFields(fs, kind, size, readonly, mtime)
    ensures fs[0] == Field(0, name) && fs[10] == Field(CHKSUM_OFF, Fill(8, 32))
    ensures Written(b0, b0, off, BLOCKSIZE, fs, 0)
  {
    fs := UstarFields(name, kind, size, readonly, mtime);
    FieldsFit(name, kind, size, readonly, mtime);
    NothingWritten(b0, off, BLOCKSIZE, fs);
    FieldListStart(name, kind, size, readonly, mtime);
    FieldListRest(name, kind, size, readonly, mtime);
  }

  lemma FieldListStart(name: seq<byte>, kind: byte, size: nat, readonly: bool, mtime: int)
    ensures NumberFields(UstarFields(name, kind, size, readonly, mtime), kind, size, readonly, mtime)
  {
  }

  lemma FieldListRest(name: seq<byte>, kind: byte, size: nat, readonly: bool, mtime: int)
    ensures OtherFields(UstarFields(name, kind, size, readonly, mtime), kind)
  {
  }

  lemma FinishUstar(b0: seq<byte>, b: seq<byte>, off: nat, fs: seq<Field>,
                    name: seq<byte>, kind: byte, size: nat, readonly: bool, mtime: int)
    requires |name| <= NAME_ROOM && |b0| == |b| && off + BLOCKSIZE <= |b|
    requires b0[off..off + BLOCKSIZE] == Zeros(BLOCKSIZE)
    requires fs == UstarFields(name, kind, size, readonly, mtime) && Written(b0, b, off, BLOCKSIZE, fs, 11)
    ensures var u := Ustar(name, kind, size, readonly, mtime);
            WithChksum(b[off..off + BLOCKSIZE]) == u && Splice(b, off, u) == Splice(b0, off, u)
  {
    assert fs[11..] == [];
  }

  // ------------------------------------------------------------------------------- reading back

  // A field that no later field and not the checksum touches is found in the finished block.
  lemma KeptField(fs: seq<Field>, k: nat)
    requires Fits(fs, BLOCKSIZE) && k < |fs| && forall j | k < j < |fs| :: Apart(fs[k], fs[j])
    requires fs[k].off + |fs[k].bytes| <= CHKSUM_OFF || CHKSUM_OFF + 8 <= fs[k].off
    ensures fs[k].off + |fs[k].bytes| <= BLOCKSIZE
    ensures WithChksum(Overlay(Zeros(BLOCKSIZE), fs))[fs[k].off..fs[k].off + |fs[k].bytes|] == fs[k].bytes
  {
    assert fs[k] in fs;
    var b := Overlay(Zeros(BLOCKSIZE), fs);
    OverlayField(Zeros(BLOCKSIZE), fs, k);
    ChksumField(b);
    var r, i, j := WithChksum(b), fs[k].off, fs[k].off + |fs[k].bytes|;
    if j <= CHKSUM_OFF {
      SliceOfTake(r, CHKSUM_OFF, i, j);
      SliceOfTake(b, CHKSUM_OFF, i, j);
    } else {
      SliceOfDrop(r, CHKSUM_OFF + 8, i, j);
      SliceOfDrop(b, CHKSUM_OFF + 8, i, j);
    }
  }

  // The field number k of a finished header holds what was written.
  lemma FieldKept(name: seq<byte>, kind: byte, size: nat, readonly: bool, mtime: int,
                  k: nat, f: Field)
    requires |name| <= (if k == 0 then NAME_SIZE else NAME_ROOM) && k < 10
    requires f == UstarFields(name, kind, size, readonly, mtime)[k]
    ensures && f.off + |f.bytes| <= BLOCKSIZE
            && Ustar(name, kind, size, readonly, mtime)[f.off..f.off + |f.bytes|] == f.bytes
  {
    var fs := UstarFields(name, kind, size, readonly, mtime);
    FieldsFit(name, kind, size, readonly, mtime);
    forall j | k < j < |fs| ensures Apart(fs[k], fs[j]) {
    }
    KeptField(fs, k);
  }

  // A byte that no field covers stays zero.
  lemma StaysZero(name: seq<byte>, kind: byte, size: nat, readonly: bool, mtime: int, i: nat)
    requires |name| <= NAME_ROOM && (|name| <= i < NAME_SIZE || 345 <= i < BLOCKSIZE)
    ensures Ustar(name, kind, size, readonly, mtime)[i] == 0
  {
    var fs := UstarFields(name, kind, size, readonly, mtime);
    FieldsFit(name, kind, size, readonly, mtime);
    OverlayKeeps(Zeros(BLOCKSIZE), fs, i);
    var b := Overlay(Zeros(BLOCKSIZE), fs);
    ChksumField(b);
    var r := WithChksum(b);
    if i < CHKSUM_OFF {
      assert r[i] == r[..CHKSUM_OFF][i] && b[i] == b[..CHKSUM_OFF][i];
    } else {
      assert r[i] == r[CHKSUM_OFF + 8..][i - CHKSUM_OFF - 8] && b[i] == b[CHKSUM_OFF + 8..][i - CHKSUM_OFF - 8];
    }
  }

  lemma OctalFieldValue(v: nat, n: nat)
    requires n > 0
    ensures DecodeOctal(OctalField(v, n)) == v % Pow(8, n - 1)
  {
    OctalRoundTrip(v, n - 1, [0]);
  }

  lemma UstarMode(name: seq<byte>, kind: byte, size: nat, readonly: bool, mtime: int)
    requires |name| <= NAME_ROOM
    ensures var h := Ustar(name, kind, size, readonly, mtime);
            DecodeOctal(h[MODE_OFF..MODE_OFF + 8]) == Mode(kind, readonly) && h[TYPE_OFF] == kind
  {
    var h := Ustar(name, kind, size, readonly, mtime);
    FieldKept(name, kind, size, readonly, mtime, 1, Field(MODE_OFF, OctalField(Mode(kind, readonly), 8)));
    FieldKept(name, kind, size, readonly, mtime, 6, Field(TYPE_OFF, [kind]));
    assert h[TYPE_OFF] == h[TYPE_OFF..TYPE_OFF + 1][0];
    OctalFieldValue(Mode(kind, readonly), 8);
    assert Pow(8, 7) == 2097152;
  }

  lemma UstarSize(name: seq<byte>, kind: byte, size: nat, readonly: bool, mtime: int)
    requires |name| <= NAME_ROOM
    ensures DecodeOctal(Ustar(name, kind, size, readonly, mtime)[SIZE_OFF..SIZE_OFF + 12])
            == if size > OLD_SIZE_LIMIT then OLD_SIZE_LIMIT else size
  {
    var v := if size > OLD_SIZE_LIMIT then OLD_SIZE_LIMIT else size;
    FieldKept(name, kind, size, readonly, mtime, 4, Field(SIZE_OFF, OctalField(v, 12)));
    OctalFieldValue(v, 12);
    assert Pow(8, 11) == OLD_SIZE_LIMIT + 1;
    ModUnique(v, OLD_SIZE_LIMIT + 1, 0, v);
  }

  lemma UstarMtime(name: seq<byte>, kind: byte, size: nat, readonly: bool, mtime: int)
    requires |name| <= NAME_ROOM
    ensures DecodeOctal(Ustar(name, kind, size, readonly, mtime)[MTIME_OFF..MTIME_OFF + 12])
            == MtimeField(mtime) % (OLD_SIZE_LIMIT + 1)
  {
    FieldKept(name, kind, size, readonly, mtime, 5, Field(MTIME_OFF, OctalField(MtimeField(mtime), 12)));
    OctalFieldValue(MtimeField(mtime), 12);
    assert Pow(8, 11) == OLD_SIZE_LIMIT + 1;
  }

  lemma MagicBytes(h: seq<byte>)
    requires |h| == BLOCKSIZE && h[MAGIC_OFF..MAGIC_OFF + 8] == MAGIC
    ensures h[MAGIC_OFF..261] == MAGIC[..4] && h[261..265] == [114, 0, 48, 48]
  {
    var m := h[MAGIC_OFF..MAGIC_OFF + 8];
    assert h[MAGIC_OFF..261] == m[..4];
    assert h[261..265] == m[4..8];
  }

  // Every written header passes the check, 'x' headers as pax headers and the others as ustar.
  lemma UstarChecks(name: seq<byte>, kind: byte, size: nat, readonly: bool, mtime: int)
    requires |name| <= NAME_ROOM
    ensures CheckTarHeader(Ustar(name, kind, size, readonly, mtime))
            == Some(if kind == XHDTYPE || kind == XGLTYPE then Posix else Ustar1988)
  {
    var h := Ustar(name, kind, size, readonly, mtime);
    UstarMode(name, kind, size, readonly, mtime);
    FieldKept(name, kind, size, readonly, mtime, 7, Field(MAGIC_OFF, MAGIC));
    MagicBytes(h);
    FieldsFit(name, kind, size, readonly, mtime);
    var b := Overlay(Zeros(BLOCKSIZE), UstarFields(name, kind, size, readonly, mtime));
    ChksumField(b);
    ChecksumAccepts(b);
    StaysZero(name, kind, size, readonly, mtime, 487);
  }
}
