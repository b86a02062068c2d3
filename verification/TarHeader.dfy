/**
 The ustar header block (IEEE Std 1003.1-2001, pax utility, section "ustar Interchange Format"):
 its layout, the writer of its fields, the checksum, and the header check.
 */
module TarHeader {
  import opened Bytes
  import opened Numerals
  import opened PaxTime
  import opened PaxRecord
  import opened Fields

  const NAME_SIZE := 100
  // The name of an 'x' block can run over the fields behind it, up to here; they are written later.
  const NAME_ROOM := 200
  const MODE_OFF := 100
  const SIZE_OFF := 124
  const MTIME_OFF := 136
  const CHKSUM_OFF := 148
  const TYPE_OFF := 156
  const MAGIC_OFF := 257
  const OLD_SIZE_LIMIT := 8_589_934_591 // 077777777777

  const MAGIC: seq<byte> := [117, 115, 116, 97, 114, 0, 48, 48] // "ustar", NUL, "00"

  const NORMAL: byte := 48    // '0'
  const DIRECTORY: byte := 53 // '5'
  const XHDTYPE: byte := 120  // 'x'
  const XGLTYPE: byte := 103  // 'g'
  const LONGLINK: byte := 75  // 'K'
  const LONGNAME: byte := 76  // 'L'

  // ----------------------------------------------------------------------------------- the fields

  function NameField(name: seq<byte>): (f: seq<byte>)
    ensures |f| <= NAME_SIZE
  {
    if |name| >= NAME_SIZE then name[..NAME_SIZE - 1] + [0] else name + [0]
  }

  function OctalField(v: nat, n: nat): (f: seq<byte>)
    requires n > 0
    ensures |f| == n
  {
    Octal(v, n - 1) + [0]
  }

  // 0644 and 0755, without the three write bits 0222 for read-only files.
  function Mode(isType: byte, readonly: bool): nat {
    if isType == XHDTYPE then 420
    else if isType == DIRECTORY then (if readonly then 365 else 493)
    else (if readonly then 292 else 420)
  }

  function FiletimeToEpoch(t: int): nat {
    if t <= EPOCH then 0 else (t - EPOCH) / TICK
  }

  function MtimeField(t: int): nat {
    if t == INT64_MAX then 0 else FiletimeToEpoch(t)
  }

  // set_tar_name (except for 'x' headers) and set_tar, in the order of their writes, and the blanks
  // that set_tar_chksum puts into the checksum field first.
  function UstarField(name: seq<byte>, kind: byte, size: nat, readonly: bool, mtime: int, k: nat): Field {
    if k == 0 then Field(0, name)
    else if k == 1 then Field(MODE_OFF, OctalField(Mode(kind, readonly), 8))
    else if k == 2 then Field(108, Fill(7, 48) + [0])
    else if k == 3 then Field(116, Fill(7, 48) + [0])
    else if k == 4 then Field(SIZE_OFF, OctalField(if size > OLD_SIZE_LIMIT then OLD_SIZE_LIMIT else size, 12))
    else if k == 5 then Field(MTIME_OFF, OctalField(MtimeField(mtime), 12))
    else if k == 6 then Field(TYPE_OFF, [kind])
    else if k == 7 then Field(MAGIC_OFF, MAGIC)
    else if k == 8 then Field(329, Fill(7, 48) + [0])
    else if k == 9 then Field(337, Fill(7, 48) + [0])
    else Field(CHKSUM_OFF, Fill(8, 32))
  }

  function UstarFields(name: seq<byte>, kind: byte, size: nat, readonly: bool, mtime: int): (fs: seq<Field>)
    ensures |fs| == 11
  {
    seq(11, k requires 0 <= k < 11 => UstarField(name, kind, size, readonly, mtime, k))
  }

  function Sum(b: seq<byte>): nat {
    if b == [] then 0 else Sum(b[..|b| - 1]) + b[|b| - 1]
  }

  function Signed(b: byte): int {
    if b < 128 then b else b - 256
  }

  function SignedSum(b: seq<byte>): int {
    if b == [] then 0 else SignedSum(b[..|b| - 1]) + Signed(b[|b| - 1])
  }

  function Blanked(h: seq<byte>): (r: seq<byte>)
    requires |h| == BLOCKSIZE
    ensures |r| == BLOCKSIZE
  {
    Splice(h, CHKSUM_OFF, Fill(8, 32))
  }

  function WithChksum(h: seq<byte>): (r: seq<byte>)
    requires |h| == BLOCKSIZE
    ensures |r| == BLOCKSIZE
  {
    Splice(Blanked(h), CHKSUM_OFF, OctalField(Sum(Blanked(h)), 8))
  }

  function Ustar(name: seq<byte>, kind: byte, size: nat, readonly: bool, mtime: int): (h: seq<byte>)
    requires |name| <= NAME_ROOM
    ensures |h| == BLOCKSIZE
  {
    WithChksum(Overlay(Zeros(BLOCKSIZE), UstarFields(name, kind, size, readonly, mtime)))
  }

  // --------------------------------------------------------------------------------- the checksum

  lemma {:induction false} SumAppend(a: seq<byte>, b: seq<byte>)
    ensures Sum(a + b) == Sum(a) + Sum(b) && SignedSum(a + b) == SignedSum(a) + SignedSum(b)
  {
    if b == [] {
      assert a + b == a;
    } else {
      assert (a + b)[..|a + b| - 1] == a + b[..|b| - 1];
      SumAppend(a, b[..|b| - 1]);
    }
  }

  lemma {:induction false} SumBounds(b: seq<byte>)
    ensures 0 <= Sum(b) <= 255 * |b| && -128 * |b| <= SignedSum(b) <= Sum(b)
    ensures exists n: nat :: SignedSum(b) == Sum(b) - 256 * n
  {
    if b != [] {
      SumBounds(b[..|b| - 1]);
      var n: nat :| SignedSum(b[..|b| - 1]) == Sum(b[..|b| - 1]) - 256 * n;
      var x := b[|b| - 1];
      assert SignedSum(b) == Sum(b) - 256 * (if x < 128 then n else n + 1);
    } else {
      assert SignedSum(b) == Sum(b) - 256 * 0;
    }
  }

  lemma SumParts(h: seq<byte>, off: nat, n: nat)
    requires off + n <= |h|
    ensures Sum(h) == Sum(h[..off]) + Sum(h[off..off + n]) + Sum(h[off + n..])
    ensures SignedSum(h) == SignedSum(h[..off]) + SignedSum(h[off..off + n]) + SignedSum(h[off + n..])
  {
    var a, b, c := h[..off], h[off..off + n], h[off + n..];
    SumAppend(a, b + c);
    SumAppend(b, c);
    ThreeParts(h, off, n);
  }

  lemma ThreeParts(h: seq<byte>, off: nat, n: nat)
    requires off + n <= |h|
    ensures h == h[..off] + (h[off..off + n] + h[off + n..])
  {
  }

  // to_octal and the NUL behind it.
  method OctalAt(buf: array<byte>, at: nat, v: nat, n: nat)
    requires n > 1 && at + n <= buf.Length
    modifies buf
    ensures buf[..] == Splice(old(buf[..]), at, OctalField(v, n))
  {
    ghost var b := buf[..];
    ToOctal(v, buf, at, n - 1);
    ghost var c := buf[..];
    buf[at + n - 1] := 0;
    assert buf[..] == c[at + n - 1 := 0];
    EndWithNul(b[..at], Octal(v, n - 1), b[at + n - 1..]);
  }

  lemma EndWithNul(x: seq<byte>, y: seq<byte>, z: seq<byte>)
    requires z != []
    ensures (x + y + z)[|x| + |y| := 0] == x + (y + [0]) + z[1..]
  {
  }

  method SumBytes(buf: array<byte>, off: nat) returns (sum: nat)
    requires off + BLOCKSIZE <= buf.Length
    ensures sum == Sum(buf[off..off + BLOCKSIZE])
  {
    ghost var c := buf[off..off + BLOCKSIZE];
    sum := 0;
    var i := 0;
    while i < BLOCKSIZE
      invariant 0 <= i <= BLOCKSIZE && sum == Sum(c[..i])
    {
      assert c[..i + 1][..i] == c[..i];
      sum := sum + buf[off + i];
      i := i + 1;
    }
    assert c[..i] == c;
  }

  // set_tar_chksum.
  method SetTarChksum(buf: array<byte>, off: nat)
    requires off + BLOCKSIZE <= buf.Length
    modifies buf
    ensures buf[..] == Splice(old(buf[..]), off, WithChksum(old(buf[off..off + BLOCKSIZE])))
  {
    ghost var b, h := buf[..], buf[off..off + BLOCKSIZE];
    forall i | 0 <= i < 8 {
      buf[off + CHKSUM_OFF + i] := 32;
    }
    assert buf[..] == Splice(b, off + CHKSUM_OFF, Fill(8, 32));
    SpliceInside(b, off, BLOCKSIZE, CHKSUM_OFF, Fill(8, 32));
    ghost var d := buf[..];
    var sum := SumBytes(buf, off);
    OctalAt(buf, off + CHKSUM_OFF, sum, 8);
    ghost var field := OctalField(sum, 8);
    SpliceInside(d, off, BLOCKSIZE, CHKSUM_OFF, field);
    WholeBlock(b, buf[..], off);
  }

  lemma WholeBlock(b: seq<byte>, b': seq<byte>, off: nat)
    requires off + BLOCKSIZE <= |b| == |b'|
    requires b'[..off] == b[..off] && b'[off + BLOCKSIZE..] == b[off + BLOCKSIZE..]
    ensures b' == Splice(b, off, b'[off..off + BLOCKSIZE])
  {
  }

  // check_tar_cksum on a whole block: 1 is success, 0 a zero block.
  function CheckTarCksum(h: seq<byte>): int
    requires |h| == BLOCKSIZE
  {
    if !IsOctal(h[CHKSUM_OFF]) then -4
    else if Sum(h) == 0 then 0
    else
      var cksum := DecodeOctal(h[CHKSUM_OFF..CHKSUM_OFF + 8]);
      if cksum == Sum(Blanked(h)) || cksum == CastUint32(SignedSum(Blanked(h))) then 1 else -1
  }

  lemma BlankedSums(h: seq<byte>)
    requires |h| == BLOCKSIZE
    ensures var f := h[CHKSUM_OFF..CHKSUM_OFF + 8];
            && Sum(Blanked(h)) == Sum(h) - Sum(f) + 32 * 8
            && SignedSum(Blanked(h)) == SignedSum(h) - SignedSum(f) + 32 * 8
  {
    SumParts(h, CHKSUM_OFF, 8);
    SumParts(Blanked(h), CHKSUM_OFF, 8);
    BlankSum(8);
  }

  lemma {:induction false} BlankSum(n: nat)
    ensures Sum(Fill(n, 32)) == 32 * n && SignedSum(Fill(n, 32)) == 32 * n
  {
    if n > 0 {
      assert Fill(n, 32)[..n - 1] == Fill(n - 1, 32);
      BlankSum(n - 1);
    }
  }

  method ReadTarCksum(h: seq<byte>) returns (hr: int)
    requires |h| == BLOCKSIZE
    ensures hr == CheckTarCksum(h)
  {
    if !IsOctal(h[CHKSUM_OFF]) {
      return -4;
    }
    var usum: int, ssum: int, i := 0, 0, 0;
    while i < BLOCKSIZE
      invariant 0 <= i <= BLOCKSIZE && usum == Sum(h[..i]) && ssum == SignedSum(h[..i])
    {
      assert h[..i + 1][..i] == h[..i];
      usum := usum + h[i];
      ssum := ssum + Signed(h[i]);
      i := i + 1;
    }
    assert h[..i] == h;
    if usum == 0 {
      return 0;
    }
    ghost var f := h[CHKSUM_OFF..CHKSUM_OFF + 8];
    i := 0;
    while i < 8
      invariant 0 <= i <= 8
      invariant usum == Sum(h) - Sum(f[..i]) && ssum == SignedSum(h) - SignedSum(f[..i])
    {
      assert f[..i + 1][..i] == f[..i];
      usum := usum - h[CHKSUM_OFF + i];
      ssum := ssum - Signed(h[CHKSUM_OFF + i]);
      i := i + 1;
    }
    assert f[..i] == f;
    BlankedSums(h);
    usum := usum + 32 * 8;
    ssum := ssum + 32 * 8;
    var cksum := DecodeOctalField(h[CHKSUM_OFF..CHKSUM_OFF + 8]);
    hr := if cksum == usum || cksum == CastUint32(ssum) then 1 else -1;
  }

  lemma ChksumField(h: seq<byte>)
    requires |h| == BLOCKSIZE
    ensures var r := WithChksum(h);
            && Blanked(r) == Blanked(h)
            && IsOctal(r[CHKSUM_OFF])
            && DecodeOctal(r[CHKSUM_OFF..CHKSUM_OFF + 8]) == Sum(Blanked(h))
            && r[..CHKSUM_OFF] == h[..CHKSUM_OFF] && r[CHKSUM_OFF + 8..] == h[CHKSUM_OFF + 8..]
  {
    var r, v := WithChksum(h), Sum(Blanked(h));
    assert r[CHKSUM_OFF..CHKSUM_OFF + 8] == Octal(v, 7) + [0];
    assert r[CHKSUM_OFF] == r[CHKSUM_OFF..CHKSUM_OFF + 8][0];
    SumBounds(Blanked(h));
    assert Pow(8, 7) == 2097152;
    OctalRoundTrip(v, 7, [0]);
    assert Blanked(r) == Blanked(h);
  }

  // Every finished header is accepted.
  lemma ChecksumAccepts(h: seq<byte>)
    requires |h| == BLOCKSIZE
    ensures CheckTarCksum(WithChksum(h)) == 1
  {
    var r := WithChksum(h);
    ChksumField(h);
    SumParts(r, CHKSUM_OFF, 1);
    var one := r[CHKSUM_OFF..CHKSUM_OFF + 1];
    assert Sum(one) == one[0] by {
      assert one[..0] == [];
    }
  }

  lemma SingleChange(h: seq<byte>, i: nat, b: byte)
    requires i < |h|
    ensures Sum(h[i := b]) == Sum(h) - h[i] + b
  {
    var g := h[i := b];
    SumParts(h, i, 1);
    SumParts(g, i, 1);
    assert h[..i] == g[..i] && h[i + 1..] == g[i + 1..];
    assert h[i..i + 1][..0] == [] && g[i..i + 1][..0] == [];
  }

  lemma ChangedSums(r: seq<byte>, i: nat, b: byte)
    requires |r| == BLOCKSIZE && i < BLOCKSIZE && !(CHKSUM_OFF <= i < CHKSUM_OFF + 8)
    ensures var g := r[i := b];
            && g[CHKSUM_OFF..CHKSUM_OFF + 8] == r[CHKSUM_OFF..CHKSUM_OFF + 8]
            && Sum(Blanked(g)) == Sum(Blanked(r)) - r[i] + b
  {
    var g := r[i := b];
    assert Blanked(g) == Blanked(r)[i := b];
    assert Blanked(r)[i] == r[i];
    SingleChange(Blanked(r), i, b);
  }

  // After any change of a single byte outside the checksum field the header is refused, although
  // the check also accepts sums of signed bytes.
  lemma ChecksumDetects(h: seq<byte>, i: nat, b: byte)
    requires |h| == BLOCKSIZE && i < BLOCKSIZE && !(CHKSUM_OFF <= i < CHKSUM_OFF + 8)
    requires b != WithChksum(h)[i]
    ensures CheckTarCksum(WithChksum(h)[i := b]) != 1
  {
    var r := WithChksum(h);
    ChksumField(h);
    ChangedSums(r, i, b);
    var s := Blanked(r[i := b]);
    SumBounds(s);
    var n: nat :| SignedSum(s) == Sum(s) - 256 * n;
    CastDiffers(Sum(Blanked(r)), Sum(s), n);
  }

  lemma CastDiffers(was: nat, now: nat, n: nat)
    requires was != now && was - 256 < now < was + 256
    ensures CastUint32(now - 256 * n) != was
  {
    var q := (now - 256 * n) / UINT32_LIMIT;
    assert now - 256 * n == q * UINT32_LIMIT + CastUint32(now - 256 * n);
    assert q * UINT32_LIMIT == 256 * (q * 0x100_0000);
  }
}
