/**
 The layout of a header block, byte by byte (IEEE Std 1003.1-2001, pax utility, section "ustar Interchange Format"),
 which blocks the check accepts, and what the reader finds in any of them.
 */
module TarExact {
  import opened Bytes
  import opened Numerals
  import opened Fields
  import opened TarHeader
  import opened TarBlock
  import opened PaxDecoder

  // ------------------------------------------------------------------------------------ octal digits

  predicate OctalDigits(s: seq<byte>) {
    forall i | 0 <= i < |s| :: 48 <= s[i] <= 55
  }

  // The number with these octal digits.
  function OctalNumber(s: seq<byte>): nat
    requires OctalDigits(s)
  {
    if s == [] then 0 else 8 * OctalNumber(s[..|s| - 1]) + (s[|s| - 1] - 48)
  }

  lemma {:induction false} OctalPrefix(s: seq<byte>, t: seq<byte>)
    requires OctalDigits(s)
    ensures OctalValue(0, s + t) == OctalValue(OctalNumber(s), t)
    decreases |s|
  {
    if s == [] {
      assert s + t == t;
    } else {
      var rest, c := s[..|s| - 1], s[|s| - 1];
      assert s + t == rest + ([c] + t) && ([c] + t)[1..] == t;
      OctalPrefix(rest, [c] + t);
    }
  }

  // The reader takes the octal digits in front of the first other byte.
  lemma OctalExactly(s: seq<byte>, t: seq<byte>)
    requires OctalDigits(s) && (t == [] || !(48 <= t[0] <= 55))
    ensures DecodeOctal(s + t) == OctalNumber(s)
  {
    OctalPrefix(s, t);
  }

  // A field of n bytes with a NUL at its end and this number in front of it.
  ghost predicate OctalText(f: seq<byte>, n: nat, v: nat) {
    |f| == n > 0 && f[n - 1] == 0 && OctalDigits(f[..n - 1]) && OctalNumber(f[..n - 1]) == v
  }

  lemma OctalFieldText(v: nat, n: nat)
    requires n > 0
    ensures OctalText(OctalField(v, n), n, v % Pow(8, n - 1))
  {
    var f := OctalField(v, n);
    assert f[..n - 1] == Octal(v, n - 1) && f == Octal(v, n - 1) + [0];
    OctalFieldValue(v, n);
    OctalExactly(Octal(v, n - 1), [0]);
  }

  // ------------------------------------------------------------------------------- a written block

  // 0644, for directories 0755, without the bits 0222 for a read-only file.
  function ModeText(kind: byte, readonly: bool): (t: string)
    ensures |t| == 7 && forall i | 0 <= i < |t| :: t[i] as int < 128
  {
    if kind == 120 then "0000644"
    else if kind == 53 then (if readonly then "0000555" else "0000755")
    else (if readonly then "0000444" else "0000644")
  }

  lemma ThreeDigits(u: nat, g: nat, o: nat)
    requires u < 8 && g < 8 && o < 8
    ensures Octal(64 * u + 8 * g + o, 7) == [48, 48, 48, 48, 48 + u, 48 + g, 48 + o]
  {
    var v := 64 * u + 8 * g + o;
    ModUnique(v, 8, 8 * u + g, o);
    ModUnique(8 * u + g, 8, u, g);
    assert Octal(0, 4) == [48, 48, 48, 48];
    assert Octal(u, 5) == [48, 48, 48, 48, 48 + u];
    assert Octal(8 * u + g, 6) == [48, 48, 48, 48, 48 + u, 48 + g];
  }

  lemma ModeDigits(kind: byte, readonly: bool)
    ensures Octal(Mode(kind, readonly), 7) == Text(ModeText(kind, readonly))
  {
    hide Octal;
    ThreeDigits(6, 4, 4);
    ThreeDigits(4, 4, 4);
    ThreeDigits(7, 5, 5);
    ThreeDigits(5, 5, 5);
    assert Text(ModeText(kind, readonly))[0..4] == [48, 48, 48, 48];
  }

  // Whole seconds since 1970, zero for earlier times and for no time.
  function Seconds(mtime: int): nat {
    if mtime <= 116444736000000000 || mtime == 9223372036854775807 then 0
    else (mtime - 116444736000000000) / 10000000
  }

  predicate InGap(i: nat) {
    i < 100 || 157 <= i < 257 || 265 <= i < 329 || 345 <= i < 512
  }

  lemma GapUncovered(name: seq<byte>, kind: byte, size: nat, readonly: bool, mtime: int, i: nat, f: Field)
    requires InGap(i) && f in UstarFields(name, kind, size, readonly, mtime)[1..]
    ensures i < 512 && !(148 <= i < 156) && !Covers(f, i)
  {
    var fs := UstarFields(name, kind, size, readonly, mtime);
    var k :| 1 <= k < 11 && fs[k] == f;
    assert f == UstarField(name, kind, size, readonly, mtime, k);
  }

  // Between the fields there is what is left of the name, and zeros.
  lemma BlockGaps(name: seq<byte>, kind: byte, size: nat, readonly: bool, mtime: int, i: nat)
    requires |name| <= 200 && InGap(i)
    ensures Ustar(name, kind, size, readonly, mtime)[i] == if i < |name| then name[i] else 0
  {
    hide InGap;
    var fs := UstarFields(name, kind, size, readonly, mtime);
    FieldsFit(name, kind, size, readonly, mtime);
    forall f | f in fs[1..] ensures !Covers(f, i) {
      GapUncovered(name, kind, size, readonly, mtime, i, f);
    }
    GapUncovered(name, kind, size, readonly, mtime, i, fs[1]);
    var c := Splice(Zeros(512), 0, name);
    assert fs[0] == Field(0, name);
    assert c[i] == if i < |name| then name[i] else 0 by {
      if i < |name| {
        assert c[0..|name|][i] == c[i];
      } else {
        assert c[|name|..][i - |name|] == c[i] && Zeros(512)[|name|..][i - |name|] == 0;
      }
    }
    OverlayKeeps(c, fs[1..], i);
    var b := Overlay(Zeros(512), fs);
    ChksumField(b);
    var r := WithChksum(b);
    if i < 148 {
      assert r[i] == r[..148][i] && b[i] == b[..148][i];
    } else {
      assert r[i] == r[156..][i - 156] && b[i] == b[156..][i - 156];
    }
  }

  // The numbers in a block.
  ghost predicate NumbersAt(h: seq<byte>, size: nat, mtime: int)
    requires |h| == 512
  {
    && OctalText(h[124..136], 12, if size > 8589934591 then 8589934591 else size)
    && OctalText(h[136..148], 12, Seconds(mtime) % 8589934592)
    && OctalText(h[148..156], 8, Sum(h[..148]) + 8 * 32 + Sum(h[156..]))
  }

  ghost predicate TextsAt(h: seq<byte>, kind: byte, readonly: bool)
    requires |h| == 512
  {
    && h[100..108] == Text(ModeText(kind, readonly)) + [0]
    && h[108..116] == Text("0000000") + [0] && h[116..124] == Text("0000000") + [0]
    && h[156] == kind && h[257..265] == Text("ustar") + [0] + Text("00")
    && h[329..337] == Text("0000000") + [0] && h[337..345] == Text("0000000") + [0]
  }

  lemma BlockTexts(name: seq<byte>, kind: byte, size: nat, readonly: bool, mtime: int)
    requires |name| <= 200
    ensures TextsAt(Ustar(name, kind, size, readonly, mtime), kind, readonly)
  {
    hide Ustar, UstarFields, Octal;
    FieldListStart(name, kind, size, readonly, mtime);
    FieldListRest(name, kind, size, readonly, mtime);
    var fs := UstarFields(name, kind, size, readonly, mtime);
    FieldKept(name, kind, size, readonly, mtime, 1, fs[1]);
    FieldKept(name, kind, size, readonly, mtime, 2, fs[2]);
    FieldKept(name, kind, size, readonly, mtime, 3, fs[3]);
    FieldKept(name, kind, size, readonly, mtime, 7, fs[7]);
    FieldKept(name, kind, size, readonly, mtime, 8, fs[8]);
    FieldKept(name, kind, size, readonly, mtime, 9, fs[9]);
    UstarMode(name, kind, size, readonly, mtime);
    ModeDigits(kind, readonly);
    assert Fill(7, 48) == Text("0000000");
    assert [117, 115, 116, 97, 114, 0, 48, 48] == Text("ustar") + [0] + Text("00");
  }

  lemma BlockNumbers(name: seq<byte>, kind: byte, size: nat, readonly: bool, mtime: int)
    requires |name| <= 200
    ensures NumbersAt(Ustar(name, kind, size, readonly, mtime), size, mtime)
  {
    hide UstarFields, Octal, Overlay, OctalText;
    FieldListStart(name, kind, size, readonly, mtime);
    FieldsFit(name, kind, size, readonly, mtime);
    var fs := UstarFields(name, kind, size, readonly, mtime);
    FieldKept(name, kind, size, readonly, mtime, 4, fs[4]);
    FieldKept(name, kind, size, readonly, mtime, 5, fs[5]);
    var v := if size > 8589934591 then 8589934591 else size;
    assert Pow(8, 11) == 8589934592;
    OctalFieldText(v, 12);
    OctalFieldText(MtimeField(mtime), 12);
    assert MtimeField(mtime) == Seconds(mtime);
    ModUnique(v, 8589934592, 0, v);
    SumInside(Overlay(Zeros(512), fs));
  }

  lemma SumInside(b: seq<byte>)
    requires |b| == 512
    ensures var h := WithChksum(b); OctalText(h[148..156], 8, Sum(h[..148]) + 8 * 32 + Sum(h[156..]))
  {
    hide Octal, OctalText;
    var h := WithChksum(b);
    ChksumField(b);
    var c := Blanked(h);
    SumParts(c, 148, 8);
    BlankSum(8);
    assert c[..148] == h[..148] && c[156..] == h[156..] && c[148..156] == Fill(8, 32);
    SumBounds(c);
    assert Pow(8, 7) == 2097152;
    ModUnique(Sum(c), 2097152, 0, Sum(c));
    OctalFieldText(Sum(c), 8);
    assert h[148..156] == OctalField(Sum(Blanked(b)), 8);
  }

  // Every byte of a written block.  An overlong name of an 'x' block runs on behind the fields.
  lemma WrittenBlock(name: seq<byte>, kind: byte, size: nat, readonly: bool, mtime: int)
    requires |name| <= 200
    ensures var h := Ustar(name, kind, size, readonly, mtime);
            && |h| == 512 && NumbersAt(h, size, mtime) && TextsAt(h, kind, readonly)
            && forall i: nat | InGap(i) :: h[i] == if i < |name| then name[i] else 0
  {
    hide NumbersAt, TextsAt, InGap;
    BlockTexts(name, kind, size, readonly, mtime);
    BlockNumbers(name, kind, size, readonly, mtime);
    var h := Ustar(name, kind, size, readonly, mtime);
    forall i: nat | InGap(i) ensures i < 512 && h[i] == if i < |name| then name[i] else 0 {
      assert i < 512 by {
        GapUncovered(name, kind, size, readonly, mtime, i, UstarFields(name, kind, size, readonly, mtime)[1]);
      }
      BlockGaps(name, kind, size, readonly, mtime, i);
    }
  }

  // --------------------------------------------------------------------------------- any block

  // How many bytes are negative as signed numbers.
  function Negative(s: seq<byte>): nat {
    if s == [] then 0 else Negative(s[..|s| - 1]) + if s[|s| - 1] >= 128 then 1 else 0
  }

  lemma {:induction false} SignedIs(s: seq<byte>)
    ensures SignedSum(s) == Sum(s) - 256 * Negative(s)
  {
    if s != [] {
      SignedIs(s[..|s| - 1]);
    }
  }

  ghost predicate PosixMagic(h: seq<byte>)
    requires |h| == 512
  {
    h[257..265] == Text("ustar") + [0] + Text("00")
  }

  ghost predicate GnuMagic(h: seq<byte>)
    requires |h| == 512
  {
    h[257..265] == Text("ustar") + Text("  ") + [0]
  }

  // The checksum is the sum of all bytes, or of all bytes as signed numbers in 32 bits, with blanks in its place.
  ghost predicate Accepted(h: seq<byte>)
    requires |h| == 512
  {
    && (PosixMagic(h) || GnuMagic(h)) && 48 <= h[148] <= 55
    && var b := h[..148] + Text("        ") + h[156..];
    DecodeOctal(h[148..156]) == Sum(b) || DecodeOctal(h[148..156]) == (Sum(b) - 256 * Negative(b)) % 0x1_0000_0000
  }

  function FormatOf(h: seq<byte>): Format
    requires |h| == 512
  {
    if h[263] == 32 then if h[100] == h[101] == h[102] == 48 then Gnu else OldGnu
    else if h[156] == 120 || h[156] == 103 then Posix
    else if h[475] == 0 && 48 <= h[476] <= 55 && h[487] == 32 && 48 <= h[488] <= 55 && h[499] == 32 then Star
    else Ustar1988
  }

  lemma MagicBoth(h: seq<byte>)
    requires |h| == 512
    ensures h[257..261] == MAGIC[..4] && h[261..265] == [114, 0, 48, 48] <==> PosixMagic(h)
    ensures h[257..261] == MAGIC[..4] && h[261..265] == [114, 32, 32, 0] <==> GnuMagic(h)
  {
    var t := h[257..265];
    assert t == [t[0], t[1], t[2], t[3], t[4], t[5], t[6], t[7]];
    assert h[257..261] == [t[0], t[1], t[2], t[3]] && h[261..265] == [t[4], t[5], t[6], t[7]];
    assert MAGIC[..4] == [117, 115, 116, 97];
    assert Text("ustar") + [0] + Text("00") == [117, 115, 116, 97, 114, 0, 48, 48];
    assert Text("ustar") + Text("  ") + [0] == [117, 115, 116, 97, 114, 32, 32, 0];
  }

  lemma BlankedIs(h: seq<byte>)
    requires |h| == 512
    ensures Blanked(h) == h[..148] + Text("        ") + h[156..]
  {
    assert Fill(8, 32) == Text("        ");
  }

  lemma PositiveSum(h: seq<byte>, i: nat)
    requires i < |h| && h[i] > 0
    ensures Sum(h) > 0
  {
    SumParts(h, i, 1);
    assert h[i..i + 1][..0] == [];
  }

  // The check accepts exactly these blocks.
  lemma CheckedExactly(h: seq<byte>)
    requires |h| == 512
    ensures CheckTarHeader(h) == if Accepted(h) then Some(FormatOf(h)) else None
  {
    hide DecodeOctal, Sum, SignedSum, Negative;
    MagicBoth(h);
    BlankedIs(h);
    SignedIs(Blanked(h));
    if 48 <= h[148] <= 55 {
      PositiveSum(h, 148);
    }
    FormatIs(h);
  }

  lemma FormatIs(h: seq<byte>)
    requires |h| == 512
    ensures h[100..103] == [48, 48, 48] <==> h[100] == h[101] == h[102] == 48
    ensures PosixMagic(h) ==> h[263] == 48
    ensures GnuMagic(h) ==> h[263] == 32
  {
    assert h[100..103] == [h[100], h[101], h[102]];
    assert h[257..265][6] == h[263];
    assert (Text("ustar") + [0] + Text("00"))[6] == 48;
    assert (Text("ustar") + Text("  ") + [0])[6] == 32;
  }

  function Round512(size: nat): nat {
    (size + 511) / 512 * 512
  }

  // The first call of add_header, on any block.
  lemma FirstExactly(h: seq<byte>)
    requires |h| == 512
    ensures var kind, size := if h[156] == 0 then 48 else h[156], DecodeOctal(h[124..136]);
            FirstHeader(h)
            == if !Accepted(h) then None
               else if kind != 120 && kind != 75 && kind != 76 then
                 Some(Decoded(FormatOf(h), 0, 0, kind, 512, [], NO_INFO))
               else if 0 < size < 1048576 then
                 Some(Decoded(FormatOf(h), kind, size, 0, 1024 + Round512(size), [], NO_INFO))
               else None
  {
    hide CheckTarHeader, DecodeOctal, Accepted;
    CheckedExactly(h);
  }

  // The second call: the last block gives the type and, but for links, directories and FIFOs, the size.
  lemma SecondExactly(d: Decoded, b: seq<byte>)
    requires Sized(d)
    ensures SecondHeader(d, b)
            == if |b| < d.headerSize then None
               else
                 var h := b[d.headerSize - 512..d.headerSize];
                 var kind := if h[156] == 0 then 48 else h[156];
                 if !Accepted(h) then None
                 else if kind == 49 || kind == 50 || kind == 53 || kind == 54 then Some(d.(kind := kind))
                 else Some(d.(kind := kind, info := d.info.(size := DecodeOctal(h[124..136]))))
  {
    hide CheckTarHeader, DecodeOctal, Accepted;
    if |b| >= d.headerSize {
      CheckedExactly(LastBlock(d, b));
    }
  }

  // The three permission bits of the owner, the group or the others.
  datatype Permissions = Permissions(r: nat, w: nat, x: nat)

  function Digit(p: Permissions): nat {
    4 * p.r + 2 * p.w + p.x
  }

  predicate AreBits(p: Permissions) {
    p.r < 2 && p.w < 2 && p.x < 2
  }

  // The mode is that of a read-only file if nobody has the permission to write.
  lemma ReadonlyMode(rest: nat, u: Permissions, g: Permissions, o: Permissions)
    requires AreBits(u) && AreBits(g) && AreBits(o)
    ensures NoWriteBits(512 * rest + 64 * Digit(u) + 8 * Digit(g) + Digit(o)) <==> u.w == g.w == o.w == 0
  {
    var mode := 512 * rest + 64 * Digit(u) + 8 * Digit(g) + Digit(o);
    BitAt(mode, 128, 2 * rest + u.r, u.w, 64 * u.x + 8 * Digit(g) + Digit(o));
    BitAt(mode, 16, 16 * rest + 2 * Digit(u) + g.r, g.w, 8 * g.x + Digit(o));
    BitAt(mode, 2, 128 * rest + 16 * Digit(u) + 2 * Digit(g) + o.r, o.w, o.x);
  }

  lemma BitAt(m: nat, b: nat, high: nat, bit: nat, low: nat)
    requires bit < 2 && low < b && m == b * (2 * high + bit) + low
    ensures m / b % 2 == bit
  {
    ModUnique(m, b, 2 * high + bit, low);
  }

  // The name is that in front of the first NUL of the 100 bytes, or all of them if the last one is no NUL.
  ghost predicate NameAt(name: seq<byte>, h: seq<byte>)
    requires |h| == 512
  {
    if h[99] != 0 then name == h[..100]
    else |name| < 100 && name == h[..|name|] && 0 !in name && h[|name|] == 0
  }

  // What parse_header takes from any block.
  lemma BlockExactly(d: Decoded, h: seq<byte>)
    requires |h| == 512
    ensures var r, mode, time := BlockInfo(d, h), DecodeOctal(h[100..108]), DecodeOctal(h[136..148]);
            && NameAt(r.name, h)
            && r.info.mtime == r.info.ctime == 116444736000000000 + 10000000 * time
            && r.info.size == (if d.kind == 49 || d.kind == 50 || d.kind == 53 || d.kind == 54 then d.info.size
                               else DecodeOctal(h[124..136]))
            && r.info.attr == d.info.attr.(readonly := d.info.attr.readonly || NoWriteBits(mode),
                                           directory := d.info.attr.directory || d.kind == 53,
                                           normal := d.info.attr.normal || d.kind == 48)
            && r == d.(name := r.name, info := d.info.(mtime := r.info.mtime, ctime := r.info.ctime,
                                                       size := r.info.size, attr := r.info.attr))
  {
    hide DecodeOctal, NoWriteBits;
    var n := Terminated(h[..100]);
    assert n == h[..100][..|n|] == h[..|n|];
    if h[99] == 0 {
      assert forall i | 0 <= i < |n| :: n[i] in n;
      assert forall i | 0 <= i < |n| :: h[i] == n[i];
      assert h[..100][|n|] == h[|n|];
    }
  }
}
