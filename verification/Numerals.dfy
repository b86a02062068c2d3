/**
 Bytes and the octal and decimal number fields of tar headers: the coders and decoders of
 src/tar.cpp as loops over byte buffers, and the values they write and read.
 */
module Bytes {
  type byte = x: int | 0 <= x < 256

  datatype Option<+T> = None | Some(value: T)

  const UINT32_LIMIT := 0x1_0000_0000
  const UINT64_LIMIT := 0x1_0000_0000_0000_0000
  const INT64_MAX := 0x7FFF_FFFF_FFFF_FFFF

  function Fill(n: nat, b: byte): (s: seq<byte>)
    ensures |s| == n && forall i | 0 <= i < n :: s[i] == b
  {
    seq(n, _ => b)
  }

  function Zeros(n: nat): (s: seq<byte>)
    ensures |s| == n && forall i | 0 <= i < n :: s[i] == 0
  {
    Fill(n, 0)
  }

  // The bytes after src was copied over them at off.
  function Splice(b: seq<byte>, off: nat, src: seq<byte>): (r: seq<byte>)
    requires off + |src| <= |b|
    ensures |r| == |b|
    ensures r[..off] == b[..off] && r[off..off + |src|] == src && r[off + |src|..] == b[off + |src|..]
  {
    b[..off] + src + b[off + |src|..]
  }

  lemma SpliceTwice(b: seq<byte>, off: nat, x: seq<byte>, y: seq<byte>)
    requires off + |x| + |y| <= |b|
    ensures Splice(Splice(b, off, x), off + |x|, y) == Splice(b, off, x + y)
  {
  }

  // A copy that stays inside a region is a copy in the region.
  lemma SpliceInside(b: seq<byte>, off: nat, n: nat, o: nat, x: seq<byte>)
    requires off + n <= |b| && o + |x| <= n
    ensures var b' := Splice(b, off + o, x);
            && b'[off..off + n] == Splice(b[off..off + n], o, x)
            && b'[..off] == b[..off] && b'[off + n..] == b[off + n..]
  {
    var b' := Splice(b, off + o, x);
    assert b'[..off] == b'[..off + o][..off];
    var k := n - o - |x|;
    assert b'[off + n..] == b'[off + o + |x|..][k..];
  }

  lemma SliceOfTake<T>(s: seq<T>, n: nat, i: nat, j: nat)
    requires i <= j <= n <= |s|
    ensures s[..n][i..j] == s[i..j]
  {
  }

  lemma SliceOfDrop<T>(s: seq<T>, n: nat, i: nat, j: nat)
    requires n <= i <= j <= |s|
    ensures s[n..][i - n..j - n] == s[i..j]
  {
  }

  lemma SliceOfSlice<T>(s: seq<T>, lo: nat, hi: nat, i: nat, j: nat)
    requires lo <= hi <= |s| && i <= j <= hi - lo
    ensures s[lo..hi][i..j] == s[lo + i..lo + j]
  {
    var m, a, b := s[lo..hi], s[lo..hi][i..j], s[lo + i..lo + j];
    forall k | 0 <= k < j - i ensures a[k] == b[k] {
      assert a[k] == m[i + k] && m[i + k] == s[lo + (i + k)];
    }
  }

  // The number with these bytes in little-endian order.
  function Value(s: seq<byte>): nat {
    if s == [] then 0 else s[0] + 256 * Value(s[1..])
  }

  // The n bytes at off as such a number.
  function At(b: seq<byte>, off: nat, n: nat): nat
    requires off + n <= |b|
  {
    Value(b[off..off + n])
  }

  // The ASCII bytes of a text.
  function Text(s: string): (r: seq<byte>)
    requires forall i | 0 <= i < |s| :: s[i] as int < 128
    ensures |r| == |s| && forall i | 0 <= i < |s| :: r[i] == s[i] as int
  {
    seq(|s|, i requires 0 <= i < |s| => s[i] as int)
  }
}

module Numerals {
  import opened Bytes

  predicate IsOctal(b: byte) {
    48 <= b <= 55
  }

  predicate IsDigit(b: byte) {
    48 <= b <= 57
  }

  function Pow(b: nat, n: nat): (p: nat)
    ensures b > 0 ==> p > 0
  {
    if n == 0 then 1 else b * Pow(b, n - 1)
  }

  // ------------------------------------------------------------------------------ octal fields

  // The low n octal digits of v.
  function Octal(v: nat, n: nat): (s: seq<byte>)
    ensures |s| == n && forall i | 0 <= i < n :: IsOctal(s[i])
  {
    if n == 0 then [] else Octal(v / 8, n - 1) + [48 + v % 8]
  }

  // The value of the octal digits in front of the first other byte.
  function OctalValue(acc: nat, s: seq<byte>): nat
    decreases |s|
  {
    if s == [] || !IsOctal(s[0]) then acc else OctalValue(acc * 8 + (s[0] - 48), s[1..])
  }

  function DecodeOctal(s: seq<byte>): nat {
    OctalValue(0, s)
  }

  lemma {:induction false} OctalValueBound(acc: nat, s: seq<byte>)
    ensures OctalValue(acc, s) < (acc + 1) * Pow(8, |s|)
    decreases |s|
  {
    if s != [] {
      calc {
        (acc + 1) * Pow(8, |s|);
        (acc + 1) * (8 * Pow(8, |s| - 1));
        (8 * acc + 8) * Pow(8, |s| - 1);
      }
      if IsOctal(s[0]) {
        OctalValueBound(acc * 8 + (s[0] - 48), s[1..]);
        MulLe(acc * 8 + (s[0] - 48) + 1, 8 * acc + 8, Pow(8, |s| - 1));
      } else {
        MulLe(1, Pow(8, |s| - 1), 8 * acc + 8);
      }
    }
  }

  lemma MulLe(a: nat, b: nat, c: nat)
    requires a <= b
    ensures a * c <= b * c && c * a <= c * b
  {
  }

  // A twelve byte field never overflows the 64-bit value it is decoded to, and an eight byte one
  // never overflows 32 bits.
  lemma OctalFieldsFit(s: seq<byte>)
    ensures |s| <= 12 ==> DecodeOctal(s) < UINT64_LIMIT
    ensures |s| <= 8 ==> DecodeOctal(s) < UINT32_LIMIT
  {
    OctalValueBound(0, s);
    if |s| <= 12 {
      PowMonotone(8, |s|, 12);
      assert Pow(8, 12) == 68719476736;
    }
    if |s| <= 8 {
      PowMonotone(8, |s|, 8);
      assert Pow(8, 8) == 16777216;
    }
  }

  lemma {:induction false} PowMonotone(b: nat, m: nat, n: nat)
    requires b > 0 && m <= n
    ensures Pow(b, m) <= Pow(b, n)
  {
    if m < n {
      PowMonotone(b, m, n - 1);
      MulLe(1, b, Pow(b, n - 1));
    }
  }

  lemma {:induction false} OctalValueAppend(acc: nat, s: seq<byte>, t: seq<byte>)
    requires forall i | 0 <= i < |s| :: IsOctal(s[i])
    ensures OctalValue(acc, s + t) == OctalValue(OctalValue(acc, s), t)
    decreases |s|
  {
    if s == [] {
      assert s + t == t;
    } else {
      assert (s + t)[1..] == s[1..] + t;
      OctalValueAppend(acc * 8 + (s[0] - 48), s[1..], t);
    }
  }

  // Reading an octal field back yields the value, or its low digits if the field is too narrow;
  // what follows the field does not matter if it does not start with an octal digit.
  lemma {:induction false} OctalRoundTrip(v: nat, n: nat, rest: seq<byte>)
    requires rest == [] || !IsOctal(rest[0])
    ensures DecodeOctal(Octal(v, n) + rest) == v % Pow(8, n)
    ensures v < Pow(8, n) ==> DecodeOctal(Octal(v, n) + rest) == v
  {
    OctalDigits(v, n);
    OctalValueAppend(0, Octal(v, n), rest);
    var p := Pow(8, n);
    assert DecodeOctal(Octal(v, n) + rest) == v % p;
    if v < p {
      ModUnique(v, p, 0, v);
    }
  }

  lemma {:induction false} OctalDigits(v: nat, n: nat)
    ensures DecodeOctal(Octal(v, n)) == v % Pow(8, n)
  {
    if n > 0 {
      OctalDigits(v / 8, n - 1);
      OctalValueAppend(0, Octal(v / 8, n - 1), [48 + v % 8]);
      var a := DecodeOctal(Octal(v / 8, n - 1));
      assert OctalValue(a, [48 + v % 8]) == a * 8 + v % 8 by {
        assert [48 + v % 8][1..] == [];
      }
      ModStep(v, 8, Pow(8, n - 1));
    }
  }

  // Splitting off the last digit commutes with taking the low digits.
  lemma ModStep(v: nat, b: nat, p: nat)
    requires b > 0 && p > 0
    ensures b * p > 0 && v % (b * p) == ((v / b) % p) * b + v % b
  {
    var q, r := v / b / p, (v / b) % p;
    assert v / b == q * p + r;
    assert v == (v / b) * b + v % b;
    var low := r * b + v % b;
    assert v == q * (b * p) + low by {
      MulSum(q * p, r, b);
      MulShuffle(q, p, b);
      MulShuffle(q, b, p);
    }
    assert 0 <= low < b * p by {
      MulLe(r + 1, p, b);
      MulSum(r, 1, b);
    }
    ModUnique(v, b * p, q, low);
  }

  lemma ModUnique(v: nat, m: nat, q: nat, r: nat)
    requires m > 0 && r < m && v == q * m + r
    ensures v % m == r && v / m == q
  {
    var q', r' := v / m, v % m;
    assert q' * m + r' == q * m + r;
    if q' < q {
      MulLe(q' + 1, q, m);
    } else if q < q' {
      MulLe(q + 1, q', m);
    }
  }

  lemma MulShuffle(a: nat, b: nat, c: nat)
    ensures a * (b * c) == b * (a * c) == a * b * c
  {
  }

  lemma MulSum(a: nat, b: nat, c: nat)
    ensures (a + b) * c == a * c + b * c
  {
  }

  // to_octal: fills the field from its end.
  method ToOctal(v: nat, buf: array<byte>, off: nat, size: nat)
    requires size > 0 && off + size <= buf.Length
    modifies buf
    ensures buf[..] == old(buf[..off]) + Octal(v, size) + old(buf[off + size..])
  {
    var w, i := v, size;
    while i > 0
      invariant i <= size
      invariant buf[..off + i] == old(buf[..off + i])
      invariant buf[off + size..] == old(buf[off + size..])
      invariant Octal(v, size) == Octal(w, i) + buf[off + i..off + size]
    {
      assert Octal(w, i) == Octal(w / 8, i - 1) + [48 + w % 8];
      i := i - 1;
      buf[off + i] := 48 + w % 8;
      w := w / 8;
    }
    assert buf[..] == buf[..off] + buf[off..off + size] + buf[off + size..];
  }

  // decode_octal and decode_octal32 on the fields they are used for.
  method DecodeOctalField(s: seq<byte>) returns (value: nat)
    requires |s| <= 12
    ensures value == DecodeOctal(s) && value < UINT64_LIMIT
    ensures |s| <= 8 ==> value < UINT32_LIMIT
  {
    value := 0;
    var i := 0;
    while i < |s| && IsOctal(s[i])
      invariant 0 <= i <= |s|
      invariant OctalValue(value, s[i..]) == DecodeOctal(s)
    {
      assert s[i..][1..] == s[i + 1..];
      value := value * 8 + (s[i] - 48);
      i := i + 1;
    }
    OctalFieldsFit(s);
  }

  // ----------------------------------------------------------------------------- decimal numbers

  function Decimal(v: nat): (s: seq<byte>)
    ensures |s| > 0 && forall i | 0 <= i < |s| :: IsDigit(s[i])
  {
    if v < 10 then [48 + v] else Decimal(v / 10) + [48 + v % 10]
  }

  function Digits(v: nat): nat {
    |Decimal(v)|
  }

  predicate AllDigits(s: seq<byte>) {
    forall i | 0 <= i < |s| :: IsDigit(s[i])
  }

  function DecimalValue(s: seq<byte>): nat
    requires AllDigits(s)
  {
    if s == [] then 0 else DecimalValue(s[..|s| - 1]) * 10 + (s[|s| - 1] - 48)
  }

  lemma {:induction false} DecimalRoundTrip(v: nat)
    ensures DecimalValue(Decimal(v)) == v
  {
    if v >= 10 {
      DecimalRoundTrip(v / 10);
      assert Decimal(v)[..|Decimal(v)| - 1] == Decimal(v / 10);
    }
  }

  // v has at most n digits exactly if it is below the n-th power of ten.
  lemma {:induction false} DigitsPow(v: nat, n: nat)
    requires n > 0
    ensures Digits(v) <= n <==> v < Pow(10, n)
  {
    if v < 10 {
      PowMonotone(10, 1, n);
      assert Pow(10, 1) == 10;
    } else if n == 1 {
      assert Pow(10, 1) == 10;
    } else {
      DigitsPow(v / 10, n - 1);
      var p := Pow(10, n - 1);
      assert v / 10 < p <==> v < 10 * p;
    }
  }

  lemma DigitsMonotone(v: nat, w: nat)
    requires v <= w
    ensures Digits(v) <= Digits(w)
  {
    DigitsPow(w, Digits(w));
    DigitsPow(v, Digits(w));
  }

  lemma MachineDigits(v: nat)
    ensures v < UINT32_LIMIT ==> Digits(v) <= 10
    ensures v < UINT64_LIMIT ==> Digits(v) <= 20
  {
    DigitsPow(v, 10);
    DigitsPow(v, 20);
    assert Pow(10, 10) == 10000000000;
    assert Pow(10, 20) == 100000000000000000000 by {
      PowSum(10, 10, 10);
    }
  }

  lemma {:induction false} PowSum(b: nat, m: nat, n: nat)
    ensures Pow(b, m + n) == Pow(b, m) * Pow(b, n)
  {
    if m > 0 {
      PowSum(b, m - 1, n);
      MulShuffle(b, Pow(b, m - 1), Pow(b, n));
    }
  }

  // to_decimal (16 bytes, 32 bits) and to_decimal64 (32 bytes, 64 bits): the digits end in front
  // of the NUL in the last of the first `cap` bytes of the buffer.
  method ToDecimal(v: nat, buf: array<byte>, cap: nat) returns (start: nat, size: nat)
    requires (cap == 16 && v < UINT32_LIMIT) || (cap == 32 && v < UINT64_LIMIT)
    requires cap <= buf.Length
    modifies buf
    ensures start > 0 && start + size == cap - 1 && buf[start..start + size] == Decimal(v)
    ensures buf[cap - 1] == 0
  {
    MachineDigits(v);
    size := 0;
    start := cap - 1;
    buf[start] := 0;
    var w := v;
    var more := true;
    while more
      invariant start + size == cap - 1 && buf[cap - 1] == 0
      invariant Decimal(v) == (if more then Decimal(w) else []) + buf[start..cap - 1]
      decreases if more then w + 1 else 0
    {
      assert |Decimal(w)| >= 1 && |Decimal(v)| <= cap - 6;
      ghost var tail := buf[start..cap - 1];
      size := size + 1;
      start := start - 1;
      buf[start] := 48 + w % 10;
      assert buf[start..cap - 1] == [48 + w % 10] + tail;
      assert Decimal(w) == (if w / 10 != 0 then Decimal(w / 10) else []) + [48 + w % 10];
      w := w / 10;
      more := w != 0;
    }
  }

  lemma {:induction false} DecimalBound(s: seq<byte>)
    requires AllDigits(s)
    ensures DecimalValue(s) < Pow(10, |s|)
  {
    if s != [] {
      DecimalBound(s[..|s| - 1]);
    }
  }

  lemma {:induction false} DecimalValuePrefix(s: seq<byte>, i: nat)
    requires i < |s| && AllDigits(s[..i + 1])
    ensures AllDigits(s[..i])
    ensures DecimalValue(s[..i + 1]) == DecimalValue(s[..i]) * 10 + (s[i] - 48)
  {
    assert forall k | 0 <= k < i :: s[..i][k] == s[..i + 1][k];
    assert s[..i + 1][..i] == s[..i];
  }

  // decode_decimal and decode_decimal64: digits only, the value modulo the 64-bit word.
  function DecodeDecimal(s: seq<byte>): Option<nat> {
    if AllDigits(s) then Some(DecimalValue(s) % UINT64_LIMIT) else None
  }

  lemma WrapStep(x: nat, d: nat, m: nat)
    requires m > 0
    ensures ((x % m) * 10 + d) % m == (x * 10 + d) % m
  {
    var q, r := x / m, x % m;
    var y := r * 10 + d;
    assert x * 10 + d == (q * 10 + y / m) * m + y % m by {
      assert x == q * m + r;
      MulShuffle(q, 10, m);
      MulSum(q * 10, y / m, m);
    }
    ModUnique(x * 10 + d, m, q * 10 + y / m, y % m);
  }

  method DecodeDecimal64(s: seq<byte>) returns (r: Option<nat>)
    ensures r == DecodeDecimal(s)
  {
    var value, i := 0, 0;
    while i < |s|
      invariant 0 <= i <= |s| && AllDigits(s[..i])
      invariant value == DecimalValue(s[..i]) % UINT64_LIMIT
    {
      if !IsDigit(s[i]) {
        return None;
      }
      assert AllDigits(s[..i + 1]);
      DecimalValuePrefix(s, i);
      WrapStep(DecimalValue(s[..i]), s[i] - 48, UINT64_LIMIT);
      value := (value * 10 + (s[i] - 48)) % UINT64_LIMIT;
      i := i + 1;
    }
    assert s[..i] == s;
    r := Some(value);
  }

  lemma DecodeDecimalOf(v: nat)
    requires v < UINT64_LIMIT
    ensures DecodeDecimal(Decimal(v)) == Some(v)
  {
    DecimalRoundTrip(v);
    ModUnique(v, UINT64_LIMIT, 0, v);
  }
}
