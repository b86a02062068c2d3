/**
 Times in pax records: a FILETIME (100 ns ticks since 1601) is written as decimal seconds since
 1970 with a fraction, and read back (src/tar.cpp, code_time and decode_time).
 */
module PaxTime {
  import opened Bytes
  import opened Numerals

  const TICK := 10_000_000             // 100 ns units in a second
  const EPOCH := 11_644_473_600 * TICK // 1970 as a FILETIME
  const BILLION := 1_000_000_000
  const POINT: byte := 46
  const MINUS: byte := 45

  // C++ integer division and remainder truncate towards zero.
  function TruncDiv(a: int, b: int): int
    requires b > 0
  {
    if a >= 0 then a / b else -((-a) / b)
  }

  function TruncMod(a: int, b: int): int
    requires b > 0
  {
    a - TruncDiv(a, b) * b
  }

  function CastUint32(x: int): nat {
    x % UINT32_LIMIT
  }

  function WrapInt64(x: int): int {
    var r := x % UINT64_LIMIT;
    if r > INT64_MAX then r - UINT64_LIMIT else r
  }

  // ------------------------------------------------------------------------------------- writing

  // Exactly n decimal digits.
  function Fixed(v: nat, n: nat): (s: seq<byte>)
    ensures |s| == n && AllDigits(s)
  {
    if n == 0 then [] else Fixed(v / 10, n - 1) + [48 + v % 10]
  }

  // A point and the fraction without its trailing zeros; nothing for zero.
  function Fraction(ns: nat, precision: nat): seq<byte>
    requires ns < Pow(10, precision)
  {
    if ns == 0 then []
    else if ns % 10 == 0 then Fraction(ns / 10, precision - 1)
    else [POINT] + Fixed(ns, precision)
  }

  // The digits of ns that are left without its trailing zeros, and their number.
  method StripZeros(ns0: nat, precision: nat) returns (ns: nat, n: nat)
    requires 0 < ns0 < Pow(10, precision)
    ensures 0 < ns < Pow(10, n) && n <= precision && ns % 10 != 0
    ensures Fraction(ns0, precision) == [POINT] + Fixed(ns, n)
  {
    ns, n := ns0, precision;
    while ns % 10 == 0
      invariant 0 < ns < Pow(10, n) && n <= precision
      invariant Fraction(ns, n) == Fraction(ns0, precision)
      decreases ns
    {
      ns := ns / 10;
      n := n - 1;
    }
  }

  // Its digits, from the last one on.
  method PutDigits(v: nat, n: nat, buf: array<byte>, at: nat)
    requires at + n <= buf.Length
    modifies buf
    ensures buf[at..at + n] == Fixed(v, n) && buf[..at] == old(buf[..at]) && buf[at + n..] == old(buf[at + n..])
  {
    var ns: nat, i: nat := v, n;
    while i > 0
      invariant i <= n && buf[..at] == old(buf[..at]) && buf[at + n..] == old(buf[at + n..])
      invariant Fixed(v, n) == Fixed(ns, i) + buf[at + i..at + n]
    {
      assert Fixed(ns, i) == Fixed(ns / 10, i - 1) + [48 + ns % 10];
      i := i - 1;
      buf[at + i] := 48 + ns % 10;
      ns := ns / 10;
    }
  }

  method CodeNsFraction(ns0: nat, precision: nat, buf: array<byte>, off: nat) returns (len: nat)
    requires ns0 < Pow(10, precision) && off + precision + 2 <= buf.Length
    modifies buf
    ensures len <= precision + 1 && buf[off..off + len] == Fraction(ns0, precision)
    ensures buf[off + len] == 0 && buf[..off] == old(buf[..off])
  {
    hide Fixed, Pow;
    if ns0 == 0 {
      buf[off] := 0;
      return 0;
    }
    buf[off] := POINT;
    var ns, n := StripZeros(ns0, precision);
    buf[off + 1 + n] := 0;
    ghost var front := buf[..off + 1];
    PutDigits(ns, n, buf, off + 1);
    assert buf[..off + 1] == front && buf[off + 1 + n..][0] == 0;
    len := n + 1;
    assert buf[off..off + len] == [POINT] + buf[off + 1..off + 1 + n];
  }

  // The callers pass a fraction of a second in 100 ns units, or a huge value from the cast of a
  // negative remainder, which counts as no fraction.
  function CodeTime(sec: int, nsec: nat): seq<byte>
    requires nsec < TICK || nsec >= BILLION
    requires sec < 0 ==> nsec == 0 || nsec >= BILLION
  {
    SevenDigits();
    (if sec < 0 then [MINUS] + Decimal(-sec) else Decimal(sec))
    + Fraction(if nsec >= BILLION then 0 else nsec, 7)
  }

  lemma SevenDigits()
    ensures Pow(10, 7) == TICK
  {
  }

  predicate IsFiletime(t: int) {
    -INT64_MAX - 1 + EPOCH <= t <= INT64_MAX
  }

  lemma RemainderCases(t: int)
    requires IsFiletime(t)
    ensures var sec, n := TruncDiv(t - EPOCH, TICK), CastUint32(TruncMod(t - EPOCH, TICK));
            && (n < TICK || n >= BILLION)
            && (sec < 0 ==> n == 0 || n >= BILLION)
            && (t >= EPOCH ==> n == (t - EPOCH) % TICK)
            && (t < EPOCH ==> n == 0 || n >= BILLION)
            && -UINT64_LIMIT < sec < UINT64_LIMIT
  {
  }

  function CodeFiletime(t: int): seq<byte>
    requires IsFiletime(t)
  {
    RemainderCases(t);
    CodeTime(TruncDiv(t - EPOCH, TICK), CastUint32(TruncMod(t - EPOCH, TICK)))
  }

  // code_time, into a buffer of 43 bytes.
  method WriteTime(sec: int, ns: nat, buf: array<byte>) returns (start: nat, len: nat)
    requires ns < TICK || ns >= BILLION
    requires sec < 0 ==> ns == 0 || ns >= BILLION
    requires -UINT64_LIMIT < sec < UINT64_LIMIT && buf.Length == 43
    modifies buf
    ensures start + len < buf.Length
    ensures buf[start..start + len] == CodeTime(sec, ns) && buf[start + len] == 0
  {
    SevenDigits();
    var nsec := if ns >= BILLION then 0 else ns;
    var size;
    start, size := ToDecimal(if sec < 0 then -sec else sec, buf, 32);
    var frac := start + size;
    ghost var digits := buf[start..frac];
    if sec < 0 {
      start := start - 1;
      buf[start] := MINUS;
    }
    ghost var front := buf[..frac];
    assert front[start..] == if sec < 0 then [MINUS] + digits else digits;
    var flen := CodeNsFraction(nsec, 7, buf, frac);
    len := frac - start + flen;
    Assembled(front, buf[..], start, frac, flen);
  }

  method WriteFiletime(t: int) returns (buf: array<byte>, start: nat, len: nat)
    requires IsFiletime(t)
    ensures fresh(buf) && start + len < buf.Length
    ensures buf[start..start + len] == CodeFiletime(t) && buf[start + len] == 0
  {
    RemainderCases(t);
    buf := new byte[43];
    start, len := WriteTime(TruncDiv(t - EPOCH, TICK), CastUint32(TruncMod(t - EPOCH, TICK)), buf);
  }

  lemma Assembled(front: seq<byte>, b: seq<byte>, start: nat, frac: nat, flen: nat)
    requires start <= frac && frac + flen <= |b| && b[..frac] == front
    ensures b[start..start + (frac - start + flen)] == front[start..] + b[frac..frac + flen]
  {
  }

  // ------------------------------------------------------------------------------------- reading

  // The place of the first point, or the length of the text.
  function PointAt(s: seq<byte>): (p: nat)
    ensures p <= |s| && (p < |s| ==> s[p] == POINT) && forall i | 0 <= i < p :: s[i] != POINT
  {
    if s == [] || s[0] == POINT then 0 else 1 + PointAt(s[1..])
  }

  function DecodeSeconds(s: seq<byte>, nsec: nat, negative: bool): Option<(int, nat)>
    requires AllDigits(s)
  {
    var v := DecimalValue(s) % UINT64_LIMIT;
    if s == [] || v >= INT64_MAX then None else Some((if negative then -v else v, nsec))
  }

  // At most seven digits of the fraction count.
  function FractionValue(f: seq<byte>): nat
    requires AllDigits(f)
  {
    var k := if |f| < 7 then |f| else 7;
    DecimalValue(f[..k]) * Pow(10, 7 - k)
  }

  function DecodeUnsigned(s: seq<byte>, negative: bool): Option<(int, nat)> {
    var p := PointAt(s);
    if !AllDigits(s[..p]) then None
    else if p == |s| then DecodeSeconds(s, 0, negative)
    else if !AllDigits(s[p + 1..]) || p + 1 == |s| then None
    else DecodeSeconds(s[..p], FractionValue(s[p + 1..]), negative)
  }

  // Seconds and 100 ns units.
  function DecodeTime(s: seq<byte>): Option<(int, nat)> {
    if s == [] then None
    else if s[0] != MINUS then DecodeUnsigned(s, false)
    else if |s| == 1 then None
    else DecodeUnsigned(s[1..], true)
  }

  function DecodeEpochTime(s: seq<byte>): Option<int> {
    match DecodeTime(s)
    case None => None
    case Some((sec, nsec)) => Some(WrapInt64(sec * TICK + nsec + EPOCH))
  }

  lemma PointUnique(s: seq<byte>, p: nat)
    requires p <= |s| && (p < |s| ==> s[p] == POINT) && AllDigits(s[..p])
    ensures PointAt(s) == p
  {
    forall k | 0 <= k < p ensures s[k] != POINT {
      assert IsDigit(s[..p][k]);
    }
  }

  method ScaleFraction(f: seq<byte>) returns (nsec: nat)
    requires AllDigits(f) && f != []
    ensures nsec == FractionValue(f)
  {
    var nslen := if |f| < 7 then |f| else 7;
    var x := DecodeDecimal64(f[..nslen]);
    nsec := x.value;
    assert nsec == DecimalValue(f[..nslen]) by {
      ShortValue(f[..nslen]);
    }
    var i := nslen;
    while i < 7
      invariant nslen <= i <= 7
      invariant nsec * Pow(10, 7 - i) == FractionValue(f)
    {
      assert nsec * Pow(10, 7 - i) == (nsec * 10) * Pow(10, 7 - (i + 1));
      nsec := nsec * 10;
      i := i + 1;
    }
  }

  lemma ShortValue(s: seq<byte>)
    requires AllDigits(s) && |s| <= 7
    ensures DecimalValue(s) < TICK && DecimalValue(s) % UINT64_LIMIT == DecimalValue(s)
  {
    DecimalBound(s);
    PowMonotone(10, |s|, 7);
    SevenDigits();
  }

  // The loop of decode_time: one pass finds the point, counts the digits on both sides of it and
  // refuses everything else.
  method ScanDigits(str: seq<byte>) returns (ok: bool, p: nat, k: nat)
    ensures ok <==> var q := PointAt(str);
                    AllDigits(str[..q]) && (q < |str| ==> AllDigits(str[q + 1..]))
    ensures ok ==> p == PointAt(str) && k == if p < |str| then |str| - p - 1 else p
  {
    var seen, slen, i := false, 0, 0;
    k := 0;
    while i < |str|
      invariant 0 <= i <= |str|
      invariant if seen then slen < i && str[slen] == POINT && AllDigits(str[..slen])
                             && AllDigits(str[slen + 1..i]) && k == i - slen - 1
                else AllDigits(str[..i]) && k == i
    {
      if str[i] == POINT {
        if seen {
          PointUnique(str, slen);
          assert str[slen + 1..][i - slen - 1] == POINT;
          return false, 0, 0;
        }
        seen, slen, k := true, i, 0;
      } else {
        if !IsDigit(str[i]) {
          if seen {
            PointUnique(str, slen);
            assert str[slen + 1..][i - slen - 1] == str[i];
          } else {
            NoDigitBefore(str, i);
          }
          return false, 0, 0;
        }
        if seen {
          assert str[slen + 1..i + 1] == str[slen + 1..i] + [str[i]];
        }
        k := k + 1;
      }
      i := i + 1;
    }
    ok := true;
    if seen {
      PointUnique(str, slen);
      assert str[slen + 1..i] == str[slen + 1..];
      p := slen;
    } else {
      assert str[..i] == str;
      PointUnique(str, i);
      p := i;
    }
  }

  // decode_time.
  method ReadTime(text: seq<byte>) returns (r: Option<(int, nat)>)
    ensures r == DecodeTime(text)
  {
    if text == [] {
      return None;
    }
    var str, negative := text, false;
    if str[0] == MINUS {
      negative := true;
      str := str[1..];
      if str == [] {
        return None;
      }
    }
    var ok, p, k := ScanDigits(str);
    if !ok {
      return None;
    }
    var nsec := 0;
    if p < |str| {
      if k == 0 {
        return None;
      }
      nsec := ScaleFraction(str[p + 1..]);
    }
    assert p == |str| ==> str[..p] == str;
    if p == 0 {
      return None;
    }
    var vu64 := DecodeDecimal64(str[..p]);
    if vu64.value >= INT64_MAX {
      return None;
    }
    var sec: int := vu64.value;
    if negative {
      sec := -sec;
    }
    r := Some((sec, nsec));
  }

  // A byte that is neither a digit nor a point spoils the whole part.
  lemma NoDigitBefore(s: seq<byte>, p: nat)
    requires p < |s| && AllDigits(s[..p]) && !IsDigit(s[p]) && s[p] != POINT
    ensures !AllDigits(s[..PointAt(s)])
  {
    forall k | 0 <= k < p ensures s[k] != POINT {
      assert IsDigit(s[..p][k]);
    }
    assert s[..PointAt(s)][p] == s[p];
  }

  // ---------------------------------------------------------------------------------- round trip

  lemma {:induction false} FixedValue(v: nat, n: nat)
    requires v < Pow(10, n)
    ensures DecimalValue(Fixed(v, n)) == v
  {
    if n > 0 {
      FixedValue(v / 10, n - 1);
      assert Fixed(v, n)[..n - 1] == Fixed(v / 10, n - 1);
    }
  }

  // Leading zeros of a fraction are kept and stripped trailing zeros come back.
  lemma {:induction false} FractionRoundTrip(ns: nat, p: nat)
    requires 0 < ns < Pow(10, p)
    ensures var f := Fraction(ns, p);
            && 1 < |f| <= p + 1 && f[0] == POINT && AllDigits(f[1..])
            && DecimalValue(f[1..]) * Pow(10, p + 1 - |f|) == ns
  {
    if ns % 10 == 0 {
      FractionRoundTrip(ns / 10, p - 1);
      var f := Fraction(ns, p);
      var x, y := DecimalValue(f[1..]), Pow(10, p - |f|);
      MulShuffle(x, 10, y);
    } else {
      FixedValue(ns, p);
      assert ([POINT] + Fixed(ns, p))[1..] == Fixed(ns, p);
    }
  }

  lemma WholePart(sec: int, f: seq<byte>)
    requires -INT64_MAX < sec < INT64_MAX
    requires f == [] || (|f| > 1 && f[0] == POINT && AllDigits(f[1..]))
    ensures var s := (if sec < 0 then [MINUS] + Decimal(-sec) else Decimal(sec)) + f;
            DecodeTime(s) == Some((sec, if f == [] then 0 else FractionValue(f[1..])))
  {
    hide Decimal, DecimalValue, FractionValue;
    var v := if sec < 0 then -sec else sec;
    var u := Decimal(v) + f;
    var n := |Decimal(v)|;
    assert u[..n] == Decimal(v);
    PointUnique(u, n);
    DecimalRoundTrip(v);
    if f == [] {
      assert u == Decimal(v);
    } else {
      assert u[n + 1..] == f[1..];
    }
    var s := (if sec < 0 then [MINUS] + Decimal(-sec) else Decimal(sec)) + f;
    if sec < 0 {
      assert s[1..] == u;
    } else {
      assert s == u && IsDigit(u[0]);
    }
  }

  // The seconds and ticks that the writer takes apart.
  lemma Recombined(t: int, sec: int, n: nat)
    requires IsFiletime(t) && sec == TruncDiv(t - EPOCH, TICK)
    requires n == if t >= EPOCH then (t - EPOCH) % TICK else 0
    ensures -INT64_MAX < sec < INT64_MAX && n < TICK
    ensures WrapInt64(sec * TICK + n + EPOCH) == sec * TICK + n + EPOCH
    ensures t >= EPOCH ==> sec * TICK + n + EPOCH == t
  {
  }

  // What comes back is the time, cut to whole seconds towards 1970 if it lies before 1970.
  lemma TimeReadBack(t: int)
    requires IsFiletime(t)
    ensures DecodeEpochTime(CodeFiletime(t))
            == Some(if t >= EPOCH then t else EPOCH + TruncDiv(t - EPOCH, TICK) * TICK)
  {
    var sec := TruncDiv(t - EPOCH, TICK);
    var n := if t >= EPOCH then (t - EPOCH) % TICK else 0;
    Recombined(t, sec, n);
    TimeParsed(t, sec, n);
  }

  lemma TimeParsed(t: int, sec: int, n: nat)
    requires IsFiletime(t) && sec == TruncDiv(t - EPOCH, TICK)
    requires n == if t >= EPOCH then (t - EPOCH) % TICK else 0
    ensures DecodeTime(CodeFiletime(t)) == Some((sec, n))
  {
    Recombined(t, sec, n);
    FractionReadBack(n);
    WholePart(sec, Fraction(n, 7));
    TimeParts(t);
  }

  lemma FractionReadBack(n: nat)
    requires n < TICK
    ensures Pow(10, 7) == TICK
    ensures var f := Fraction(n, 7);
            if n == 0 then f == [] else |f| > 1 && f[0] == POINT && AllDigits(f[1..]) && FractionValue(f[1..]) == n
  {
    SevenDigits();
    if n > 0 {
      FractionRoundTrip(n, 7);
      var g := Fraction(n, 7)[1..];
      assert g[..|g|] == g;
    }
  }

  lemma TimeParts(t: int)
    requires IsFiletime(t)
    ensures Pow(10, 7) == TICK
    ensures var sec, n := TruncDiv(t - EPOCH, TICK), if t >= EPOCH then (t - EPOCH) % TICK else 0;
            CodeFiletime(t) == (if sec < 0 then [MINUS] + Decimal(-sec) else Decimal(sec)) + Fraction(n, 7)
  {
    RemainderCases(t);
    SevenDigits();
  }

  // The round trip is exact for every time from 1970 on, and before that exactly for whole seconds.
  lemma TimeRoundTrip(t: int)
    requires IsFiletime(t)
    ensures DecodeEpochTime(CodeFiletime(t)) == Some(t) <==> t >= EPOCH || (t - EPOCH) % TICK == 0
  {
    TimeReadBack(t);
    WholeSeconds(t - EPOCH);
  }

  // The last tick before 1970 comes back as 1970.
  lemma TickBeforeEpoch()
    ensures IsFiletime(EPOCH - 1) && DecodeEpochTime(CodeFiletime(EPOCH - 1)) == Some(EPOCH)
  {
    TimeReadBack(EPOCH - 1);
  }

  lemma WholeSeconds(d: int)
    ensures d < 0 ==> (TruncDiv(d, TICK) * TICK == d <==> d % TICK == 0)
  {
  }
}
