/**
 Which texts decode_time reads as a time, and as which time: any number of digits, with a fraction of any length,
 of which the part below 100 nanoseconds is cut off.
 */
module TimeExact {
  import opened Bytes
  import opened Numerals
  import opened PaxTime

  // The digits of a number in front of those of another one.
  lemma {:induction false} DigitsJoin(a: seq<byte>, b: seq<byte>)
    requires AllDigits(a) && AllDigits(b)
    ensures AllDigits(a + b) && DecimalValue(a + b) == DecimalValue(a) * Pow(10, |b|) + DecimalValue(b)
    decreases |b|
  {
    if b == [] {
      assert a + b == a;
    } else {
      var c, x := b[..|b| - 1], b[|b| - 1];
      DigitsJoin(a, c);
      assert (a + b)[..|a + b| - 1] == a + c;
      Shifted(DecimalValue(a), Pow(10, |c|), DecimalValue(c), x - 48);
    }
  }

  lemma Shifted(a: nat, p: nat, c: nat, x: nat)
    ensures (a * p + c) * 10 + x == a * (10 * p) + (c * 10 + x)
  {
  }

  // The fraction in units of 100 nanoseconds, rounded down.
  lemma FractionFloor(f: seq<byte>)
    requires AllDigits(f)
    ensures var v, p := FractionValue(f), Pow(10, |f|);
            v * p <= DecimalValue(f) * 10_000_000 < (v + 1) * p
  {
    hide DecimalValue, Pow;
    SevenDigits();
    if |f| <= 7 {
      assert f[..|f|] == f;
      PowSum(10, 7 - |f|, |f|);
      Scaled(DecimalValue(f), Pow(10, 7 - |f|), Pow(10, |f|));
    } else {
      LongFraction(f, f[..7], f[7..]);
    }
  }

  lemma LongFraction(f: seq<byte>, a: seq<byte>, b: seq<byte>)
    requires AllDigits(f) && |f| > 7 && a == f[..7] && b == f[7..]
    ensures FractionValue(f) == DecimalValue(a)
    ensures var v, p := DecimalValue(a), Pow(10, |f|); v * p <= DecimalValue(f) * 10_000_000 < (v + 1) * p
  {
    hide DecimalValue;
    assert f == a + b;
    DigitsJoin(a, b);
    DecimalBound(b);
    PowSum(10, 7, |b|);
    SevenDigits();
    CutOff(DecimalValue(a), DecimalValue(b), Pow(10, |b|));
  }

  lemma Scaled(v: nat, x: nat, y: nat)
    requires x * y == 10_000_000 && y > 0
    ensures v * x * y == v * 10_000_000 < (v * x + 1) * y
  {
    assert v * x * y == v * (x * y);
  }

  lemma CutOff(a: nat, b: nat, p: nat)
    requires b < p
    ensures a * (10_000_000 * p) <= (a * p + b) * 10_000_000 < (a + 1) * (10_000_000 * p)
  {
    assert (a * p + b) * 10_000_000 == a * (10_000_000 * p) + b * 10_000_000;
    assert (a + 1) * (10_000_000 * p) == a * (10_000_000 * p) + 10_000_000 * p;
  }

  // ------------------------------------------------------------------------------------ whole texts

  // An optional minus sign, at least one digit, and optionally a point with at least one digit behind it.
  predicate TimeOf(s: seq<byte>, negative: bool, w: seq<byte>, f: seq<byte>) {
    && s == (if negative then [45] else []) + w + (if f == [] then [] else [46] + f)
    && w != [] && AllDigits(w) && AllDigits(f)
  }

  // The seconds are read modulo 2^64, and have to fit into 63 bits then.
  ghost predicate ReadsAs(s: seq<byte>, sec: int, nsec: nat, negative: bool, w: seq<byte>, f: seq<byte>) {
    && TimeOf(s, negative, w, f)
    && var v := DecimalValue(w) % UINT64_LIMIT;
    && v < INT64_MAX && sec == (if negative then -v else v)
    && nsec * Pow(10, |f|) <= DecimalValue(f) * 10_000_000 < (nsec + 1) * Pow(10, |f|)
  }

  lemma UnsignedParts(s: seq<byte>, p: nat, w: seq<byte>, f: seq<byte>)
    requires p == |w| && AllDigits(w) && AllDigits(f) && s == w + (if f == [] then [] else [46] + f)
    ensures PointAt(s) == p && s[..p] == w && (f == [] <==> p == |s|) && (p < |s| ==> s[p + 1..] == f)
  {
    assert s[..p] == w;
    PointUnique(s, p);
    if f != [] {
      assert s[p + 1..] == f;
    }
  }

  lemma NextStep(x: nat, y: nat, p: nat)
    ensures x < y ==> (x + 1) * p <= y * p
  {
    if x < y {
      assert y * p == (x + 1) * p + (y - x - 1) * p;
    }
  }

  lemma FloorUnique(x: nat, y: nat, v: nat, p: nat)
    requires p > 0 && x * p <= v < (x + 1) * p && y * p <= v < (y + 1) * p
    ensures x == y
  {
    NextStep(x, y, p);
    NextStep(y, x, p);
  }

  lemma NoFraction()
    ensures FractionValue([]) == 0
  {
  }

  function Unsigned(w: seq<byte>, f: seq<byte>): seq<byte> {
    w + if f == [] then [] else [46] + f
  }

  lemma UnsignedIsRead(w: seq<byte>, f: seq<byte>, negative: bool, nsec: nat)
    requires w != [] && AllDigits(w) && AllDigits(f) && nsec == FractionValue(f)
    ensures DecodeUnsigned(Unsigned(w, f), negative) == DecodeSeconds(w, nsec, negative)
  {
    hide DecimalValue, Pow, FractionValue, PointAt, DecodeSeconds;
    UnsignedParts(Unsigned(w, f), |w|, w, f);
    assert f == [] ==> Unsigned(w, f) == w;
    NoFraction();
  }

  lemma SameFloor(f: seq<byte>, nsec: nat, p: nat, v: nat)
    requires AllDigits(f) && p == Pow(10, |f|) && v == DecimalValue(f) * 10_000_000
    requires nsec * p <= v < (nsec + 1) * p
    ensures nsec == FractionValue(f)
  {
    hide DecimalValue, FractionValue;
    FractionFloor(f);
    FloorUnique(nsec, FractionValue(f), v, p);
  }

  lemma TimeIsRead(s: seq<byte>, sec: int, nsec: nat, negative: bool, w: seq<byte>, f: seq<byte>)
    requires ReadsAs(s, sec, nsec, negative, w, f)
    ensures DecodeTime(s) == Some((sec, nsec))
  {
    hide DecimalValue, Pow, DecodeUnsigned;
    var u := Unsigned(w, f);
    SameFloor(f, nsec, Pow(10, |f|), DecimalValue(f) * 10_000_000);
    UnsignedIsRead(w, f, negative, nsec);
    if negative {
      assert s == [45] + u && s[1..] == u;
    } else {
      assert s == u && IsDigit(w[0]);
    }
  }

  lemma UnsignedSeen(u: seq<byte>, negative: bool, sec: int, nsec: nat) returns (w: seq<byte>, f: seq<byte>)
    requires DecodeUnsigned(u, negative) == Some((sec, nsec))
    ensures u == Unsigned(w, f) && w != [] && AllDigits(w) && AllDigits(f)
    ensures nsec == FractionValue(f) && DecodeSeconds(w, nsec, negative) == Some((sec, nsec))
  {
    hide DecimalValue, FractionValue, PointAt;
    var p := PointAt(u);
    w, f := u[..p], if p == |u| then [] else u[p + 1..];
    assert p < |u| ==> u == u[..p] + ([46] + u[p + 1..]);
    assert u[..|u|] == u;
    NoFraction();
  }

  lemma ReadIsTime(s: seq<byte>, sec: int, nsec: nat) returns (negative: bool, w: seq<byte>, f: seq<byte>)
    requires DecodeTime(s) == Some((sec, nsec))
    ensures ReadsAs(s, sec, nsec, negative, w, f)
  {
    hide DecimalValue, Pow, FractionValue, DecodeUnsigned;
    negative := s[0] == MINUS;
    var u := if negative then s[1..] else s;
    w, f := UnsignedSeen(u, negative, sec, nsec);
    FractionFloor(f);
    Signed(s, negative, u, w, f);
  }

  lemma Signed(s: seq<byte>, negative: bool, u: seq<byte>, w: seq<byte>, f: seq<byte>)
    requires s != [] && u == Unsigned(w, f) && (if negative then s[0] == 45 && u == s[1..] else u == s)
    ensures s == (if negative then [45] else []) + w + (if f == [] then [] else [46] + f)
  {
    if negative {
      assert s == [45] + u;
    }
  }

  // A text is read as a time exactly if it has this form, and then as this time.
  lemma TimeExactly(s: seq<byte>, sec: int, nsec: nat)
    ensures DecodeTime(s) == Some((sec, nsec))
            <==> exists negative: bool, w: seq<byte>, f: seq<byte> :: ReadsAs(s, sec, nsec, negative, w, f)
  {
    hide DecodeTime, ReadsAs;
    if DecodeTime(s) == Some((sec, nsec)) {
      var negative, w, f := ReadIsTime(s, sec, nsec);
    }
    if negative: bool, w: seq<byte>, f: seq<byte> :| ReadsAs(s, sec, nsec, negative, w, f) {
      TimeIsRead(s, sec, nsec, negative, w, f);
    }
  }

  // Dates: the zero of FILETIME is 1 January 1601, that of the records 1 January 1970, 369 years and 89 leap days
  // later, and a second has ten million units.
  lemma EpochIs1970()
    ensures EPOCH == (369 * 365 + 89) * 86400 * 10_000_000 && TICK == 10_000_000
  {
  }
}
