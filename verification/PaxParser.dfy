/**
 Parsing the records of a pax extended header, and the round trip with the writer.
 */
module PaxParser {
  import opened Bytes
  import opened Numerals
  import opened PaxRecord

  const KEYWORD_SIZE := 64

  function DigitRun(s: seq<byte>): (n: nat)
    ensures n <= |s| && (n < |s| ==> !IsDigit(s[n]))
    ensures forall i | 0 <= i < n :: IsDigit(s[i])
  {
    if s == [] || !IsDigit(s[0]) then 0 else 1 + DigitRun(s[1..])
  }

  // The number of bytes in front of the first '='.
  function KeyRun(s: seq<byte>): (n: nat)
    ensures n <= |s| && (n < |s| ==> s[n] == EQUALS)
    ensures forall i | 0 <= i < n :: s[i] != EQUALS
  {
    if s == [] || s[0] == EQUALS then 0 else 1 + KeyRun(s[1..])
  }

  datatype Parsed = Bad | Good(param: Param, size: nat)

  predicate KeyOk(key: seq<byte>) {
    1 <= |key| <= KEYWORD_SIZE - 2 && 0 !in key
  }

  // One record at the front of a nonempty rest.  The byte behind the number is not looked at, and
  // neither is the last byte of the record.
  function ParseOne(s: seq<byte>): Parsed {
    var sz := DigitRun(s);
    if sz == 0 || sz == |s| || sz >= 6 then Bad
    else
      var rest := s[sz + 1..];
      var kw := KeyRun(rest);
      if kw == |rest| || !KeyOk(rest[..kw]) then Bad
      else
        var fsz := DecimalValue(s[..sz]);
        if fsz < sz + kw + 3 || fsz > |s| then Bad
        else Good(Param(rest[..kw], s[sz + kw + 2..fsz - 1]), fsz)
  }

  lemma ParseAdvances(s: seq<byte>)
    ensures ParseOne(s).Good? ==> 5 <= ParseOne(s).size <= |s|
  {
  }

  // The records that carry a value, in order; None if some record is malformed.
  function ParseAll(s: seq<byte>): Option<seq<Param>>
    decreases |s|
  {
    if s == [] then Some([])
    else
      match ParseOne(s)
      case Bad => None
      case Good(p, size) =>
        match ParseAll(s[size..])
        case None => None
        case Some(ps) => Some(if p.value == [] then ps else [p] + ps)
  }

  // -------------------------------------------------------------------------------- the two loops

  // The inner loop of parse_pax_header: finds the number, the keyword and the '='.
  method ScanKeyword(s: seq<byte>) returns (ok: bool, sz: nat, kw: nat)
    ensures ok ==> 0 < sz == DigitRun(s) < |s| && kw == KeyRun(s[sz + 1..]) < |s[sz + 1..]|
                   && (kw > 0 ==> KeyOk(s[sz + 1..][..kw]))
    ensures !ok ==> ParseOne(s) == Bad
  {
    sz := 0;
    kw := 0;
    if s == [] || !IsDigit(s[0]) {
      return false, 0, 0;
    }
    var kp, i := 0, 0;
    while i < |s|
      invariant 0 <= i <= |s| && kw == 0
      invariant sz == 0 ==> i <= DigitRun(s) && kp == 0
      invariant sz > 0 ==> sz == DigitRun(s) && i == sz + 1 + kp && kp <= KEYWORD_SIZE - 2
      invariant sz > 0 ==> forall k | sz < k < i :: s[k] != EQUALS && s[k] != 0
    {
      if sz == 0 && !IsDigit(s[i]) {
        sz := i;
      } else {
        if s[i] == EQUALS {
          kw := kp;
          KeyFound(s, sz, kp);
          return true, sz, kw;
        }
        if sz > 0 {
          if kp + 2 >= KEYWORD_SIZE || s[i] == 0 {
            KeyRefused(s, sz, kp);
            return false, 0, 0;
          }
          kp := kp + 1;
        }
      }
      i := i + 1;
    }
    ok := false;
    if sz > 0 {
      NoEquals(s, sz);
    }
  }

  lemma KeyFound(s: seq<byte>, sz: nat, kp: nat)
    requires sz + 1 + kp < |s| && s[sz + 1 + kp] == EQUALS && kp <= KEYWORD_SIZE - 2
    requires forall k | sz < k < sz + 1 + kp :: s[k] != EQUALS && s[k] != 0
    ensures KeyRun(s[sz + 1..]) == kp && (kp > 0 ==> KeyOk(s[sz + 1..][..kp]))
  {
    var r := s[sz + 1..];
    forall k | 0 <= k < kp ensures r[k] != EQUALS && r[k] != 0 {
      assert r[k] == s[sz + 1 + k];
    }
    assert r[kp] == EQUALS;
    assert forall k | 0 <= k < kp :: r[..kp][k] == r[k];
  }

  lemma KeyRefused(s: seq<byte>, sz: nat, kp: nat)
    requires 0 < sz == DigitRun(s) && sz + 1 + kp < |s| && s[sz + 1 + kp] != EQUALS
    requires forall k | sz < k < sz + 1 + kp :: s[k] != EQUALS
    requires kp + 2 >= KEYWORD_SIZE || s[sz + 1 + kp] == 0
    ensures ParseOne(s) == Bad
  {
    var r := s[sz + 1..];
    forall k | 0 <= k <= kp ensures r[k] != EQUALS {
      assert r[k] == s[sz + 1 + k];
    }
    assert KeyRun(r) > kp;
    assert r[..KeyRun(r)][kp] == s[sz + 1 + kp];
  }

  lemma NoEquals(s: seq<byte>, sz: nat)
    requires 0 < sz == DigitRun(s) < |s|
    requires forall k | sz < k < |s| :: s[k] != EQUALS
    ensures ParseOne(s) == Bad
  {
    var r := s[sz + 1..];
    forall k | 0 <= k < |r| ensures r[k] != EQUALS {
      assert r[k] == s[sz + 1 + k];
    }
  }

  // One round of the outer loop.
  method ReadRecord(s: seq<byte>) returns (r: Parsed)
    ensures r == ParseOne(s)
  {
    var ok, sz, kw := ScanKeyword(s);
    if !ok || sz >= 6 || kw == 0 {
      return Bad;
    }
    var x := DecodeDecimal64(s[..sz]);
    var fsz := x.value;
    assert fsz == DecimalValue(s[..sz]) by {
      FiveDigits(s[..sz]);
    }
    if fsz < sz + kw + 3 || fsz > |s| {
      return Bad;
    }
    var value := s[sz + 1 + kw + 1..sz + 1 + kw + 1 + (fsz - (sz + kw + 3))];
    r := Good(Param(s[sz + 1..][..kw], value), fsz);
  }

  lemma FiveDigits(s: seq<byte>)
    requires AllDigits(s) && |s| <= 5
    ensures DecimalValue(s) % UINT64_LIMIT == DecimalValue(s)
  {
    DecimalBound(s);
    PowMonotone(10, |s|, 5);
    assert Pow(10, 5) == 100000;
  }

  // ----------------------------------------------------------------------------------- round trip

  const MAX_RECORD := 99_999

  predicate Writable(p: Param) {
    KeyOk(p.key) && EQUALS !in p.key && |Record(p)| <= MAX_RECORD
  }

  lemma DigitRunUnique(s: seq<byte>, n: nat)
    requires n <= |s| && AllDigits(s[..n]) && (n < |s| ==> !IsDigit(s[n]))
    ensures DigitRun(s) == n
  {
    forall i | 0 <= i < n ensures IsDigit(s[i]) {
      assert IsDigit(s[..n][i]);
    }
  }

  lemma KeyRunUnique(s: seq<byte>, n: nat)
    requires n < |s| && EQUALS !in s[..n] && s[n] == EQUALS
    ensures KeyRun(s) == n
  {
    forall i | 0 <= i < n ensures s[i] != EQUALS {
      assert s[..n][i] in s[..n];
    }
  }

  // The parts of a record that is followed by anything.
  lemma RecordParts(p: Param, rest: seq<byte>)
    ensures var s, d := Record(p) + rest, Decimal(RecordLength(Payload(p)));
            && |Record(p)| == |d| + |p.key| + |p.value| + 3
            && s[..|d|] == d && s[|d|] == SPACE
            && s[|d| + 1..] == p.key + [EQUALS] + p.value + [NEWLINE] + rest
            && s[|d| + |p.key| + 2..|Record(p)| - 1] == p.value
            && s[|Record(p)|..] == rest
            && DigitRun(s) == |d| && DecimalValue(d) == |Record(p)|
  {
    hide Decimal, RecordLength, DecimalValue;
    var s, d := Record(p) + rest, Decimal(RecordLength(Payload(p)));
    assert s == d + [SPACE] + (p.key + [EQUALS] + p.value + [NEWLINE] + rest);
    assert s == d + [SPACE] + p.key + [EQUALS] + (p.value + [NEWLINE] + rest);
    DigitRunUnique(s, |d|);
    DecimalRoundTrip(RecordLength(Payload(p)));
    RecordSize(p);
  }

  lemma FiveDigitSize(p: Param)
    ensures |Decimal(RecordLength(Payload(p)))| < 6 <==> |Record(p)| <= MAX_RECORD
  {
    RecordSize(p);
    DigitsPow(RecordLength(Payload(p)), 5);
    assert Pow(10, 5) == MAX_RECORD + 1;
  }

  lemma WritableIsRead(p: Param, rest: seq<byte>)
    requires Writable(p)
    ensures ParseOne(Record(p) + rest) == Good(p, |Record(p)|)
  {
    hide Record, RecordLength, DecimalValue, Decimal;
    var s, d := Record(p) + rest, Decimal(RecordLength(Payload(p)));
    RecordParts(p, rest);
    FiveDigitSize(p);
    var tail := s[|d| + 1..];
    assert tail[..|p.key|] == p.key && tail[|p.key|] == EQUALS;
    KeyRunUnique(tail, |p.key|);
  }

  lemma ReadIsWritable(p: Param, rest: seq<byte>)
    requires ParseOne(Record(p) + rest) == Good(p, |Record(p)|)
    ensures Writable(p)
  {
    var s := Record(p) + rest;
    RecordParts(p, rest);
    FiveDigitSize(p);
    var r := s[DigitRun(s) + 1..];
    assert p.key == r[..KeyRun(r)];
  }

  // A record is read back exactly if its keyword fits the buffer of the parser, contains neither
  // '=' nor NUL, and the whole record is at most 99999 bytes long.
  lemma RecordRoundTrip(p: Param, rest: seq<byte>)
    ensures ParseOne(Record(p) + rest) == Good(p, |Record(p)|) <==> Writable(p)
  {
    if Writable(p) {
      WritableIsRead(p, rest);
    }
    if ParseOne(Record(p) + rest) == Good(p, |Record(p)|) {
      ReadIsWritable(p, rest);
    }
  }

  // A keyword of 63 bytes, or one with '=', is written but not read back.
  lemma KeywordsLost(rest: seq<byte>)
    ensures var p := Param(Fill(63, 97), [48]); ParseOne(Record(p) + rest) != Good(p, |Record(p)|)
    ensures var p := Param([97, EQUALS], [48]); ParseOne(Record(p) + rest) != Good(p, |Record(p)|)
  {
    RecordRoundTrip(Param(Fill(63, 97), [48]), rest);
    RecordRoundTrip(Param([97, EQUALS], [48]), rest);
    assert [97, EQUALS][1] == EQUALS;
  }

  // The parser gives back exactly the pairs that were written, in order.
  lemma {:induction false} RecordsRoundTrip(ps: seq<Param>)
    requires forall p | p in ps :: Writable(p) && p.value != []
    ensures ParseAll(Records(ps)) == Some(ps)
  {
    if ps != [] {
      RecordRoundTrip(ps[0], Records(ps[1..]));
      RecordParts(ps[0], Records(ps[1..]));
      ParseAdvances(Records(ps));
      RecordsRoundTrip(ps[1..]);
      assert ps == [ps[0]] + ps[1..];
    }
  }
}
