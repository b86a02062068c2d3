/**
 Records of a pax extended header (IEEE Std 1003.1-2001, pax utility, section "pax Extended
 Header"): "%d <keyword>=<value>\n", where the number is the length of the whole record, itself
 included.
 */
module PaxRecord {
  import opened Bytes
  import opened Numerals

  const BLOCKSIZE := 512
  const SPACE: byte := 32
  const EQUALS: byte := 61
  const NEWLINE: byte := 10

  function BlocksizeRound(size: nat): (r: nat)
    ensures r % BLOCKSIZE == 0 && size <= r < size + BLOCKSIZE
  {
    var x := size + BLOCKSIZE - 1;
    x - x % BLOCKSIZE
  }

  // --------------------------------------------------------------------- the self-describing length

  predicate CountsItself(n: nat, payload: nat) {
    n == payload + Digits(n)
  }

  function RecordLength(payload: nat): nat {
    var k := Digits(payload + 1);
    if Digits(payload + k) == k then payload + k else payload + k + 1
  }

  lemma {:induction false} PowAbove(n: nat)
    ensures n < Pow(10, n)
  {
    if n > 0 {
      PowAbove(n - 1);
    }
  }

  // Adding the length of the number can add at most one digit.
  lemma OneMoreDigit(payload: nat)
    ensures var k := Digits(payload + 1);
            && k <= Digits(payload + k) <= k + 1
            && (Digits(payload + k) != k ==> Digits(payload + k + 1) == k + 1)
            && (payload + 11 < UINT32_LIMIT ==> k <= 10)
  {
    var k := Digits(payload + 1);
    DigitsPow(payload + 1, k);
    PowAbove(k);
    DigitsMonotone(payload + 1, payload + k);
    DigitsMonotone(payload + k, payload + k + 1);
    DigitsPow(payload + k, k + 1);
    DigitsPow(payload + k + 1, k + 1);
    if payload + 11 < UINT32_LIMIT {
      MachineDigits(payload + 1);
    }
  }

  lemma RecordLengthCounts(payload: nat)
    ensures CountsItself(RecordLength(payload), payload)
  {
    OneMoreDigit(payload);
  }

  // The length is the least number that counts itself.
  lemma RecordLengthLeast(payload: nat, n: nat)
    requires CountsItself(n, payload)
    ensures RecordLength(payload) <= n
  {
    RecordLengthCounts(payload);
    var k := Digits(payload + 1);
    DigitsMonotone(payload + 1, n);
    DigitsMonotone(payload + k, n);
  }

  // The loop of add_param_str that guesses the length of the number until it fits.
  method NumberLength(payload: nat, nbuf: array<byte>) returns (start: nat, sz: nat)
    requires payload + 11 < UINT32_LIMIT && nbuf.Length == 16
    modifies nbuf
    ensures payload + sz == RecordLength(payload)
    ensures start + sz < nbuf.Length && nbuf[start..start + sz] == Decimal(payload + sz)
  {
    OneMoreDigit(payload);
    ghost var k := Digits(payload + 1);
    var szn := 1;
    var n := (payload + szn) % UINT32_LIMIT;
    assert n == payload + szn;
    start, sz := ToDecimal(n, nbuf, 16);
    while sz != szn
      invariant 1 <= szn <= k + 1 && szn <= 11
      invariant start + sz == 15 && n == payload + szn && sz == Digits(n) && nbuf[start..start + sz] == Decimal(n)
      invariant szn == 1 || szn == k || (szn == k + 1 && Digits(payload + k) != k)
      decreases 12 - szn
    {
      szn := if szn == 1 then sz else szn + 1;
      n := (payload + szn) % UINT32_LIMIT;
      assert n == payload + szn;
      start, sz := ToDecimal(n, nbuf, 16);
    }
  }

  // ---------------------------------------------------------------------------------- the writer

  datatype Param = Param(key: seq<byte>, value: seq<byte>)

  function Payload(p: Param): nat {
    |p.key| + |p.value| + 3
  }

  function Record(p: Param): (r: seq<byte>) {
    Decimal(RecordLength(Payload(p))) + [SPACE] + p.key + [EQUALS] + p.value + [NEWLINE]
  }

  lemma RecordSize(p: Param)
    ensures |Record(p)| == RecordLength(Payload(p))
  {
    RecordLengthCounts(Payload(p));
  }

  function Records(ps: seq<Param>): seq<byte> {
    if ps == [] then [] else Record(ps[0]) + Records(ps[1..])
  }

  lemma {:induction false} RecordsAppend(ps: seq<Param>, p: Param)
    ensures Records(ps + [p]) == Records(ps) + Record(p)
  {
    if ps == [] {
      assert Records([p]) == Record(p) + Records([]);
    } else {
      assert (ps + [p])[1..] == ps[1..] + [p];
      RecordsAppend(ps[1..], p);
    }
  }

  // The extended header under construction, behind its own header block.
  class XHeader {
    const buf: array<byte>
    const cap: nat
    var pos: nat
    var used: nat
    ghost var params: seq<Param>

    ghost predicate Valid()
      reads this, buf
    {
      && BLOCKSIZE + used <= buf.Length && BLOCKSIZE + cap <= buf.Length
      && pos <= used
      && used == (if pos == 0 then BLOCKSIZE else BlocksizeRound(pos))
      && Holds(buf[..], used, pos, params)
    }

    // init; the first two blocks are cleared.
    constructor (buf: array<byte>)
      requires buf.Length >= 3 * BLOCKSIZE
      modifies buf
      ensures Valid() && params == [] && pos == 0 && this.buf == buf
      ensures cap == BlocksizeRound(buf.Length) - 2 * BLOCKSIZE
      ensures buf[..BLOCKSIZE] == Zeros(BLOCKSIZE)
    {
      this.buf := buf;
      this.cap := BlocksizeRound(buf.Length) - 2 * BLOCKSIZE;
      this.pos := 0;
      this.used := BLOCKSIZE;
      this.params := [];
      new;
      forall i | 0 <= i < 2 * BLOCKSIZE {
        buf[i] := 0;
      }
      assert buf[BLOCKSIZE..BLOCKSIZE + used] == Zeros(BLOCKSIZE);
    }

    method Copy(src: seq<byte>)
      requires BLOCKSIZE + pos + |src| <= buf.Length
      modifies this`pos, buf
      ensures pos == old(pos) + |src|
      ensures buf[..] == Splice(old(buf[..]), BLOCKSIZE + old(pos), src)
    {
      forall i | 0 <= i < |src| {
        buf[BLOCKSIZE + pos + i] := src[i];
      }
      pos := pos + |src|;
    }

    // Copies one more piece of a record that starts at o.
    method CopyMore(src: seq<byte>, ghost b: seq<byte>, ghost o: nat, ghost done: seq<byte>)
      requires o + |done| + |src| <= |b| && BLOCKSIZE + pos == o + |done|
      requires buf[..] == Splice(b, o, done)
      modifies this`pos, buf
      ensures pos == old(pos) + |src|
      ensures buf[..] == Splice(b, o, done + src)
    {
      SpliceTwice(b, o, done, src);
      Copy(src);
    }

    method WriteRecord(p: Param, np: seq<byte>)
      requires np == Decimal(RecordLength(Payload(p)))
      requires BLOCKSIZE + pos + |Record(p)| <= buf.Length
      modifies this`pos, buf
      ensures pos == old(pos) + |Record(p)|
      ensures buf[..] == Splice(old(buf[..]), BLOCKSIZE + old(pos), Record(p))
    {
      ghost var b, o := buf[..], BLOCKSIZE + pos;
      NothingSpliced(b, o);
      ghost var done := [];
      CopyMore(np, b, o, done);
      done := np;
      CopyMore([SPACE], b, o, done);
      done := done + [SPACE];
      CopyMore(p.key, b, o, done);
      done := done + p.key;
      CopyMore([EQUALS], b, o, done);
      done := done + [EQUALS];
      if p.value != [] {
        CopyMore(p.value, b, o, done);
      }
      assert p.value == [] ==> done + p.value == done;
      done := done + p.value;
      CopyMore([NEWLINE], b, o, done);
    }

    // memset(m_buf + m_used, 0, usize - m_used)
    method Clear(usize: nat)
      requires used <= usize && BLOCKSIZE + usize <= buf.Length && Holds(buf[..], used, pos, params)
      modifies buf
      ensures Holds(buf[..], usize, pos, params) && buf[..BLOCKSIZE] == old(buf[..BLOCKSIZE])
    {
      ghost var was := buf[..];
      forall i | used <= i < usize {
        buf[BLOCKSIZE + i] := 0;
      }
      HoldsClear(was, buf[..], used, usize, pos, params);
    }

    // Makes room for len more bytes, block by block.
    method Reserve(len: nat) returns (ok: bool)
      requires Valid() && len > 0
      modifies this`used, buf
      ensures var need := BlocksizeRound(pos + len); ok <==> need <= old(used) || need < cap
      ensures !ok ==> used == old(used) && buf[..] == old(buf[..])
      ensures ok ==> used == BlocksizeRound(pos + len) && Holds(buf[..], used, pos, params)
      ensures buf[..BLOCKSIZE] == old(buf[..BLOCKSIZE])
    {
      hide Splice;
      Room(pos, len, used);
      if pos + len > used {
        var usize := BlocksizeRound(pos + len);
        if usize >= cap {
          return false;
        }
        Clear(usize);
        used := usize;
      }
      ok := true;
    }

    method AppendRecord(p: Param, np: seq<byte>)
      requires BLOCKSIZE + used <= buf.Length && BLOCKSIZE + cap <= buf.Length
      requires Holds(buf[..], used, pos, params) && used == BlocksizeRound(pos + |Record(p)|)
      requires np == Decimal(RecordLength(Payload(p)))
      modifies this`pos, this`params, buf
      ensures Valid() && params == old(params) + [p]
      ensures buf[..BLOCKSIZE] == old(buf[..BLOCKSIZE])
    {
      hide Record, Splice;
      RecordSize(p);
      HoldsMore(buf[..], used, pos, params, p);
      WriteRecord(p, np);
      params := params + [p];
    }

    // Fails, and changes nothing, exactly if the record needs a block beyond the capacity.
    method AddParamStr(p: Param) returns (ok: bool)
      requires Valid() && Payload(p) + 11 < UINT32_LIMIT
      modifies this, buf
      ensures Valid() && buf[..BLOCKSIZE] == old(buf[..BLOCKSIZE])
      ensures var need := BlocksizeRound(old(pos) + |Record(p)|); ok <==> need <= old(used) || need < cap
      ensures params == if ok then old(params) + [p] else old(params)
      ensures ok ==> used == BlocksizeRound(old(pos) + |Record(p)|)
      ensures !ok ==> pos == old(pos) && used == old(used) && buf[..] == old(buf[..])
    {
      hide Record, RecordLength, Decimal, BlocksizeRound, Records, Splice;
      var nbuf := new byte[16];
      var start, sz := NumberLength(Payload(p), nbuf);
      RecordSize(p);
      var len := Payload(p) + sz;
      assert BlocksizeRound(pos + len) == BlocksizeRound(pos + |Record(p)|);
      ok := Reserve(len);
      if ok {
        AppendRecord(p, nbuf[start..start + sz]);
      }
    }
  }

  // A record that fits into the used part does not change its rounded size.
  lemma Room(pos: nat, len: nat, used: nat)
    requires used == (if pos == 0 then BLOCKSIZE else BlocksizeRound(pos)) && len > 0
    ensures if pos + len <= used then BlocksizeRound(pos + len) == used else BlocksizeRound(pos + len) > used
  {
    if pos + len <= used {
      var q := used / BLOCKSIZE;
      assert used == q * BLOCKSIZE;
      var x := pos + len + BLOCKSIZE - 1;
      ModUnique(x, BLOCKSIZE, q, x - used);
    }
  }

  // The used part of the extended header is the records so far and zeros behind them.
  ghost predicate Holds(b: seq<byte>, used: nat, pos: nat, params: seq<Param>) {
    && BLOCKSIZE + used <= |b| && pos <= used
    && |Records(params)| == pos
    && b[BLOCKSIZE..BLOCKSIZE + used] == Records(params) + Zeros(used - pos)
  }

  lemma HoldsClear(b: seq<byte>, b': seq<byte>, used: nat, usize: nat, pos: nat, params: seq<Param>)
    requires Holds(b, used, pos, params) && used <= usize && BLOCKSIZE + usize <= |b'|
    requires b'[..BLOCKSIZE + used] == b[..BLOCKSIZE + used]
    requires forall i | BLOCKSIZE + used <= i < BLOCKSIZE + usize :: b'[i] == 0
    ensures Holds(b', usize, pos, params)
  {
    SliceOfTake(b', BLOCKSIZE + used, BLOCKSIZE, BLOCKSIZE + used);
    SliceOfTake(b, BLOCKSIZE + used, BLOCKSIZE, BLOCKSIZE + used);
    var r, z := Records(params), Zeros(used - pos);
    assert b'[BLOCKSIZE..BLOCKSIZE + usize] == b'[BLOCKSIZE..BLOCKSIZE + used] + Zeros(usize - used);
    MoreZeros(r, used - pos, usize - used);
  }

  lemma MoreZeros(r: seq<byte>, m: nat, n: nat)
    ensures r + Zeros(m) + Zeros(n) == r + Zeros(m + n)
  {
  }

  lemma NothingSpliced(b: seq<byte>, o: nat)
    requires o <= |b|
    ensures Splice(b, o, []) == b
  {
  }

  lemma RegionSplice(b: seq<byte>, pos: nat, used: nat, r: seq<byte>)
    requires BLOCKSIZE + used <= |b| && pos + |r| <= used
    ensures var part := b[BLOCKSIZE..BLOCKSIZE + used];
            Splice(b, BLOCKSIZE + pos, r)[BLOCKSIZE..BLOCKSIZE + used] == part[..pos] + r + part[pos + |r|..]
  {
  }

  lemma HoldsMore(b: seq<byte>, used: nat, pos: nat, params: seq<Param>, p: Param)
    requires Holds(b, used, pos, params) && pos + |Record(p)| <= used
    ensures var b' := Splice(b, BLOCKSIZE + pos, Record(p));
            && Holds(b', used, pos + |Record(p)|, params + [p])
            && b'[..BLOCKSIZE] == b[..BLOCKSIZE]
  {
    RecordsAppend(params, p);
    RegionMore(b, pos, used, Records(params), Record(p));
  }

  lemma RegionMore(b: seq<byte>, pos: nat, used: nat, done: seq<byte>, r: seq<byte>)
    requires BLOCKSIZE + used <= |b| && pos + |r| <= used && |done| == pos
    requires b[BLOCKSIZE..BLOCKSIZE + used] == done + Zeros(used - pos)
    ensures var b' := Splice(b, BLOCKSIZE + pos, r);
            && b'[BLOCKSIZE..BLOCKSIZE + used] == done + r + Zeros(used - (pos + |r|))
            && b'[..BLOCKSIZE] == b[..BLOCKSIZE]
  {
    var b' := Splice(b, BLOCKSIZE + pos, r);
    assert b'[..BLOCKSIZE] == b[..BLOCKSIZE + pos][..BLOCKSIZE];
    RegionSplice(b, pos, used, r);
    RegionParts(b[BLOCKSIZE..BLOCKSIZE + used], done, used - pos, |r|);
  }

  lemma RegionParts(part: seq<byte>, done: seq<byte>, free: nat, n: nat)
    requires part == done + Zeros(free) && n <= free
    ensures part[..|done|] == done && part[|done| + n..] == Zeros(free - n)
  {
  }
}
