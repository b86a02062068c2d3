/**
 Which texts the parser of extended headers accepts, and what it makes of records that this writer never
 writes: a record with another keyword changes nothing, wherever it stands.
 */
module PaxExact {
  import opened Bytes
  import opened Numerals
  import opened PaxRecord
  import opened PaxParser
  import opened PaxFlags
  import opened TarHeader
  import opened TarBlock
  import opened PaxHeader
  import opened PaxDecoder
  import opened PaxRoundTrip

  // -------------------------------------------------------------------------------- single records

  // A record in the widest sense: one to five digits that give its length, any byte that is no digit, a keyword of
  // one to 62 bytes without '=' and NUL, '=', the value and one more byte.
  ghost predicate RecordOf(s: seq<byte>, p: Param, n: nat, d: seq<byte>, c: byte, x: byte) {
    && n <= |s| && s[..n] == d + [c] + p.key + [61] + p.value + [x]
    && 1 <= |d| <= 5 && AllDigits(d) && DecimalValue(d) == n && !(48 <= c <= 57)
    && 1 <= |p.key| <= 62 && 61 !in p.key && 0 !in p.key
  }

  ghost predicate IsRecord(s: seq<byte>, p: Param, n: nat) {
    exists d: seq<byte>, c: byte, x: byte :: RecordOf(s, p, n, d, c, x)
  }

  // The parts of a text, by their places.
  lemma Parts(s: seq<byte>, a: nat, k: nat, n: nat, d: seq<byte>, c: byte, key: seq<byte>, value: seq<byte>, x: byte)
    requires a == |d| && k == |key| && n == a + k + |value| + 3 <= |s|
    ensures s[..n] == d + [c] + key + [61] + value + [x] <==>
              && s[..a] == d && s[a] == c && s[a + 1..a + 1 + k] == key && s[a + 1 + k] == 61
              && s[a + k + 2..n - 1] == value && s[n - 1] == x
  {
    var t := d + [c] + key + [61] + value + [x];
    assert t[..a] == d && t[a] == c && t[a + 1..a + 1 + k] == key && t[a + 1 + k] == 61;
    assert t[a + k + 2..n - 1] == value && t[n - 1] == x;
    Glued(s, a, k, n);
    if s[..n] == t {
      Inside(s, n, 0, a);
      Inside(s, n, a + 1, a + 1 + k);
      Inside(s, n, a + k + 2, n - 1);
      assert s[..n][a] == s[a] && s[..n][a + 1 + k] == s[a + 1 + k] && s[..n][n - 1] == s[n - 1];
      assert t[0..a] == t[..a] && s[0..a] == s[..a];
    }
  }

  lemma Inside(s: seq<byte>, n: nat, i: nat, j: nat)
    requires i <= j <= n <= |s|
    ensures s[..n][i..j] == s[i..j]
  {
  }

  lemma Glued(s: seq<byte>, a: nat, k: nat, n: nat)
    requires a + k + 3 <= n <= |s|
    ensures s[..n] == s[..a] + [s[a]] + s[a + 1..a + 1 + k] + [s[a + 1 + k]] + s[a + k + 2..n - 1] + [s[n - 1]]
  {
    assert s[..a + 1] == s[..a] + [s[a]];
    assert s[..a + 1 + k] == s[..a + 1] + s[a + 1..a + 1 + k];
    assert s[..a + k + 2] == s[..a + 1 + k] + [s[a + 1 + k]];
    assert s[..n - 1] == s[..a + k + 2] + s[a + k + 2..n - 1];
    assert s[..n] == s[..n - 1] + [s[n - 1]];
  }

  // What the parser has seen of a record.
  lemma Seen(s: seq<byte>, p: Param, n: nat) returns (sz: nat, kw: nat)
    requires ParseOne(s) == Good(p, n)
    ensures 1 <= sz <= 5 && 1 <= kw <= 62 && n == sz + kw + |p.value| + 3 <= |s|
    ensures AllDigits(s[..sz]) && DecimalValue(s[..sz]) == n && !IsDigit(s[sz])
    ensures p.key == s[sz + 1..sz + 1 + kw] && p.value == s[sz + kw + 2..n - 1] && s[sz + 1 + kw] == 61
    ensures 61 !in p.key && 0 !in p.key
  {
    hide DecimalValue;
    sz := DigitRun(s);
    var rest := s[sz + 1..];
    kw := KeyRun(rest);
    SliceOfDrop(s, sz + 1, sz + 1, sz + 1 + kw);
    assert rest[..kw] == rest[0..kw];
    assert forall i | 0 <= i < kw :: p.key[i] == rest[i];
  }

  lemma ReadIsRecord(s: seq<byte>, p: Param, n: nat)
    requires ParseOne(s) == Good(p, n)
    ensures IsRecord(s, p, n)
  {
    hide DecimalValue, ParseOne;
    var sz, kw := Seen(s, p, n);
    Parts(s, sz, kw, n, s[..sz], s[sz], p.key, p.value, s[n - 1]);
    assert RecordOf(s, p, n, s[..sz], s[sz], s[n - 1]);
  }

  lemma SeenBack(s: seq<byte>, p: Param, n: nat, sz: nat, kw: nat)
    requires 1 <= sz <= 5 && 1 <= kw <= 62 && n == sz + kw + |p.value| + 3 <= |s|
    requires AllDigits(s[..sz]) && DecimalValue(s[..sz]) == n && !IsDigit(s[sz])
    requires p.key == s[sz + 1..sz + 1 + kw] && p.value == s[sz + kw + 2..n - 1] && s[sz + 1 + kw] == 61
    requires 61 !in p.key && 0 !in p.key
    ensures ParseOne(s) == Good(p, n)
  {
    hide DecimalValue, DigitRun, KeyRun;
    DigitRunUnique(s, sz);
    var rest := s[sz + 1..];
    SliceOfDrop(s, sz + 1, sz + 1, sz + 1 + kw);
    assert rest[..kw] == rest[0..kw] && rest[kw] == s[sz + 1 + kw];
    KeyRunUnique(rest, kw);
  }

  lemma RecordIsRead(s: seq<byte>, p: Param, n: nat, d: seq<byte>, c: byte, x: byte)
    requires RecordOf(s, p, n, d, c, x)
    ensures ParseOne(s) == Good(p, n)
  {
    hide DecimalValue, ParseOne;
    assert |s[..n]| == n;
    Parts(s, |d|, |p.key|, n, d, c, p.key, p.value, x);
    SeenBack(s, p, n, |d|, |p.key|);
  }

  // The parser reads exactly these texts as a record.
  lemma ParsedExactly(s: seq<byte>, p: Param, n: nat)
    ensures ParseOne(s) == Good(p, n) <==> IsRecord(s, p, n)
  {
    hide ParseOne, RecordOf;
    if ParseOne(s) == Good(p, n) {
      ReadIsRecord(s, p, n);
    }
    if IsRecord(s, p, n) {
      var d: seq<byte>, c: byte, x: byte :| RecordOf(s, p, n, d, c, x);
      RecordIsRead(s, p, n, d, c, x);
    }
  }

  // The records with a value.
  function WithValue(ps: seq<Param>): seq<Param> {
    if ps == [] then []
    else if ps[0].value == [] then WithValue(ps[1..])
    else [ps[0]] + WithValue(ps[1..])
  }

  // Whatever pairs are written, exactly those with a value come back, in order.
  lemma {:induction false} RecordsRead(ps: seq<Param>)
    requires forall p | p in ps :: Writable(p)
    ensures ParseAll(Records(ps)) == Some(WithValue(ps))
    decreases |ps|
  {
    hide ParseOne, Writable, Record;
    if ps != [] {
      RecordRoundTrip(ps[0], Records(ps[1..]));
      RecordParts(ps[0], Records(ps[1..]));
      ParseAdvances(Records(ps));
      RecordsRead(ps[1..]);
    }
  }

  // ------------------------------------------------------------------------------- other keywords

  // The keywords that the reader knows.
  predicate Known(key: seq<byte>) {
    || key == Text("path") || key == Text("size") || key == Text("SCHILY.realsize")
    || key == Text("ctime") || key == Text("mtime") || key == Text("atime") || key == Text("SCHILY.fflags")
  }

  lemma KeywordTexts()
    ensures KEY_PATH == Text("path") && KEY_SIZE == Text("size") && KEY_REALSIZE == Text("SCHILY.realsize")
    ensures KEY_CTIME == Text("ctime") && KEY_MTIME == Text("mtime") && KEY_ATIME == Text("atime")
    ensures KEY_FFLAGS == Text("SCHILY.fflags")
  {
  }

  // The records with these keywords.
  function KnownOnly(ps: seq<Param>): seq<Param> {
    if ps == [] then []
    else if Known(ps[0].key) then [ps[0]] + KnownOnly(ps[1..])
    else KnownOnly(ps[1..])
  }

  lemma OtherIgnored(d: Decoded, p: Param)
    requires !Known(p.key)
    ensures ApplyParam(d, p) == Some(d)
  {
    hide SetFlags, Split, DecodeSize;
    KeywordTexts();
  }

  // Records with other keywords change nothing, wherever they stand.
  lemma {:induction false} OthersIgnored(d: Decoded, ps: seq<Param>)
    ensures ApplyAll(d, ps) == ApplyAll(d, KnownOnly(ps))
    decreases |ps|
  {
    hide ApplyParam, Known;
    if ps != [] {
      var p, rest := ps[0], ps[1..];
      if !Known(p.key) {
        OtherIgnored(d, p);
        OthersIgnored(d, rest);
      } else {
        assert ([p] + KnownOnly(rest))[1..] == KnownOnly(rest);
        if ApplyParam(d, p).Some? {
          OthersIgnored(ApplyParam(d, p).value, rest);
        }
      }
    }
  }

  lemma {:induction false} KnownJoins(a: seq<Param>, b: seq<Param>)
    ensures KnownOnly(a + b) == KnownOnly(a) + KnownOnly(b)
    decreases |a|
  {
    if a == [] {
      assert a + b == b;
    } else {
      assert (a + b)[1..] == a[1..] + b;
      KnownJoins(a[1..], b);
    }
  }

  // Another record can be put in anywhere.
  lemma OtherPutIn(d: Decoded, a: seq<Param>, p: Param, b: seq<Param>)
    requires !Known(p.key)
    ensures ApplyAll(d, a + [p] + b) == ApplyAll(d, a + b)
  {
    hide Known, ApplyAll;
    KnownJoins(a + [p], b);
    KnownJoins(a, [p]);
    KnownJoins(a, b);
    assert [p][1..] == [] && KnownOnly([p]) == [];
    assert KnownOnly(a) + [] == KnownOnly(a);
    OthersIgnored(d, a + [p] + b);
    OthersIgnored(d, a + b);
  }

  // ----------------------------------------------------------------------------------- whole headers

  // A header like those of create_header, with these records and this type.
  function HeaderWith(qs: seq<Param>, fi: FileInfo, xname: seq<byte>, name: seq<byte>, kind: byte): (e: seq<byte>)
    requires |xname| <= NAME_ROOM
  {
    var data := Records(qs);
    Ustar(xname, XHDTYPE, |data|, false, fi.mtime) + Padded(data)
    + Ustar(NameField(name), kind, fi.size, fi.attr.readonly, fi.mtime)
  }

  // What both calls of add_header find in it; the size in the block does not count for some types.
  lemma HeaderWithDetected(qs: seq<Param>, fi: FileInfo, xname: seq<byte>, name: seq<byte>, kind: byte)
    returns (d1: Decoded, d2: Decoded)
    requires |xname| <= NAME_ROOM && 0 < |Records(qs)| < 1024 * 1024 && kind != 0
    ensures var e := HeaderWith(qs, fi, xname, name, kind);
            && d1 == FirstDecoded(|Records(qs)|) && 1024 < |e| == d1.headerSize
            && e[BLOCKSIZE..BLOCKSIZE + |Records(qs)|] == Records(qs)
            && e[|e| - BLOCKSIZE..] == Ustar(NameField(name), kind, fi.size, fi.attr.readonly, fi.mtime)
            && FirstHeader(e[..BLOCKSIZE]) == Some(d1) && SecondHeader(d1, e) == Some(d2)
    ensures d2 == d1.(kind := kind, info := if IgnoresSize(kind) then NO_INFO else NO_INFO.(size := Clip(fi.size)))
  {
    hide Ustar, Records, NameField;
    var data := Records(qs);
    var a := Ustar(xname, XHDTYPE, |data|, false, fi.mtime);
    var c := Ustar(NameField(name), kind, fi.size, fi.attr.readonly, fi.mtime);
    var e := HeaderWith(qs, fi, xname, name, kind);
    ThreeInOne(a, data, BlocksizeRound(|data|) - |data|, c, e);
    FirstDetected(xname, |data|, fi.mtime);
    d1 := FirstDecoded(|data|);
    LastBlockIs(d1, e);
    UstarChecks(NameField(name), kind, fi.size, fi.attr.readonly, fi.mtime);
    UstarMode(NameField(name), kind, fi.size, fi.attr.readonly, fi.mtime);
    UstarSize(NameField(name), kind, fi.size, fi.attr.readonly, fi.mtime);
    d2 := SecondHeader(d1, e).value;
  }

  // A header of create_header with any other records added to its own is read with the same name and the same
  // information.
  lemma OthersInHeader(fi: FileInfo, o: Options, xname: seq<byte>, name: seq<byte>, qs: seq<Param>)
    requires MachineInfo(fi) && ArchiveName(name) && |xname| <= NAME_ROOM
    requires KnownOnly(qs) == HeaderParams(fi, o, name) && |Records(qs)| < 1024 * 1024
    requires forall q | q in qs :: Writable(q) && q.value != []
    ensures Records(qs) != []
    ensures var e, d := HeaderWith(qs, fi, xname, name, Kind(fi)), SecondDecoded(fi, |Records(qs)|);
            && d.headerSize == |e| && FirstHeader(e[..BLOCKSIZE]) == Some(FirstDecoded(|Records(qs)|))
            && SecondHeader(FirstDecoded(|Records(qs)|), e) == Some(d)
            && ReadHeader(d, e) == if (fi.attr.directory || fi.size < INT64_MAX) && fi.realsize < INT64_MAX
                                   then Some(d.(name := name, info := Recovered(fi, o))) else None
  {
    hide Ustar, Records, NameField, KnownOnly, FirstHeader, SecondHeader, ApplyText, BlockInfo, HeaderParams;
    SomeRecords(fi, o, name, qs);
    var data := Records(qs);
    var d1, d2 := HeaderWithDetected(qs, fi, xname, name, Kind(fi));
    var e, d := HeaderWith(qs, fi, xname, name, Kind(fi)), SecondDecoded(fi, |data|);
    DirectorySize(fi);
    LastBlockIs(d, e);
    var h := e[|e| - BLOCKSIZE..];
    var d3 := BlockRead(d, h, fi, o, name);
    OthersInText(d3, fi, o, name, qs);
    ReadsText(d, e, h, data);
  }

  lemma DirectorySize(fi: FileInfo)
    ensures IgnoresSize(Kind(fi)) <==> fi.attr.directory
    ensures Kind(fi) != 0
  {
  }

  lemma {:induction false} SomeRecords(fi: FileInfo, o: Options, name: seq<byte>, qs: seq<Param>)
    requires MachineInfo(fi) && ArchiveName(name) && KnownOnly(qs) == HeaderParams(fi, o, name)
    ensures qs != [] && Records(qs) != []
  {
    var data := DataFacts(fi, o, name);
    assert HeaderParams(fi, o, name) != [];
  }

  lemma OthersInText(d: Decoded, fi: FileInfo, o: Options, name: seq<byte>, qs: seq<Param>)
    requires MachineInfo(fi) && ArchiveName(name) && d.kind == Kind(fi) && d.info == PlainInfo(fi)
    requires !NeedsPath(name, InfoParams(fi, o)) ==> d.name == name
    requires KnownOnly(qs) == HeaderParams(fi, o, name)
    requires forall q | q in qs :: Writable(q) && q.value != []
    ensures ApplyText(d, Records(qs))
            == if (fi.attr.directory || fi.size < INT64_MAX) && fi.realsize < INT64_MAX
               then Some(d.(name := name, info := Recovered(fi, o))) else None
  {
    hide Records, KnownOnly, ApplyAll, HeaderParams, NeedsPath, Writable;
    RecordsRoundTrip(qs);
    OthersIgnored(d, qs);
    TextRead(d, fi, o, name);
    ParamsParsed(fi, o, name);
  }
}
