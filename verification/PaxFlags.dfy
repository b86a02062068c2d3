/**
 The file attributes in an extended header: SCHILY.fflags, a list of flag names between commas.
 */
module PaxFlags {
  import opened Bytes

  // The attribute bits that the coder or the decoder knows.
  datatype Attr = Attr(readonly: bool, hidden: bool, system: bool, archive: bool, device: bool,
                       sparse: bool, reparse: bool, compressed: bool, directory: bool, normal: bool)

  const NO_ATTR := Attr(false, false, false, false, false, false, false, false, false, false)

  // m_attr_file and m_attr_time of the encoder.
  datatype Options = Options(saveReadonly: bool, saveHidden: bool, saveSystem: bool, saveArchive: bool,
                             saveCtime: bool, saveAtime: bool)

  const COMMA: byte := 44
  const READONLY: seq<byte> := [114, 101, 97, 100, 111, 110, 108, 121]
  const HIDDEN: seq<byte> := [104, 105, 100, 100, 101, 110]
  const SYSTEM: seq<byte> := [115, 121, 115, 116, 101, 109]
  const ARCHIVED: seq<byte> := [97, 114, 99, 104, 105, 118, 101, 100]
  const TOPDIR: seq<byte> := [116, 111, 112, 100, 105, 114]
  const SPARSE: seq<byte> := [115, 112, 97, 114, 115, 101]
  const REPARSE: seq<byte> := [114, 101, 112, 97, 114, 115, 101]
  const COMPRESSED: seq<byte> := [99, 111, 109, 112, 114, 101, 115, 115, 101, 100]

  function SavedAttr(a: Attr, o: Options): Attr {
    a.(readonly := a.readonly && o.saveReadonly, hidden := a.hidden && o.saveHidden,
    system := a.system && o.saveSystem, archive := a.archive && o.saveArchive)
  }

  function One(b: bool, s: seq<byte>): seq<seq<byte>> {
    if b then [s] else []
  }

  function FlagNames(a: Attr): seq<seq<byte>> {
    One(a.readonly, READONLY) + One(a.hidden, HIDDEN) + One(a.system, SYSTEM) + One(a.archive, ARCHIVED)
    + One(a.device, TOPDIR) + One(a.sparse, SPARSE) + One(a.reparse, REPARSE) + One(a.compressed, COMPRESSED)
  }

  // Every name followed by a comma.
  function Listed(names: seq<seq<byte>>): seq<byte> {
    if names == [] then [] else Listed(names[..|names| - 1]) + names[|names| - 1] + [COMMA]
  }

  // The list without its last comma.
  function Joined(names: seq<seq<byte>>): seq<byte> {
    if names == [] then [] else Listed(names[..|names| - 1]) + names[|names| - 1]
  }

  method PutName(b: bool, name: seq<byte>, text: seq<byte>, ghost names: seq<seq<byte>>) returns (r: seq<byte>)
    requires text == Listed(names)
    ensures r == Listed(names + One(b, name))
  {
    r := text;
    if b {
      r := r + name + [COMMA];
      assert (names + [name])[..|names|] == names;
    }
    assert !b ==> names + One(b, name) == names;
  }

  // add_attr up to the call of add_param_str.
  method FlagText(a: Attr) returns (text: seq<byte>)
    ensures text == Joined(FlagNames(a))
  {
    text := [];
    ghost var n := [];
    text := PutName(a.readonly, READONLY, text, n);
    assert n + One(a.readonly, READONLY) == One(a.readonly, READONLY);
    n := One(a.readonly, READONLY);
    text := PutName(a.hidden, HIDDEN, text, n);
    n := n + One(a.hidden, HIDDEN);
    text := PutName(a.system, SYSTEM, text, n);
    n := n + One(a.system, SYSTEM);
    text := PutName(a.archive, ARCHIVED, text, n);
    n := n + One(a.archive, ARCHIVED);
    text := PutName(a.device, TOPDIR, text, n);
    n := n + One(a.device, TOPDIR);
    text := PutName(a.sparse, SPARSE, text, n);
    n := n + One(a.sparse, SPARSE);
    text := PutName(a.reparse, REPARSE, text, n);
    n := n + One(a.reparse, REPARSE);
    text := PutName(a.compressed, COMPRESSED, text, n);
    n := n + One(a.compressed, COMPRESSED);
    text := DropComma(text, n);
  }

  method DropComma(text: seq<byte>, ghost names: seq<seq<byte>>) returns (r: seq<byte>)
    requires text == Listed(names)
    ensures r == Joined(names)
  {
    r := text;
    if r != [] {
      r := r[..|r| - 1];
    }
  }

  // The pieces between the commas.
  function Split(s: seq<byte>): (r: seq<seq<byte>>)
    ensures r != []
  {
    if s == [] then [[]]
    else
      var r := Split(s[..|s| - 1]);
      var c := s[|s| - 1];
      if c == COMMA then r + [[]] else r[..|r| - 1] + [r[|r| - 1] + [c]]
  }

  lemma {:induction false} SplitAppend(s: seq<byte>, t: seq<byte>)
    requires COMMA !in t
    ensures Split(s + t) == Split(s)[..|Split(s)| - 1] + [Split(s)[|Split(s)| - 1] + t]
  {
    if t == [] {
      assert s + t == s;
      var last := Split(s)[|Split(s)| - 1];
      assert last + t == last;
    } else {
      var t' := t[..|t| - 1];
      assert (s + t)[..|s + t| - 1] == s + t';
      SplitAppend(s, t');
      var last := Split(s)[|Split(s)| - 1];
      assert last + t == last + t' + [t[|t| - 1]];
      assert t[|t| - 1] in t;
    }
  }

  lemma {:induction false} SplitListed(names: seq<seq<byte>>)
    requires forall n | n in names :: COMMA !in n
    ensures Split(Listed(names)) == names + [[]]
  {
    if names != [] {
      var k := |names| - 1;
      var l, n := Listed(names[..k]), names[k];
      SplitListed(names[..k]);
      SplitAppend(l, n);
      assert [] + n == n && (names[..k] + [[]])[..k] == names[..k];
      assert Split(l + n) == names[..k] + [n];
      assert (l + n + [COMMA])[..|l + n|] == l + n;
      assert names[..k] + [n] == names;
    }
  }

  // Splitting the text that add_attr writes gives back the names.
  lemma SplitJoined(names: seq<seq<byte>>)
    requires names != [] && forall n | n in names :: COMMA !in n
    ensures Split(Joined(names)) == names
  {
    var k := |names| - 1;
    SplitListed(names[..k]);
    SplitAppend(Listed(names[..k]), names[k]);
    assert [] + names[k] == names[k] && (names[..k] + [[]])[..k] == names[..k];
    assert names[..k] + [names[k]] == names;
  }

  function SetFlags(a: Attr, pieces: seq<seq<byte>>): Attr {
    a.(readonly := a.readonly || READONLY in pieces, hidden := a.hidden || HIDDEN in pieces,
    system := a.system || SYSTEM in pieces, archive := a.archive || ARCHIVED in pieces)
  }

  function SetFlag(a: Attr, piece: seq<byte>): Attr {
    a.(readonly := a.readonly || piece == READONLY, hidden := a.hidden || piece == HIDDEN,
    system := a.system || piece == SYSTEM, archive := a.archive || piece == ARCHIVED)
  }

  lemma NamesDiffer()
    ensures READONLY != ARCHIVED && HIDDEN != SYSTEM
    ensures READONLY !in {TOPDIR, SPARSE, REPARSE, COMPRESSED} && ARCHIVED !in {TOPDIR, SPARSE, REPARSE, COMPRESSED}
    ensures HIDDEN !in {TOPDIR, SPARSE, REPARSE, COMPRESSED} && SYSTEM !in {TOPDIR, SPARSE, REPARSE, COMPRESSED}
  {
    assert READONLY[0] != ARCHIVED[0] && HIDDEN[0] != SYSTEM[0];
    assert HIDDEN[0] != TOPDIR[0] && HIDDEN[0] != SPARSE[0];
    assert SYSTEM[0] != TOPDIR[0] && SYSTEM[1] != SPARSE[1];
  }

  lemma OnePieceMore(attr: Attr, done: seq<seq<byte>>, piece: seq<byte>)
    ensures SetFlags(attr, done + [piece]) == SetFlag(SetFlags(attr, done), piece)
  {
    InSnoc(done, piece, READONLY);
    InSnoc(done, piece, HIDDEN);
    InSnoc(done, piece, SYSTEM);
    InSnoc(done, piece, ARCHIVED);
  }

  lemma InSnoc(done: seq<seq<byte>>, piece: seq<byte>, x: seq<byte>)
    ensures x in done + [piece] <==> x in done || x == piece
  {
  }

  // The SCHILY.fflags branch of parse_pax_param.
  method ParseFlags(str: seq<byte>, attr: Attr) returns (a: Attr)
    ensures a == SetFlags(attr, Split(str))
  {
    a := attr;
    var n, p := 0, 0;
    ghost var done := [];
    while p <= |str|
      invariant 0 <= n <= p <= |str| + 1
      invariant p <= |str| ==> Split(str[..p]) == done + [str[n..p]] && a == SetFlags(attr, done)
      invariant p == |str| + 1 ==> a == SetFlags(attr, Split(str))
    {
      if p == |str| || str[p] == COMMA {
        var piece := str[n..p];
        OnePieceMore(attr, done, piece);
        a := SetFlag(a, piece);
        done := done + [piece];
        n := p + 1;
        if p < |str| {
          assert str[..p + 1][..p] == str[..p];
          assert str[n..p + 1] == [];
        } else {
          assert str[..p] == str;
        }
      } else {
        assert str[..p + 1][..p] == str[..p];
        assert str[n..p + 1] == str[n..p] + [str[p]];
      }
      p := p + 1;
    }
  }

  lemma FlagMembers(a: Attr, n: seq<byte>)
    ensures n in FlagNames(a) <==>
            || (a.readonly && n == READONLY) || (a.hidden && n == HIDDEN)
            || (a.system && n == SYSTEM) || (a.archive && n == ARCHIVED)
            || (a.device && n == TOPDIR) || (a.sparse && n == SPARSE)
            || (a.reparse && n == REPARSE) || (a.compressed && n == COMPRESSED)
  {
  }

  lemma NoCommas()
    ensures COMMA !in READONLY && COMMA !in HIDDEN && COMMA !in SYSTEM && COMMA !in ARCHIVED
    ensures COMMA !in TOPDIR && COMMA !in SPARSE && COMMA !in REPARSE && COMMA !in COMPRESSED
  {
  }

  // The four flags that the parser knows come back, whatever else was set.
  lemma FlagsRoundTrip(attr: Attr, a: Attr)
    requires FlagNames(a) != []
    ensures SetFlags(attr, Split(Joined(FlagNames(a))))
            == attr.(readonly := attr.readonly || a.readonly, hidden := attr.hidden || a.hidden,
                     system := attr.system || a.system, archive := attr.archive || a.archive)
  {
    var names := FlagNames(a);
    forall n | n in names ensures COMMA !in n {
      FlagMembers(a, n);
      NoCommas();
    }
    SplitJoined(names);
    NamesDiffer();
    FlagMembers(a, READONLY);
    FlagMembers(a, HIDDEN);
    FlagMembers(a, SYSTEM);
    FlagMembers(a, ARCHIVED);
  }
}
