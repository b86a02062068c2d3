/**
 The names in an archive and in its index: a file is listed under the path that it was packed under, and which
 part of the name of a foreign entry gets lost.
 */
module ArchiveNames {
  import opened Bytes
  import opened PaxFlags
  import opened PaxDecoder
  import opened CacheItem
  import opened PaxHeader
  import PaxName
  import opened Archive
  import opened ArchiveRoundTrip

  // A path with backslashes and no slashes.
  predicate PlainPath(path: seq<wchar>) {
    forall i | 0 <= i < |path| :: 0 < path[i] < 128 && path[i] != 47
  }

  function Narrow(w: seq<wchar>): (s: seq<byte>)
    requires forall i | 0 <= i < |w| :: w[i] < 128
    ensures |s| == |w| && forall i | 0 <= i < |w| :: s[i] == w[i]
  {
    seq(|w|, i requires 0 <= i < |w| => w[i])
  }

  function Wide(s: seq<byte>): (w: seq<wchar>)
    ensures |w| == |s| && forall i | 0 <= i < |s| :: w[i] == s[i]
  {
    seq(|s|, i requires 0 <= i < |s| => s[i])
  }

  // The conversion from UTF-8 keeps ASCII.
  ghost predicate KeepsAscii(widen: Widen) {
    forall s: seq<byte> | SevenBit(s) :: widen(s) == Wide(s)
  }

  lemma {:induction false} SeparatorsBoth(w: seq<wchar>)
    requires forall i | 0 <= i < |w| :: w[i] < 128
    ensures PaxName.WideSeparators(w) == PaxName.Separators(Narrow(w))
  {
    if w != [] {
      var rest := w[..|w| - 1];
      SeparatorsBoth(rest);
      assert Narrow(w)[..|w| - 1] == Narrow(rest);
    }
  }

  // The path, with or without a backslash at its end, has as many separators as the part behind the directory.
  lemma PartsOfPath(path: seq<wchar>, closed: bool)
    requires PlainPath(path) && path != [] && (closed || path[|path| - 1] != 92)
    ensures PaxName.PartsOf(path + if closed then [92] else []) == PaxName.Separators(Narrow(path))
  {
    var fn: seq<wchar> := path + if closed then [92] else [];
    assert closed ==> fn[..|fn| - 1] == path;
    assert !closed ==> fn == path;
    SeparatorsBoth(path);
  }

  function IndexName(widen: Widen, name: seq<byte>): seq<wchar> {
    BackSlashed(UpToNul(widen(Stripped(name))))
  }

  // A file in whatever directory is listed under the path that it was to get in the archive; directories with a
  // backslash at their end.
  lemma ListedUnderItsPath(widen: Widen, front: seq<byte>, path: seq<wchar>, closed: bool, directory: bool)
    requires KeepsAscii(widen) && PlainPath(path) && path != [] && (closed || path[|path| - 1] != 92)
    ensures var u, fn := front + [92] + Narrow(path), path + if closed then [92] else [];
            IndexName(widen, PaxName.NameIn(u, PaxName.PartsOf(fn), directory)) == path + if directory then [92] else []
  {
    hide Stripped, PaxName.NameIn, PaxName.Slashed, PaxName.PartsOf, KeepsAscii, UpToNul, BackSlashed;
    PartsOfPath(path, closed);
    PaxName.NameListed(front, Narrow(path), directory);
    var s := PaxName.Slashed(Narrow(path)) + if directory then [47] else [];
    WidenedBack(widen, path, s, directory);
  }

  lemma WidenedBack(widen: Widen, path: seq<wchar>, s: seq<byte>, directory: bool)
    requires KeepsAscii(widen) && PlainPath(path)
    requires s == PaxName.Slashed(Narrow(path)) + if directory then [47] else []
    ensures BackSlashed(UpToNul(widen(s))) == path + if directory then [92] else []
  {
    hide UpToNul;
    forall i | 0 <= i < |s| ensures 0 < s[i] < 128 {
    }
    assert SevenBit(s) && widen(s) == Wide(s);
    WholeName(Wide(s));
    var all: seq<wchar> := path + if directory then [92] else [];
    forall i | 0 <= i < |s| ensures BackSlashed(Wide(s))[i] == all[i] {
    }
  }

  // The name of the 'x' block: of a directory of 100 bytes or more only its beginning, or else the directory,
  // "/PaxHeaders" and at most 89 bytes of the last part with its slash; the byte at 99 is always NUL.
  lemma XNameExactly(dir: seq<byte>, last: seq<byte>)
    requires last != []
    ensures var cut := if |last| >= 89 then last[..89] else last;
            PaxName.XNameIn(dir + last, |dir|)
            == WithNul(WithoutSlash(if |dir| >= 100 then dir[..100] else dir + Text("/PaxHeaders") + cut))
  {
    var name := dir + last;
    assert Text("/PaxHeaders") == [47, 80, 97, 120, 72, 101, 97, 100, 101, 114, 115];
    assert |dir| >= 100 ==> name[..100] == dir[..100];
    assert name[..|dir|] == dir;
    assert |last| >= 89 ==> name[|dir|..|dir| + 89] == last[..89];
    assert name[|dir|..|dir| + |last|] == last;
  }

  function WithNul(s: seq<byte>): seq<byte> {
    if |s| >= 100 then s[..99] + [0] + s[100..] else s
  }

  function WithoutSlash(s: seq<byte>): seq<byte> {
    if s != [] && s[|s| - 1] == 47 then s[..|s| - 1] else s
  }

  // ----------------------------------------------------------------------------------- foreign names

  // What the scanner takes away in front of a name: a dot or a slash, and a slash behind it.
  lemma StrippedExactly(name: seq<byte>)
    ensures Stripped(name)
            == if name == [] || (name[0] != 46 && name[0] != 47) then name
               else if |name| > 1 && name[1] == 47 then name[2..]
               else name[1..]
  {
    assert |name| > 1 ==> name[1..][0] == name[1] && name[1..][1..] == name[2..];
  }

  // A name is listed unchanged exactly if it begins with neither a dot nor a slash.
  lemma KeptName(name: seq<byte>)
    ensures Stripped(name) == name <==> name == [] || (name[0] != 46 && name[0] != 47)
  {
    StrippedExactly(name);
  }

  // The dot of a hidden file is lost, and with it the difference to another file.
  lemma HiddenName(name: seq<byte>)
    requires name != [] && name[0] != 46 && name[0] != 47
    ensures Stripped([46] + name) == name == Stripped(name)
  {
    StrippedExactly([46] + name);
    StrippedExactly(name);
    assert ([46] + name)[1..] == name;
  }

  // ------------------------------------------------------------------------------------- the item

  lemma UpToNulIs(w: seq<wchar>)
    ensures var r := UpToNul(w); r <= w && 0 !in r && (|r| < |w| ==> w[|r|] == 0)
  {
    if w != [] && w[0] != 0 {
      UpToNulIs(w[1..]);
      assert w == [w[0]] + w[1..];
    }
  }

  // Which entries get an item: a name that is empty without its prefix gets none, and is no error; one that cannot
  // be converted, is empty in front of its first NUL or has 32735 characters or more is an error.
  lemma AddedExactly(widen: Widen, p: Decoded, pos: nat, n: nat, total: nat)
    ensures var name := Stripped(p.name);
            var w := widen(name);
            var r := Added(widen, true, p, pos, n, total);
            && (name == [] ==> r == Some((p, [])))
            && (name != [] ==> (r.None? <==> w == [] || w[0] == 0 || |w| >= 32735))
            && (name != [] && r.Some? ==>
                  && r.value.0 == p && |r.value.1| == 1
                  && var i := r.value.1[0];
                  && i.name == IndexName(widen, p.name) != []
                  && i.dataSize == p.info.size && i.ctime == p.info.ctime && i.mtime == p.info.mtime
                  && i.packSize == total && i.pos == pos && i.hdrPackSize == n && i.hdrSize == p.headerSize)
  {
    UpToNulIs(widen(Stripped(p.name)));
  }

  // The attributes of an item are the FILE_ATTRIBUTE bits of Windows.
  lemma AttributeBits()
    ensures AttrBits(NO_ATTR) == 0
    ensures AttrBits(NO_ATTR.(readonly := true)) == 1
    ensures AttrBits(NO_ATTR.(hidden := true)) == 2
    ensures AttrBits(NO_ATTR.(system := true)) == 4
    ensures AttrBits(NO_ATTR.(directory := true)) == 0x10
    ensures AttrBits(NO_ATTR.(archive := true)) == 0x20
    ensures AttrBits(NO_ATTR.(device := true)) == 0x40
    ensures AttrBits(NO_ATTR.(normal := true)) == 0x80
    ensures AttrBits(NO_ATTR.(sparse := true)) == 0x200
    ensures AttrBits(NO_ATTR.(reparse := true)) == 0x400
    ensures AttrBits(NO_ATTR.(compressed := true)) == 0x800
    ensures AttrBits(Attr(true, true, true, true, true, true, true, true, true, true)) == 0xEF7
  {
  }
}
