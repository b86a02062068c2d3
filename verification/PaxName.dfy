/**
 The name of an archive entry: from the path of a file, in UTF-8, create_header keeps as many parts as the path
 has that it is to get in the archive, and replaces the backslashes in place; the name of the 'x' block comes
 from the same bytes.
 */
module PaxName {
  import opened Bytes
  import opened CacheItem
  import opened PaxRecord
  import opened PaxFlags
  import opened TarHeader
  import opened PaxHeader
  import opened Archive

  const DOT: byte := 46
  const SLASH: byte := 47
  const BACKSLASH: byte := 92
  const PAX_HEADERS: seq<byte> := [47, 80, 97, 120, 72, 101, 97, 100, 101, 114, 115] // "/PaxHeaders"

  function Separators(s: seq<byte>): nat {
    if s == [] then 0 else Separators(s[..|s| - 1]) + if s[|s| - 1] == BACKSLASH then 1 else 0
  }

  function Slashed(s: seq<byte>): (r: seq<byte>)
    ensures |r| == |s| && forall i | 0 <= i < |s| :: r[i] == if s[i] == BACKSLASH then SLASH else s[i]
  {
    seq(|s|, i requires 0 <= i < |s| => if s[i] == BACKSLASH then SLASH else s[i])
  }

  // The place behind the separator with k others behind it; the beginning, if there are not so many.
  function Start(u: seq<byte>, k: nat): (at: nat)
    ensures at <= |u|
    ensures 0 < at ==> u[at - 1] == BACKSLASH
  {
    if u == [] then 0
    else
      var rest := u[..|u| - 1];
      if u[|u| - 1] != BACKSLASH then Start(rest, k)
      else if k == 0 then |u| else Start(rest, k - 1)
  }

  function NameIn(u: seq<byte>, k: nat, directory: bool): seq<byte> {
    [DOT, SLASH] + Slashed(u[Start(u, k)..]) + if directory then [SLASH] else []
  }

  // What stands in the name field of the 'x' block for a name whose last part starts behind the slash at p.
  function XNameIn(name: seq<byte>, p: nat): seq<byte>
    requires p < |name|
  {
    if p >= NAME_SIZE then Ended(Trimmed(name[..NAME_SIZE]))
    else
      var n := if |name| - p >= NAME_SIZE - |PAX_HEADERS| then NAME_SIZE - |PAX_HEADERS| else |name| - p;
      Ended(Trimmed(name[..p] + PAX_HEADERS + name[p..p + n]))
  }

  // The last byte of the name field is always NUL; a longer name runs on behind it.
  function Ended(s: seq<byte>): (r: seq<byte>)
    ensures |r| == |s|
  {
    if |s| >= NAME_SIZE then s[NAME_SIZE - 1 := 0] else s
  }

  function Trimmed(s: seq<byte>): seq<byte> {
    if s != [] && s[|s| - 1] == SLASH then s[..|s| - 1] else s
  }

  // ------------------------------------------------------------------------------------ what they mean

  lemma {:induction false} StartBehind(front: seq<byte>, rel: seq<byte>, k: nat)
    requires Separators(rel) == k
    ensures Start(front + [BACKSLASH] + rel, k) == |front| + 1
    decreases |rel|
  {
    var u := front + [BACKSLASH] + rel;
    if rel == [] {
      assert u == front + [BACKSLASH];
    } else {
      var short := rel[..|rel| - 1];
      assert u[..|u| - 1] == front + [BACKSLASH] + short;
      StartBehind(front, short, if rel[|rel| - 1] == BACKSLASH then k - 1 else k);
    }
  }

  lemma {:induction false} StartOfAll(u: seq<byte>, k: nat)
    requires Separators(u) <= k
    ensures Start(u, k) == 0
    decreases |u|
  {
    if u != [] {
      StartOfAll(u[..|u| - 1], if u[|u| - 1] == BACKSLASH then k - 1 else k);
    }
  }

  // A file that lies at rel in some directory front gets the name "./" and rel with slashes; a path with too few
  // parts is kept as a whole.
  lemma RelativeName(front: seq<byte>, rel: seq<byte>, u: seq<byte>, k: nat, directory: bool)
    ensures NameIn(front + [BACKSLASH] + rel, Separators(rel), directory)
            == [DOT, SLASH] + Slashed(rel) + if directory then [SLASH] else []
    ensures Separators(u) <= k ==>
              NameIn(u, k, directory) == [DOT, SLASH] + Slashed(u) + if directory then [SLASH] else []
  {
    StartBehind(front, rel, Separators(rel));
    assert (front + [BACKSLASH] + rel)[|front| + 1..] == rel;
    if Separators(u) <= k {
      StartOfAll(u, k);
      assert u[0..] == u;
    }
  }

  lemma PrefixStripped(t: seq<byte>)
    ensures Stripped([DOT, SLASH] + t) == t
  {
    assert ([DOT, SLASH] + t)[1..] == [SLASH] + t && ([SLASH] + t)[1..] == t;
  }

  // The scanner takes the "./" away again.
  lemma NameListed(front: seq<byte>, rel: seq<byte>, directory: bool)
    ensures Stripped(NameIn(front + [BACKSLASH] + rel, Separators(rel), directory))
            == Slashed(rel) + if directory then [SLASH] else []
  {
    hide Start, Slashed, Stripped, NameIn;
    RelativeName(front, rel, [], 0, directory);
    var text := Slashed(rel);
    var tail: seq<byte> := if directory then [SLASH] else [];
    assert [DOT, SLASH] + text + tail == [DOT, SLASH] + (text + tail);
    PrefixStripped(text + tail);
  }

  lemma {:induction false} StartsInOrder(u: seq<byte>, k: nat)
    ensures Start(u, k) <= Start(u, 0)
    decreases |u|
  {
    if u != [] {
      var rest := u[..|u| - 1];
      if u[|u| - 1] != BACKSLASH {
        StartsInOrder(rest, k);
      }
    }
  }

  lemma NoNul(u: seq<byte>, at: nat, name: seq<byte>, tail: seq<byte>)
    requires at <= |u| && 0 !in u && 0 !in tail && name == [DOT, SLASH] + Slashed(u[at..]) + tail
    ensures 0 !in name
  {
    var text := Slashed(u[at..]);
    forall i | 0 <= i < |text| ensures text[i] != 0 {
      assert u[at + i] in u;
    }
  }

  lemma LastSlash(u: seq<byte>, at: nat, last: nat, name: seq<byte>, tail: seq<byte>)
    requires at <= last <= |u| && (last > 0 ==> u[last - 1] == BACKSLASH)
    requires name == [DOT, SLASH] + Slashed(u[at..]) + tail
    ensures name[last - at + 1] == SLASH
  {
    var text := Slashed(u[at..]);
    if last > at {
      assert text[last - 1 - at] == SLASH;
      assert name[2 + (last - 1 - at)] == text[last - 1 - at];
    }
  }

  lemma XNameFits(name: seq<byte>, p: nat)
    requires p < |name|
    ensures |XNameIn(name, p)| <= NAME_ROOM
  {
  }

  // The names meet what the header needs of them.
  lemma NamesFit(u: seq<byte>, k: nat, directory: bool)
    requires |u| <= MAX_NAME - 3 && 0 !in u
    ensures var name, p := NameIn(u, k, directory), Start(u, 0) - Start(u, k) + 1;
            && ArchiveName(name) && 1 <= p < |name| && name[p] == SLASH && |XNameIn(name, p)| <= NAME_ROOM
  {
    hide XNameIn;
    StartsInOrder(u, k);
    var name, at, last := NameIn(u, k, directory), Start(u, k), Start(u, 0);
    var tail: seq<byte> := if directory then [SLASH] else [];
    NoNul(u, at, name, tail);
    LastSlash(u, at, last, name, tail);
    XNameFits(name, last - at + 1);
  }

  // ----------------------------------------------------------------------------------- the imperative form

  // The number of separators in the path that the entry gets; a separator at its end does not count.
  method KeptParts(fn: seq<wchar>) returns (k: nat)
    ensures k == PartsOf(fn)
  {
    k := 0x7FFF_FFFF;
    if |fn| > 0 {
      var path := if fn[|fn| - 1] == BACKSLASH then fn[..|fn| - 1] else fn;
      k := 0;
      var i: nat := |path|;
      assert path[..i] == path;
      while i != 0
        invariant i <= |path| && k + WideSeparators(path[..i]) == WideSeparators(path)
      {
        assert path[..i][..i - 1] == path[..i - 1];
        if path[i - 1] == BACKSLASH {
          k := k + 1;
        }
        i := i - 1;
      }
    }
  }

  function WideSeparators(s: seq<wchar>): nat {
    if s == [] then 0 else WideSeparators(s[..|s| - 1]) + if s[|s| - 1] == BACKSLASH then 1 else 0
  }

  function PartsOf(fn: seq<wchar>): nat {
    if fn == [] then 0x7FFF_FFFF
    else WideSeparators(if fn[|fn| - 1] == BACKSLASH then fn[..|fn| - 1] else fn)
  }

  // Where the kept part and the last part of a path start.
  method FindStarts(u: seq<byte>, k: nat) returns (start: nat, last: nat)
    ensures start == Start(u, k) && last == Start(u, 0)
  {
    start, last := 0, 0;
    var i: nat, e: nat := |u|, 0;
    assert u[..i] == u;
    while i != 0
      invariant i <= |u| && e <= k && Start(u, k) == Start(u[..i], k - e)
      invariant if e == 0 then last == 0 && Start(u, 0) == Start(u[..i], 0) else last == Start(u, 0)
    {
      assert u[..i][..i - 1] == u[..i - 1];
      if u[i - 1] == BACKSLASH {
        if e == 0 {
          last := i;
        }
        e := e + 1;
        if e == k + 1 {
          start := i;
          return;
        }
      }
      i := i - 1;
    }
  }

  method ReplaceSlashes(a: array<byte>, start: nat, end: nat)
    requires start <= end <= a.Length
    modifies a
    ensures a[start..end] == Slashed(old(a[start..end])) && a[..start] == old(a[..start]) && a[end..] == old(a[end..])
  {
    var i := start;
    while i != end
      invariant start <= i <= end
      invariant forall j | start <= j < i :: a[j] == if old(a[j]) == BACKSLASH then SLASH else old(a[j])
      invariant forall j | 0 <= j < a.Length && !(start <= j < i) :: a[j] == old(a[j])
    {
      if a[i] == BACKSLASH {
        a[i] := SLASH;
      }
      i := i + 1;
    }
  }

  lemma DotSlashed(t: seq<byte>)
    ensures Slashed([DOT, BACKSLASH] + t) == [DOT, SLASH] + Slashed(t)
  {
  }

  // The name of the entry, in place of its path in a[2..2 + n], between start and the result.
  method WriteName(a: array<byte>, n: nat, start: nat, directory: bool) returns (end: nat)
    requires n + 4 <= a.Length && start <= n
    modifies a
    ensures end == 2 + n + (if directory then 1 else 0)
    ensures a[start..end] == [DOT, SLASH] + Slashed(old(a[2..2 + n])[start..]) + if directory then [SLASH] else []
  {
    hide Slashed;
    ghost var t := a[2..2 + n][start..];
    a[start], a[start + 1] := DOT, BACKSLASH;
    assert a[start..2 + n] == [DOT, BACKSLASH] + t;
    ReplaceSlashes(a, start, 2 + n);
    DotSlashed(t);
    end := 2 + n;
    if directory {
      ghost var name := a[start..end];
      a[end] := SLASH;
      assert a[start..end + 1] == name + [SLASH];
      end := end + 1;
    }
  }

  // set_tar_name for the 'x' block.
  method XName(name: seq<byte>, p: nat) returns (x: seq<byte>)
    requires p < |name|
    ensures x == XNameIn(name, p)
  {
    if p >= NAME_SIZE {
      x := name[..NAME_SIZE];
    } else {
      x := name[..p] + PAX_HEADERS;
      var n := |name| - p;
      if n >= NAME_SIZE - |PAX_HEADERS| {
        n := NAME_SIZE - |PAX_HEADERS|;
      }
      x := x + name[p..p + n];
    }
    if x != [] && x[|x| - 1] == SLASH {
      x := x[..|x| - 1];
    }
    if |x| >= NAME_SIZE {
      x := x[NAME_SIZE - 1 := 0];
    }
  }

  // Paths in the archive that create_header refuses.
  predicate BadPath(fn: seq<wchar>) {
    |fn| > 32767 || fn == [BACKSLASH]
  }

  // The header of a file with the path u of which the part behind k separators, counted from its end, is kept.
  function NamedHeader(fi: FileInfo, o: Options, u: seq<byte>, k: nat): seq<byte>
    requires MachineInfo(fi) && |u| <= MAX_NAME - 3 && 0 !in u
  {
    var name := NameIn(u, k, fi.attr.directory);
    NamesFit(u, k, fi.attr.directory);
    EncodeHeader(fi, o, XNameIn(name, Start(u, 0) - Start(u, k) + 1), name)
  }

  // create_header, from the path of the file in UTF-8 on, which stands in a[2..2 + n]; it is empty if the
  // conversion failed.  The entry gets the path fn in the archive.
  method CreateNamed(fi: FileInfo, o: Options, a: array<byte>, n: nat, fn: seq<wchar>, buf: array<byte>)
    returns (size: Option<nat>)
    requires MachineInfo(fi) && n <= MAX_NAME - 3 && n + 4 <= a.Length && 0 !in a[2..2 + n] && a != buf
    requires buf.Length >= 4 * BLOCKSIZE
    modifies a, buf
    ensures var name := NameIn(old(a[2..2 + n]), PartsOf(fn), fi.attr.directory);
            size.Some? <==>
              && n > 0 && |fn| <= 32767 && fn != [92]
              && FitsBuffer(Records(HeaderParams(fi, o, name)), BlocksizeRound(buf.Length) - 2 * BLOCKSIZE)
    ensures size.Some? ==>
              size.value <= buf.Length && buf[..size.value] == NamedHeader(fi, o, old(a[2..2 + n]), PartsOf(fn))
  {
    hide EncodeHeader, FitsBuffer, HeaderParams, Start, XNameIn, PartsOf;
    ghost var u := a[2..2 + n];
    var k := KeptParts(fn);
    NamesFit(u, k, fi.attr.directory);
    if n == 0 || BadPath(fn) {
      return None;
    }
    var start, last := FindStarts(a[2..2 + n], k);
    var end := WriteName(a, n, start, fi.attr.directory);
    var name := a[start..end];
    assert name == NameIn(u, k, fi.attr.directory);
    var xname := XName(name, last - start + 1);
    size := CreateHeader(fi, o, xname, name, buf);
  }
}
