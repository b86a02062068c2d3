/**
 The two frame walkers as they read a file.
 */
module ZstdFrame {
  import opened Bytes
  import opened ZstdWalk

  const MAGIC: seq<byte> := [0x28, 0xB5, 0x2F, 0xFD]
  const HEADER_SIZE_MAX := 18

  // An open file: its bytes and the current position, which may lie behind the end.
  class File {
    const data: seq<byte>
    var pos: nat

    constructor (data: seq<byte>)
      ensures this.data == data && pos == 0
    {
      this.data := data;
      pos := 0;
    }

    // ReadFile: at most n bytes, fewer only at the end of the file.
    method Read(n: nat) returns (b: seq<byte>)
      modifies this
      ensures pos == old(pos) + |b|
      ensures old(pos) + n <= |data| ==> b == data[old(pos)..old(pos) + n]
      ensures old(pos) + n > |data| ==> |b| < n || n == 0
    {
      var end := if pos + n <= |data| then pos + n else |data|;
      b := if pos <= end then data[pos..end] else [];
      pos := pos + |b|;
    }

    // SetFilePointerEx from the beginning of the file.
    method Seek(p: nat)
      modifies this
      ensures pos == p
    {
      pos := p;
    }
  }

  ghost predicate HeaderLimit(parse: Parser) {
    forall b: seq<byte> ::
      match parse(b) case Error => true case Need(n) => n <= HEADER_SIZE_MAX
      case Parsed(size, _, _, _) => size <= HEADER_SIZE_MAX
  }

  // The text of a frame: the bytes that the caller has read already and the rest of the file.
  ghost function FrameText(prefix: seq<byte>, f: File): seq<byte>
    requires f.pos <= |f.data|
    reads f
  {
    prefix + f.data[f.pos..]
  }

  lemma TextSlice(prefix: seq<byte>, data: seq<byte>, at: nat, i: nat, j: nat)
    requires at <= |data| && |prefix| <= i <= j && at + j - |prefix| <= |data|
    ensures (prefix + data[at..])[i..j] == data[at + i - |prefix|..at + j - |prefix|]
  {
    var n := |prefix|;
    assert (prefix + data[at..])[i..j] == data[at..][i - n..j - n];
    SliceOfDrop(data, at, at + i - n, at + j - n);
  }

  class FrameInfo {
    var skippable: bool
    var checksumFlag: bool
    var contentSize: nat
    var offset: nat
    var block: Block

    constructor ()
    {
      skippable, checksumFlag, contentSize, offset, block := false, false, 0, 0, Block(false, 0, 0);
    }

    // What init has found is in the fields; for a skippable frame it leaves the mark of the last block alone.
    ghost predicate Shows(o: Opened)
      reads this
    {
      offset == o.offset
      && match o
         case Ordinary(_, checksum, content, b) =>
           !skippable && checksumFlag == checksum && contentSize == content && block == b
         case Skippable(_, size) => skippable && contentSize == size && block.kind == RAW && block.stored == size
    }

    // init; b is all of the buffer.
    method Init(parse: Parser, b: seq<byte>) returns (ok: bool)
      modifies this
      ensures ok <==> ZstdWalk.Init(parse, b).Some?
      ensures ok ==> Shows(ZstdWalk.Init(parse, b).value) && (skippable ==> block.last == old(block.last))
    {
      ok := false;
      match parse(b) {
        case Error =>
        case Need(_) =>
        case Parsed(size, skips, checksum, content) =>
          if size == 0 {
            return;
          }
          skippable, checksumFlag, contentSize, offset := skips, checksum, content, size;
          if skippable {
            if size + 4 > |b| {
              return;
            }
            block := Block(block.last, RAW, At(b, offset, 4));
            contentSize := block.stored;
            offset := offset + 4;
          } else {
            if size + BLOCK_HEADER > |b| {
              return;
            }
            block := BlockAt(b, offset);
            offset := offset + BLOCK_HEADER;
          }
          ok := true;
      }
    }

    // init, and the checks of its callers on its result.
    method InitChecked(parse: Parser, b: seq<byte>) returns (ok: bool)
      modifies this
      ensures ok <==> InitFrame(parse, b).Some?
      ensures ok ==> InitFrame(parse, b) == Some(Start(|b|, checksumFlag, block))
      ensures ok ==> contentSize == ContentSize(parse, b, |b|)
    {
      assert b[..|b|] == b;
      ok := Init(parse, b);
      ok := ok && !skippable && offset == |b|;
    }

    // Reads more of the frame behind the first pos bytes in the buffer.
    method Fill(f: File, buf: array<byte>, pos: nat, sz: nat, ghost s: seq<byte>, ghost delta: int) returns (ok: bool)
      requires pos + sz <= buf.Length && pos <= |s| && buf[..pos] == s[..pos] && f.pos == delta + pos
      requires Behind(f, s, delta, pos)
      modifies f, buf
      ensures ok <==> pos + sz <= |s|
      ensures ok ==> buf[..pos + sz] == s[..pos + sz] && f.pos == delta + pos + sz
    {
      var b := f.Read(sz);
      ok := |b| == sz;
      if ok {
        assert b == s[pos..pos + sz];
        forall i | 0 <= i < sz {
          buf[pos + i] := b[i];
        }
        assert buf[..pos + sz] == s[..pos] + b;
        assert s[..pos + sz] == s[..pos] + s[pos..pos + sz];
      }
    }

    // The part of read_frame up to the first block header; the first k bytes are in the buffer already.
    method ReadStart(parse: Parser, f: File, buf: array<byte>, k: nat, ghost s: seq<byte>, ghost delta: int)
      returns (ok: bool, pos: nat)
      requires k <= PREFIX && k <= buf.Length && k <= |s| && buf[..k] == s[..k]
      requires f.pos == delta + k && Behind(f, s, delta, k)
      modifies this, f, buf
      ensures ok <==> buf.Length > PREFIX && FrameStart(parse, s).Some? && FrameStart(parse, s).value.len <= buf.Length
      ensures ok ==> pos <= |s| && FrameStart(parse, s) == Some(Start(pos, checksumFlag, block))
      ensures ok ==> contentSize == ContentSize(parse, s, pos)
      ensures ok ==> pos <= buf.Length && buf[..pos] == s[..pos] && f.pos == delta + pos && Behind(f, s, delta, pos)
    {
      pos := k;
      if buf.Length <= PREFIX {
        return false, pos;
      }
      ok := Fill(f, buf, pos, PREFIX - k, s, delta);
      if !ok {
        return;
      }
      pos := PREFIX;
      var n := 0;
      match parse(buf[..PREFIX]) {
        case Error => return false, pos;
        case Need(m) => n := m + BLOCK_HEADER;
        case Parsed(size, _, _, _) => n := size + BLOCK_HEADER;
      }
      if n < PREFIX || n > buf.Length {
        return false, pos;
      }
      if n > PREFIX {
        ok := Fill(f, buf, pos, n - PREFIX, s, delta);
        if !ok {
          return;
        }
        pos := n;
      }
      ghost var t := s[..pos];
      assert buf[..pos] == t && t[..|t|] == t;
      ok := InitChecked(parse, buf[..pos]);
    }

    // read_frame into a buffer; the size of the frame, or None.
    method ReadFrameInto(parse: Parser, f: File, buf: array<byte>, skipMagic: bool, ghost s: seq<byte>)
      returns (size: Option<nat>)
      requires buf.Length >= 4 && f.pos <= |f.data|
      requires s == FrameText(if skipMagic then buf[..4] else [], f)
      modifies this, f, buf
      ensures size == if skipMagic && old(buf[..4]) != MAGIC then None else ReadBuffered(parse, s, buf.Length)
      ensures size.Some? ==> size.value <= |s| && size.value <= buf.Length && buf[..size.value] == s[..size.value]
      ensures size.Some? ==> f.pos == old(f.pos) - (if skipMagic then 4 else 0) + size.value
      ensures size.Some? ==>
                && FrameStart(parse, s).Some?
                && var st := FrameStart(parse, s).value;
                && st.len <= |s| && st == Start(st.len, checksumFlag, block)
                && contentSize == ContentSize(parse, s, st.len)
    {
      if skipMagic && buf[..4] != MAGIC {
        return None;
      }
      var k := if skipMagic then 4 else 0;
      ghost var delta: int := f.pos - k;
      TextBehind(f, buf[..k], s);
      var ok, pos := ReadStart(parse, f, buf, k, s, delta);
      if !ok {
        return None;
      }
      size := WalkBlocks(f, buf, pos, s, delta);
    }

    // One round of the loop over the blocks.
    method ReadBlock(f: File, buf: array<byte>, pos: nat, b: Block, ghost s: seq<byte>, ghost delta: int)
      returns (ok: bool, next: nat, b': Block)
      requires pos <= |s| && pos <= buf.Length && buf[..pos] == s[..pos]
      requires f.pos == delta + pos && Behind(f, s, delta, pos)
      modifies f, buf
      ensures next == pos + b.stored + Tail(b.last, checksumFlag)
      ensures ok <==> next <= buf.Length && next <= |s|
      ensures ok ==> buf[..next] == s[..next] && f.pos == delta + next
      ensures ok && !b.last ==> b' == BlockAt(s, next - BLOCK_HEADER)
    {
      var sz := b.stored + Tail(b.last, checksumFlag);
      next, b' := pos + sz, b;
      if next > buf.Length {
        return false, next, b;
      }
      ok := true;
      if sz > 0 {
        ok := Fill(f, buf, pos, sz, s, delta);
      }
      if ok && !b.last {
        ghost var t := buf[..next];
        SameHeader(s, t, next);
        assert t[next - BLOCK_HEADER..next] == buf[next - BLOCK_HEADER..next];
        b' := BlockAt(buf[next - BLOCK_HEADER..next], 0);
      }
    }

    // The loop over the blocks.
    method WalkBlocks(f: File, buf: array<byte>, start: nat, ghost s: seq<byte>, ghost delta: int)
      returns (size: Option<nat>)
      requires start <= |s| && start <= buf.Length && buf[..start] == s[..start]
      requires f.pos == delta + start && Behind(f, s, delta, start)
      modifies f, buf
      ensures size == WalkBuffered(s, start, block, checksumFlag, buf.Length)
      ensures size.Some? ==> size.value <= |s| && size.value <= buf.Length && buf[..size.value] == s[..size.value]
      ensures size.Some? ==> f.pos == delta + size.value
    {
      hide BlockAt;
      var pos, b := start, block;
      ghost var goal := WalkBuffered(s, start, block, checksumFlag, buf.Length);
      while true
        invariant start <= pos <= |s| && pos <= buf.Length && buf[..pos] == s[..pos] && f.pos == delta + pos
        invariant WalkBuffered(s, pos, b, checksumFlag, buf.Length) == goal
        decreases |s| - pos
      {
        var ok, next, b' := ReadBlock(f, buf, pos, b, s, delta);
        if !ok {
          return None;
        }
        if b.last {
          return Some(next);
        }
        pos, b := next, b';
      }
    }

    // read_frame without a buffer.
    method ReadFrameSize(parse: Parser, f: File, skipMagic: bool, ghost s: seq<byte>) returns (size: Option<nat>)
      requires HeaderLimit(parse) && f.pos <= |f.data|
      requires s == FrameText(if skipMagic then MAGIC else [], f)
      modifies this, f
      ensures size == if skipMagic && old(f.pos) < 4 then None else ReadSeeking(parse, s)
      ensures size.Some? ==> f.pos == old(f.pos) - (if skipMagic then 4 else 0) + size.value
    {
      if skipMagic && f.pos < 4 {
        return None;
      }
      var buf := new byte[HEADER_SIZE_MAX + 16](_ => 0);
      var k := 0;
      if skipMagic {
        k := 4;
        buf[0], buf[1], buf[2], buf[3] := MAGIC[0], MAGIC[1], MAGIC[2], MAGIC[3];
        assert buf[..4] == MAGIC;
      }
      ghost var delta: int := f.pos - k;
      TextBehind(f, buf[..k], s);
      var ok, pos := ReadStart(parse, f, buf, k, s, delta);
      if ok {
        size := SkipBlocks(f, pos, s, delta);
      } else {
        size := None;
      }
      StartFits(parse, s, buf.Length);
    }

    // The loop over the block headers.
    method SkipBlocks(f: File, start: nat, ghost s: seq<byte>, ghost delta: int) returns (size: Option<nat>)
      requires start <= |s| && f.pos == delta + start && Behind(f, s, delta, start)
      modifies f
      ensures size == WalkSeeking(s, start, block, checksumFlag)
      ensures size.Some? ==> f.pos == delta + size.value
    {
      var fpos, b := f.pos, block;
      ghost var pos, goal := start, WalkSeeking(s, start, block, checksumFlag);
      var walked := start;
      while true
        invariant start <= pos <= |s| && fpos == delta + pos && walked == pos
        invariant WalkSeeking(s, pos, b, checksumFlag) == goal
        decreases |s| - pos
      {
        fpos := fpos + b.stored;
        f.Seek(fpos);
        var sz := Tail(b.last, checksumFlag);
        var h := [];
        ghost var at := pos + b.stored;
        if sz > 0 {
          h := f.Read(sz);
          if |h| != sz {
            return None;
          }
          fpos := fpos + sz;
        }
        walked := walked + b.stored + sz;
        if b.last {
          return Some(walked);
        }
        assert h == s[at..at + sz];
        HeaderBytes(s, h, at);
        pos := at + sz;
        b := BlockAt(h, 0);
      }
    }
  }

  // From pos on, the text is what the file has at the place delta further.
  ghost predicate Behind(f: File, s: seq<byte>, delta: int, pos: nat) {
    && delta + |s| == |f.data| && pos <= |s| && delta + pos >= 0
    && forall j, k | pos <= j <= k <= |s| :: s[j..k] == f.data[delta + j..delta + k]
  }

  lemma SameHeader(s: seq<byte>, t: seq<byte>, pos: nat)
    requires BLOCK_HEADER <= pos <= |s| && t == s[..pos]
    ensures BlockAt(t[pos - BLOCK_HEADER..pos], 0) == BlockAt(s, pos - BLOCK_HEADER)
  {
    var h := t[pos - BLOCK_HEADER..pos];
    assert h[0] == s[pos - 3] && h[1] == s[pos - 2] && h[2] == s[pos - 1];
  }

  lemma TextBehind(f: File, prefix: seq<byte>, s: seq<byte>)
    requires f.pos <= |f.data| && s == FrameText(prefix, f)
    ensures |prefix| <= |s| && s[..|prefix|] == prefix && Behind(f, s, f.pos - |prefix|, |prefix|)
  {
    forall j, k | |prefix| <= j <= k <= |s|
      ensures s[j..k] == f.data[f.pos - |prefix| + j..f.pos - |prefix| + k]
    {
      TextSlice(prefix, f.data, f.pos, j, k);
    }
  }

  lemma HeaderBytes(s: seq<byte>, h: seq<byte>, at: nat)
    requires at + BLOCK_HEADER <= |s| && h == s[at..at + BLOCK_HEADER]
    ensures BlockAt(h, 0) == BlockAt(s, at)
  {
    assert h[0] == s[at] && h[1] == s[at + 1] && h[2] == s[at + 2];
  }

  // The buffer of the walker without a buffer of its own is large enough for every header.
  lemma StartFits(parse: Parser, s: seq<byte>, n: nat)
    requires HeaderLimit(parse) && n >= HEADER_SIZE_MAX + BLOCK_HEADER
    ensures FrameStart(parse, s).Some? ==> FrameStart(parse, s).value.len <= n
  {
  }
}
