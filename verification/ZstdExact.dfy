/**
 What the two frame walkers accept, as a condition on the bytes: the frame with a buffer has to be there, the
 other walker accepts a frame that is cut off inside its last block as well.
 */
module ZstdExact {
  import opened Bytes
  import opened ZstdWalk

  // A frame of n bytes at the start of s: a header of head bytes, the blocks, and a checksum if the header says so.
  ghost predicate FrameOf(parse: Parser, s: seq<byte>, n: nat, head: nat, ws: seq<Coded>, checksum: bool) {
    && HeaderOf(parse, s, head, checksum) && WellFormed(ws)
    && n == head + StoredSize(ws) + ChecksumSize(checksum) <= |s|
    && s[head..head + StoredSize(ws)] == Blocks(ws)
  }

  ghost predicate IsFrame(parse: Parser, s: seq<byte>, n: nat) {
    exists head: nat, ws: seq<Coded>, checksum: bool :: FrameOf(parse, s, n, head, ws, checksum)
  }

  // A frame of n bytes without a checksum that lacks its last bytes, all of them of the content of its last block.
  ghost predicate CutOff(parse: Parser, s: seq<byte>, n: nat, missing: seq<byte>, head: nat, ws: seq<Coded>) {
    && FrameOf(parse, s + missing, n, head, ws, false) && n == |s| + |missing|
    && 0 < |missing| <= |ws[|ws| - 1].body|
  }

  ghost predicate IsCutOff(parse: Parser, s: seq<byte>, n: nat) {
    exists missing: seq<byte>, head: nat, ws: seq<Coded> :: CutOff(parse, s, n, missing, head, ws)
  }

  // --------------------------------------------------------------------- what is accepted is a frame

  // The blocks that the walker passed from the one with its header in front of at; the missing bytes are
  // taken to be zero.
  lemma {:induction false} WalkSplits(s: seq<byte>, at: nat, b: Block, checksum: bool, n: nat, missing: seq<byte>)
    returns (ws: seq<Coded>)
    requires BLOCK_HEADER <= at <= |s| && b == BlockAt(s, at - BLOCK_HEADER)
    requires WalkSeeking(s, at, b, checksum) == Some(n) && |missing| == if n > |s| then n - |s| else 0
    ensures WellFormed(ws) && n == at - BLOCK_HEADER + StoredSize(ws) + ChecksumSize(checksum) <= |s + missing|
    ensures (s + missing)[at - BLOCK_HEADER..n - ChecksumSize(checksum)] == Blocks(ws)
    ensures missing != [] ==> !checksum && |missing| <= |ws[|ws| - 1].body|
    decreases |s| - at
  {
    hide WellFormed, Blocks, StoredSize, BlockAt;
    var t, next := s + missing, at + b.stored;
    SameBlockIn(s, missing, at - BLOCK_HEADER);
    if b.last {
      ws := OneBlock(t, at, b, next);
    } else {
      var behind := WalkSplits(s, next + BLOCK_HEADER, BlockAt(s, next), checksum, n, missing);
      ws := BlockBefore(t, at, b, next, n - ChecksumSize(checksum), behind);
    }
  }

  lemma SameBlockIn(s: seq<byte>, more: seq<byte>, off: nat)
    requires off + BLOCK_HEADER <= |s|
    ensures BlockAt(s + more, off) == BlockAt(s, off)
  {
  }

  lemma OneBlock(t: seq<byte>, at: nat, b: Block, next: nat) returns (ws: seq<Coded>)
    requires BLOCK_HEADER <= at <= next <= |t| && b == BlockAt(t, at - BLOCK_HEADER) && b.last && next == at + b.stored
    ensures WellFormed(ws) && |ws| == 1 && |ws[0].body| == b.stored && StoredSize(ws) == BLOCK_HEADER + b.stored
    ensures t[at - BLOCK_HEADER..next] == Blocks(ws)
  {
    var w := BlockText(t, at, b, next);
    ws := [w];
    assert Blocks(ws[1..]) == [];
    assert t[at - BLOCK_HEADER..next] == HeadOf(true, w) + w.body + [];
  }

  lemma BlockBefore(t: seq<byte>, at: nat, b: Block, next: nat, end: nat, behind: seq<Coded>) returns (ws: seq<Coded>)
    requires BLOCK_HEADER <= at <= next <= end <= |t| && b == BlockAt(t, at - BLOCK_HEADER) && !b.last
    requires next == at + b.stored && WellFormed(behind) && t[next..end] == Blocks(behind)
    ensures WellFormed(ws) && StoredSize(ws) == BLOCK_HEADER + b.stored + StoredSize(behind)
    ensures ws[|ws| - 1] == behind[|behind| - 1] && t[at - BLOCK_HEADER..end] == Blocks(ws)
  {
    var w := BlockText(t, at, b, next);
    ws := [w] + behind;
    assert ws[1..] == behind;
    assert t[at - BLOCK_HEADER..end] == HeadOf(false, w) + w.body + Blocks(behind);
  }

  lemma BlockText(t: seq<byte>, at: nat, b: Block, next: nat) returns (w: Coded)
    requires BLOCK_HEADER <= at <= next <= |t| && b == BlockAt(t, at - BLOCK_HEADER) && next == at + b.stored
    ensures HeadOf(b.last, w) == t[at - BLOCK_HEADER..at] && w.body == t[at..next] && CodedOk(w)
  {
    var h := t[at - BLOCK_HEADER..at];
    SameBlock(t, at - BLOCK_HEADER, h);
    w := BlockOfBits(h, t[at..next]);
  }

  lemma StartIsHeader(parse: Parser, s: seq<byte>, st: Start) returns (head: nat)
    requires FrameStart(parse, s) == Some(st)
    ensures HeaderOf(parse, s, head, st.checksum) && st.len == head + BLOCK_HEADER && st.block == BlockAt(s, head)
  {
    head := st.len - BLOCK_HEADER;
    StartsWith(s, st.len, head);
  }

  lemma SeekingIsFrame(parse: Parser, s: seq<byte>, n: nat)
    requires ReadSeeking(parse, s) == Some(n)
    ensures if n <= |s| then IsFrame(parse, s, n) else IsCutOff(parse, s, n)
  {
    hide HeaderOf, WellFormed, Blocks, StoredSize, WalkSeeking;
    var st := FrameStart(parse, s).value;
    var head := StartIsHeader(parse, s, st);
    var missing: seq<byte> := seq(if n > |s| then n - |s| else 0, _ => 0);
    var ws := WalkSplits(s, st.len, st.block, st.checksum, n, missing);
    if n <= |s| {
      assert s + missing == s;
      assert FrameOf(parse, s, n, head, ws, st.checksum);
    } else {
      HeaderKept(parse, s, missing, head, false);
      assert CutOff(parse, s, n, missing, head, ws);
    }
  }

  lemma HeaderKept(parse: Parser, s: seq<byte>, more: seq<byte>, head: nat, checksum: bool)
    requires head + BLOCK_HEADER <= |s|
    ensures HeaderOf(parse, s, head, checksum) <==> HeaderOf(parse, s + more, head, checksum)
  {
    if PREFIX <= head + BLOCK_HEADER {
      assert (s + more)[..PREFIX] == s[..PREFIX] && (s + more)[..head + BLOCK_HEADER] == s[..head + BLOCK_HEADER];
    }
  }

  // ------------------------------------------------------------------------- what is a frame is accepted

  lemma FrameIsSeeking(parse: Parser, s: seq<byte>, n: nat)
    requires IsFrame(parse, s, n)
    ensures ReadSeeking(parse, s) == Some(n)
  {
    hide FrameOf, ReadSeeking;
    var head: nat, ws: seq<Coded>, checksum: bool :| FrameOf(parse, s, n, head, ws, checksum);
    FrameIsSought(parse, s, n, head, ws, checksum);
  }

  lemma FrameIsSought(parse: Parser, s: seq<byte>, n: nat, head: nat, ws: seq<Coded>, checksum: bool)
    requires FrameOf(parse, s, n, head, ws, checksum)
    ensures ReadSeeking(parse, s) == Some(n)
  {
    hide ReadSeeking, ReadBuffered, WellFormed, Blocks, StoredSize, HeaderOf;
    var at := head + StoredSize(ws);
    var rest := SliceAndRest(s, head, at, Blocks(ws));
    FrameLength(parse, s, head, ws, checksum, rest, 0);
  }

  lemma SliceAndRest(s: seq<byte>, i: nat, j: nat, t: seq<byte>) returns (rest: seq<byte>)
    requires i <= j <= |s| && s[i..j] == t
    ensures rest == s[j..] && s[i..] == t + rest && |rest| == |s| - j
  {
    rest := s[j..];
  }

  // The same walk over a text that lacks bytes of its last block.
  lemma {:induction false} CutWalk(s: seq<byte>, missing: seq<byte>, pos: nat, ws: seq<Coded>)
    requires WellFormed(ws) && pos <= |s + missing| && (s + missing)[pos..] == Blocks(ws)
    requires |missing| <= |ws[|ws| - 1].body|
    ensures pos + BLOCK_HEADER <= |s|
    ensures WalkSeeking(s, pos + BLOCK_HEADER, BlockAt(s, pos), false) == Some(|s| + |missing|)
    decreases |ws|
  {
    hide BlockAt;
    var t := s + missing;
    assert t[pos..] == Blocks(ws) + [];
    var b, next := FirstBlock(t, pos, ws, []);
    if |ws| > 1 {
      assert t[next..] == Blocks(ws[1..]);
      CutWalk(s, missing, next, ws[1..]);
    }
    SameBlockIn(s, missing, pos);
  }

  lemma CutOffIsSeeking(parse: Parser, s: seq<byte>, n: nat)
    requires IsCutOff(parse, s, n)
    ensures ReadSeeking(parse, s) == Some(n)
  {
    hide WalkSeeking, WellFormed, Blocks, StoredSize, HeaderOf, BlockAt;
    var missing: seq<byte>, head: nat, ws: seq<Coded> :| CutOff(parse, s, n, missing, head, ws);
    var rest := SliceAndRest(s + missing, head, n, Blocks(ws));
    assert rest == [];
    CutWalk(s, missing, head, ws);
    HeaderKept(parse, s, missing, head, false);
    StartKnown(parse, s, head, head + BLOCK_HEADER, BlockAt(s, head), false);
  }

  // The walker with a buffer accepts exactly the frames that are all there and fit into the buffer.
  lemma BufferedExactly(parse: Parser, s: seq<byte>, bufSize: nat, n: nat)
    ensures ReadBuffered(parse, s, bufSize) == Some(n) <==> IsFrame(parse, s, n) && n <= bufSize && 5 < bufSize
  {
    SeekingExactly(parse, s, n);
    WalkersAgree(parse, s, bufSize, n);
  }

  // The walker without a buffer accepts exactly these and the frames that are cut off.
  lemma SeekingExactly(parse: Parser, s: seq<byte>, n: nat)
    ensures ReadSeeking(parse, s) == Some(n) <==> IsFrame(parse, s, n) || IsCutOff(parse, s, n)
    ensures IsFrame(parse, s, n) ==> n <= |s|
    ensures IsCutOff(parse, s, n) ==> n > |s|
  {
    if ReadSeeking(parse, s) == Some(n) {
      SeekingIsFrame(parse, s, n);
    }
    if IsFrame(parse, s, n) {
      FrameIsSeeking(parse, s, n);
    }
    if IsCutOff(parse, s, n) {
      CutOffIsSeeking(parse, s, n);
    }
  }
}
