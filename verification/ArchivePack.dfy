/**
 pack_files in the uncompressed mode: the headers from the buffer of the encoder, the contents in chunks
 of four MiB, and the zeros behind the last chunk.
 */
module ArchivePack {
  import opened Bytes
  import opened Numerals
  import opened PaxRecord
  import opened PaxFlags
  import opened PaxHeader
  import opened Archive

  const BLOCK_SIZE := 4 * 1024 * 1024
  // What create_header leaves of the two MiB buffer behind its three name buffers.
  const OUT_BUFFER := 2 * 1024 * 1024 - 2 * (32767 + 33) - 2 * 4 * (32767 + 1)

  lemma HeaderAlwaysFits(e: Entry, o: Options)
    requires EntryOk(e)
    ensures FitsBuffer(Records(HeaderParams(e.fi, o, e.name)), BlocksizeRound(OUT_BUFFER) - 2 * BLOCKSIZE)
  {
    DataBound(e.fi, o, e.name);
  }

  // The content in the output after the first n bytes were read.
  function Sent(content: seq<byte>, n: nat): seq<byte>
    requires n <= |content|
  {
    if n == |content| then Padded(content) else content[..n]
  }

  lemma SendMore(content: seq<byte>, n: nat, sz: nat, pad: nat)
    requires n < |content| && 0 < sz && n + sz <= |content|
    requires pad == if n + sz == |content| then BlocksizeRound(|content|) - |content| else 0
    ensures Sent(content, n + sz) == Sent(content, n) + (content[n..n + sz] + Zeros(pad))
  {
    assert content[..n] + content[n..n + sz] == content[..n + sz];
    assert n + sz == |content| ==> content[..n + sz] == content;
  }

  lemma Padding(n: nat, dk: nat)
    requires dk == n % BLOCKSIZE
    ensures BlocksizeRound(n) - n == if dk == 0 then 0 else BLOCKSIZE - dk
  {
    var q := n / BLOCKSIZE;
    assert n == q * BLOCKSIZE + dk;
    var x := n + BLOCKSIZE - 1;
    if dk == 0 {
      ModUnique(x, BLOCKSIZE, q, BLOCKSIZE - 1);
    } else {
      ModUnique(x, BLOCKSIZE, q + 1, dk - 1);
    }
  }

  class Packer {
    const buf: array<byte>
    const extBuf: array<byte>
    var out: seq<byte> // the file that is written
    var readedSize: nat
    var outputSize: nat

    ghost predicate Valid()
      reads this
    {
      buf != extBuf && buf.Length == BLOCK_SIZE + 8 * BLOCKSIZE && extBuf.Length == OUT_BUFFER
    }

    constructor ()
      ensures Valid() && fresh(buf) && fresh(extBuf) && out == [] && readedSize == outputSize == 0
    {
      buf := new byte[BLOCK_SIZE + 8 * BLOCKSIZE](_ => 0);
      extBuf := new byte[OUT_BUFFER](_ => 0);
      out, readedSize, outputSize := [], 0, 0;
    }

    // frame_add_data; every write succeeds.
    method FrameAddData(data: seq<byte>)
      modifies `out, `readedSize, `outputSize
      ensures out == old(out) + data
      ensures readedSize == old(readedSize) + |data| && outputSize == old(outputSize) + |data|
    {
      out := out + data;
      readedSize := readedSize + |data|;
      outputSize := outputSize + |data|;
    }

    // ReadFile into the start of the buffer.
    method ReadChunk(content: seq<byte>, rsize: nat, sz: nat)
      requires Valid() && sz <= BLOCK_SIZE && rsize + sz <= |content|
      modifies buf
      ensures buf[..sz] == content[rsize..rsize + sz]
    {
      forall i | 0 <= i < sz {
        buf[i] := content[rsize + i];
      }
    }

    // The zeros up to the end of the block.
    method PadChunk(sz: nat, pad: nat)
      requires Valid() && sz + pad <= buf.Length
      modifies buf
      ensures buf[..sz + pad] == old(buf[..sz]) + Zeros(pad)
    {
      forall i | sz <= i < sz + pad {
        buf[i] := 0;
      }
    }

    // One round of the loop over the content.
    method SendChunk(content: seq<byte>, rsize: nat) returns (next: nat)
      requires Valid() && rsize < |content|
      modifies `out, `readedSize, `outputSize, buf
      ensures rsize < next <= |content|
      ensures var more := Sent(content, next)[|Sent(content, rsize)|..];
              && Sent(content, next) == Sent(content, rsize) + more && out == old(out) + more
              && readedSize == old(readedSize) + |more| && outputSize == old(outputSize) + |more|
    {
      var fsize, sz := |content|, BLOCK_SIZE;
      if rsize + BLOCK_SIZE > fsize {
        sz := fsize - rsize;
      }
      ReadChunk(content, rsize, sz);
      next := rsize + sz;
      var pad := 0;
      if next == fsize {
        var dk := next % BLOCKSIZE;
        Padding(fsize, dk);
        if dk != 0 {
          pad := BLOCKSIZE - dk;
        }
      }
      SendMore(content, rsize, sz, pad);
      PadChunk(sz, pad);
      FrameAddData(buf[..sz + pad]);
    }

    // The loop over the content of a file that is not empty.
    method PackContent(content: seq<byte>)
      requires Valid() && content != []
      modifies `out, `readedSize, `outputSize, buf
      ensures out == old(out) + Padded(content)
      ensures readedSize - old(readedSize) == outputSize - old(outputSize) == |Padded(content)|
    {
      var rsize := 0;
      ghost var start := out;
      while rsize < |content|
        invariant rsize <= |content|
        invariant out == start + Sent(content, rsize)
        invariant readedSize - old(readedSize) == outputSize - old(outputSize) == |Sent(content, rsize)|
      {
        rsize := SendChunk(content, rsize);
      }
    }

    // One round of the loop of pack_files.
    method PackEntry(e: Entry, o: Options) returns (ok: bool)
      requires Valid() && EntryOk(e)
      modifies `out, `readedSize, `outputSize, buf, extBuf
      ensures ok && out == old(out) + PieceOf(e, o).head + PieceOf(e, o).body
      ensures readedSize - old(readedSize) == outputSize - old(outputSize) == |out| - |old(out)|
    {
      HeaderAlwaysFits(e, o);
      var size := CreateHeader(e.fi, o, e.xname, e.name, extBuf);
      if size.None? {
        return false;
      }
      FrameAddData(extBuf[..size.value]);
      if !e.fi.attr.directory && e.fi.size != 0 {
        PackContent(e.content);
      }
      ok := true;
    }

    method PackFiles(es: seq<Entry>, o: Options) returns (ok: bool)
      requires Valid() && AllEntriesOk(es) && out == [] && readedSize == outputSize == 0
      modifies `out, `readedSize, `outputSize, buf, extBuf
      ensures ok && out == Stream(Pieces(es, o)) && readedSize == outputSize == |out|
    {
      hide EncodeHeader, Padded;
      var k := 0;
      ghost var ps := Pieces(es, o);
      while k < |es|
        invariant k <= |es| && out == Stream(ps[..k]) && readedSize == outputSize == |out|
      {
        ok := PackEntry(es[k], o);
        if !ok {
          return;
        }
        StreamMore(ps, k);
        k := k + 1;
      }
      assert ps[..k] == ps;
      ok := true;
    }
  }

  lemma {:induction false} StreamMore(ps: seq<Piece>, k: nat)
    requires k < |ps|
    ensures Stream(ps[..k + 1]) == Stream(ps[..k]) + ps[k].head + ps[k].body
    decreases k
  {
    if k > 0 {
      assert ps[..k + 1][1..] == ps[1..][..k] && ps[..k][1..] == ps[1..][..k - 1];
      StreamMore(ps[1..], k - 1);
    }
  }
}
