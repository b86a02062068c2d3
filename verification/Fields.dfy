/**
 Fixed fields in a region of a buffer: writing them one after the other, and reading one back.
 */
module Fields {
  import opened Bytes

  datatype Field = Field(off: nat, bytes: seq<byte>)

  ghost predicate Fits(fs: seq<Field>, n: nat) {
    forall f | f in fs :: f.off + |f.bytes| <= n
  }

  // The block after the fields were copied into it one after the other.
  function Overlay(b: seq<byte>, fs: seq<Field>): (r: seq<byte>)
    requires Fits(fs, |b|)
    ensures |r| == |b|
    decreases fs
  {
    if fs == [] then b else Overlay(Splice(b, fs[0].off, fs[0].bytes), fs[1..])
  }

  predicate Covers(f: Field, i: nat) {
    f.off <= i < f.off + |f.bytes|
  }

  lemma {:induction false} OverlayKeeps(b: seq<byte>, fs: seq<Field>, i: nat)
    requires Fits(fs, |b|) && i < |b| && forall f | f in fs :: !Covers(f, i)
    ensures Overlay(b, fs)[i] == b[i]
    decreases fs
  {
    if fs != [] {
      var c := Splice(b, fs[0].off, fs[0].bytes);
      assert !Covers(fs[0], i);
      assert c[i] == b[i] by {
        if i < fs[0].off {
          assert c[..fs[0].off][i] == c[i];
        } else {
          var e := fs[0].off + |fs[0].bytes|;
          assert c[e..][i - e] == c[i] && b[e..][i - e] == b[i];
        }
      }
      OverlayKeeps(c, fs[1..], i);
    }
  }

  predicate Apart(f: Field, g: Field) {
    f.off + |f.bytes| <= g.off || g.off + |g.bytes| <= f.off
  }

  // A field that no later field touches can be read back.
  lemma {:induction false} OverlayField(b: seq<byte>, fs: seq<Field>, k: nat)
    requires Fits(fs, |b|) && k < |fs| && forall j | k < j < |fs| :: Apart(fs[k], fs[j])
    ensures Overlay(b, fs)[fs[k].off..fs[k].off + |fs[k].bytes|] == fs[k].bytes
    decreases fs
  {
    hide Splice;
    var c := Splice(b, fs[0].off, fs[0].bytes);
    if k == 0 {
      var r, o := Overlay(b, fs), fs[0].off;
      forall i | o <= i < o + |fs[0].bytes| ensures r[i] == fs[0].bytes[i - o] {
        forall f | f in fs[1..] ensures !Covers(f, i) {
          var j :| 0 <= j < |fs| - 1 && fs[1..][j] == f;
          assert Apart(fs[0], fs[j + 1]);
        }
        OverlayKeeps(c, fs[1..], i);
        assert c[o..o + |fs[0].bytes|][i - o] == c[i];
      }
    } else {
      OverlayField(c, fs[1..], k - 1);
    }
  }

  method CopyAt(buf: array<byte>, off: nat, src: seq<byte>)
    requires off + |src| <= buf.Length
    modifies buf
    ensures buf[..] == Splice(old(buf[..]), off, src)
  {
    forall i | 0 <= i < |src| {
      buf[off + i] := src[i];
    }
  }

  // After the fields up to the k-th were copied, the rest still leads to the finished block.
  ghost predicate Written(b0: seq<byte>, b: seq<byte>, off: nat, n: nat, fs: seq<Field>, k: nat) {
    && off + n <= |b| == |b0|
    && Fits(fs, n) && k <= |fs|
    && b[..off] == b0[..off] && b[off + n..] == b0[off + n..]
    && Overlay(b[off..off + n], fs[k..]) == Overlay(b0[off..off + n], fs)
  }

  lemma WrittenMore(b0: seq<byte>, b: seq<byte>, off: nat, n: nat, fs: seq<Field>, k: nat)
    requires Written(b0, b, off, n, fs, k) && k < |fs|
    ensures Written(b0, Splice(b, off + fs[k].off, fs[k].bytes), off, n, fs, k + 1)
  {
    assert fs[k] in fs;
    SpliceInside(b, off, n, fs[k].off, fs[k].bytes);
    assert fs[k..][1..] == fs[k + 1..];
  }

  method PutField(buf: array<byte>, off: nat, ghost n: nat, o: nat, src: seq<byte>, ghost b0: seq<byte>,
                  ghost fs: seq<Field>, ghost k: nat)
    requires Written(b0, buf[..], off, n, fs, k) && k < |fs| && fs[k] == Field(o, src)
    modifies buf
    ensures Written(b0, buf[..], off, n, fs, k + 1)
  {
    assert fs[k] in fs;
    WrittenMore(b0, buf[..], off, n, fs, k);
    CopyAt(buf, off + o, src);
  }

  lemma NothingWritten(b0: seq<byte>, off: nat, n: nat, fs: seq<Field>)
    requires off + n <= |b0| && Fits(fs, n)
    ensures Written(b0, b0, off, n, fs, 0)
  {
    assert fs[0..] == fs;
  }
}
