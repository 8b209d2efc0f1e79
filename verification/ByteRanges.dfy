/** Byte ranges inside a growing byte string: the effect of a positioned write and of a positioned read. */
module ByteRanges {
  import opened MachineInts

  function Max(a: int, b: int): int {
    if a < b then b else a
  }

  function Min(a: int, b: int): int {
    if a < b then a else b
  }

  /**
   * `data` after `src` has been written at `off`. Bytes outside the written range stay; a gap
   * between the old end and `off` reads as zero; writing nothing changes nothing.
   */
  function Overwrite(data: seq<byte>, off: nat, src: seq<byte>): (r: seq<byte>)
    ensures |r| == if src == [] then |data| else Max(|data|, off + |src|)
    ensures forall k :: 0 <= k < |r| ==>
              r[k] == if off <= k < off + |src| then src[k - off] else if k < |data| then data[k] else 0
  {
    if src == [] then data
    else
      var head := if off <= |data| then data[..off] else data + seq(off - |data|, _ => 0 as byte);
      var tail := if off + |src| < |data| then data[off + |src|..] else [];
      head + src + tail
  }

  /** The bytes a read of `len` bytes at `off` can deliver: it stops at the end of `data`. */
  function Available(data: seq<byte>, off: nat, len: nat): (r: seq<byte>)
    ensures |r| == Min(len, Max(0, |data| - off))
    ensures forall k :: 0 <= k < |r| ==> r[k] == data[off + k]
  {
    if off < |data| then data[off..Min(off + len, |data|)] else []
  }

  /** Two consecutive writes are one write of the concatenation. */
  lemma OverwriteConcat(data: seq<byte>, off: nat, a: seq<byte>, b: seq<byte>)
    ensures Overwrite(Overwrite(data, off, a), off + |a|, b) == Overwrite(data, off, a + b)
  {
    var l := Overwrite(Overwrite(data, off, a), off + |a|, b);
    var r := Overwrite(data, off, a + b);
    assert |l| == |r|;
    forall k | 0 <= k < |l| ensures l[k] == r[k] {
      if off <= k < off + |a| + |b| {
        assert r[k] == (a + b)[k - off];
      }
    }
  }

  /** A write that stays inside a region commutes with cutting the data at the region's end. */
  lemma OverwriteInside(region: seq<byte>, tail: seq<byte>, off: nat, src: seq<byte>)
    requires off + |src| <= |region|
    ensures Overwrite(region + tail, off, src) == Overwrite(region, off, src) + tail
    ensures |Overwrite(region, off, src)| == |region|
  {
    assert Overwrite(region + tail, off, src) == Overwrite(region, off, src) + tail;
  }

  /** A write that ends before byte `n` leaves the rest alone and acts on the first `n` bytes by itself. */
  lemma OverwriteRegion(data: seq<byte>, n: nat, off: nat, src: seq<byte>)
    requires off + |src| <= n <= |data|
    ensures |Overwrite(data, off, src)| == |data|
    ensures Overwrite(data, off, src)[..n] == Overwrite(data[..n], off, src)
    ensures Overwrite(data, off, src)[n..] == data[n..]
  {
    assert data == data[..n] + data[n..];
    OverwriteInside(data[..n], data[n..], off, src);
  }

  /** A range before or behind a write keeps its bytes. */
  lemma WriteMisses(data: seq<byte>, off: nat, src: seq<byte>, at: nat, len: nat)
    requires off + |src| <= |data| && at + len <= |data|
    requires at + len <= off || off + |src| <= at
    ensures |Overwrite(data, off, src)| == |data|
    ensures Overwrite(data, off, src)[at..at + len] == data[at..at + len]
  {
    var after := Overwrite(data, off, src);
    assert forall k :: at <= k < at + len ==> after[k] == data[k];
  }

  /** A range inside a write holds the bytes written there. */
  lemma WriteHits(data: seq<byte>, off: nat, src: seq<byte>, at: nat, len: nat)
    requires off <= at && at + len <= off + |src| <= |data|
    ensures |Overwrite(data, off, src)| == |data|
    ensures Overwrite(data, off, src)[at..at + len] == src[at - off..at - off + len]
  {
    var after := Overwrite(data, off, src);
    assert forall k :: at <= k < at + len ==> after[k] == src[k - off];
  }

  /** A range in which a write ends is divided at the write's end. */
  lemma WriteEndsInside(data: seq<byte>, off: nat, src: seq<byte>, at: nat, len: nat, r: nat)
    requires off <= at && r <= len && at + len <= |data| && off + |src| == at + r
    ensures |Overwrite(data, off, src)| == |data|
    ensures Overwrite(data, off, src)[at..at + len] == src[at - off..] + data[at..at + len][r..]
  {
    var after, one, was := Overwrite(data, off, src), src[at - off..], data[at..at + len];
    hide Overwrite;
    var t := one + was[r..];
    assert |t| == len;
    forall k | 0 <= k < len ensures after[at..at + len][k] == t[k] {
      if k < r {
        assert t[k] == one[k] == src[at + k - off];
      } else {
        assert t[k] == was[r..][k - r] == was[k] == data[at + k];
      }
    }
  }
}
