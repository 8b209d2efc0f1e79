/** `MemoryBlockDevice`: a byte vector with bounds checks, including the arithmetic of the checks. */
module MemoryDevice {
  import opened MachineInts
  import opened ByteRanges

  /** Where a request lands in the vector: a slice start, a bounds error, or a panic. */
  datatype Placement = At(off: nat) | Beyond | Panics

  /**
   * The bounds check on a computed offset: add, compare, slice. Without overflow checks the sum
   * wraps, and a slice whose end wrapped below its start panics.
   */
  function Place(checked: bool, size: nat, offset: Option<u64>, len: nat): (p: Placement)
    requires size < TWO_63 && len < TWO_63
    ensures p.At? ==> p.off + len <= size
  {
    if offset.None? then Panics
    else
      var off := offset.value;
      match Add64(checked, off, len)
      case None => Panics
      case Some(end) => if end > size then Beyond else if end < off then Panics else At(off)
  }

  /** The bounds check of a request: the offset is the product of block number and block size. */
  function Locate(checked: bool, size: nat, bs: u32, id: u64, len: nat): (p: Placement)
    requires size < TWO_63 && len < TWO_63
    ensures p.At? ==> p.off + len <= size
  {
    Place(checked, size, Mul64(checked, id, bs), len)
  }

  /** The returned count, `(len / block_size) as u32`. */
  function MemCount(len: nat, bs: u32): u32
    requires 0 < bs
  {
    AsU32(len / bs)
  }

  /** `read_blocks` on values: the outcome and the caller's buffer afterwards. */
  function MemRead(checked: bool, data: seq<byte>, bs: u32, id: u64, before: seq<byte>): (r: (Outcome, seq<byte>))
    requires 0 < bs && |data| < TWO_63 && |before| < TWO_63
    ensures |r.1| == |before|
  {
    match Locate(checked, |data|, bs, id, |before|)
    case At(off) => (Served(MemCount(|before|, bs)), data[off..off + |before|])
    case Beyond => (Refused(UnexpectedEof), before)
    case Panics => (Panicked, before)
  }

  /** `write_blocks` on values: the outcome and the vector afterwards. */
  function MemWrite(checked: bool, data: seq<byte>, bs: u32, id: u64, src: seq<byte>): (r: (Outcome, seq<byte>))
    requires 0 < bs && |data| < TWO_63 && |src| < TWO_63
    ensures |r.1| == |data|
  {
    match Locate(checked, |data|, bs, id, |src|)
    case At(off) => (Served(MemCount(|src|, bs)), Overwrite(data, off, src))
    case Beyond => (Refused(UnexpectedEof), data)
    case Panics => (Panicked, data)
  }

  /** The request's true byte range, computed without overflow, lies inside the device. */
  predicate RangeInside(size: nat, bs: u32, id: u64, len: nat) {
    id * bs + len <= size
  }

  /** The bounds check is truthful: it serves exactly the ranges inside the device and refuses the others. */
  predicate Truthful(checked: bool, size: nat, bs: u32, id: u64, len: nat)
    requires size < TWO_63 && len < TWO_63
  {
    Locate(checked, size, bs, id, len) == if RangeInside(size, bs, id, len) then At(id * bs) else Beyond
  }

  lemma PlaceTruthfulIff(checked: bool, size: nat, product: nat, len: nat)
    requires size < TWO_63 && len < TWO_63
    ensures Place(checked, size, Fit64(checked, product), len)
            == (if product + len <= size then At(product) else Beyond)
            <==> product + len < TWO_64 || (!checked && (product % TWO_64 + len) % TWO_64 > size)
  {
  }

  /**
   * The bounds check tells the truth exactly when the request's end fits in 64 bits or, in a build
   * without overflow checks, the wrapped end happens to lie past the device.
   */
  lemma BoundsCheckTruthfulIff(checked: bool, size: nat, bs: u32, id: u64, len: nat)
    requires size < TWO_63 && len < TWO_63
    ensures Truthful(checked, size, bs, id, len) <==>
            id * bs + len < TWO_64 || (!checked && ((id * bs) % TWO_64 + len) % TWO_64 > size)
  {
    hide Place, Fit64;
    MulMonotone(0, id, bs);
    PlaceTruthfulIff(checked, size, id * bs, len);
  }

  /**
   * Without overflow checks, block 2^55 of a 512-byte-block device is block 0: a read there is
   * served from the first block although its true range starts at byte 2^64.
   */
  lemma WrappedReadServesBlockZero(data: seq<byte>, before: seq<byte>)
    requires |data| == 1024 && |before| == 512
    ensures !RangeInside(|data|, 512, 0x80_0000_0000_0000, |before|)
    ensures MemRead(false, data, 512, 0x80_0000_0000_0000, before) == (Served(1), data[..512])
  {
    assert 0x80_0000_0000_0000 * 512 == TWO_64;
    assert data[0..512] == data[..512];
  }

  class MemoryBlockDevice {
    const data: array<byte>
    const blockSize: u32
    const blockCount: u64

    /** The vector holds exactly the device's blocks. */
    predicate Valid() {
      && 0 < blockSize
      && data.Length == blockCount * blockSize
      && data.Length < TWO_63
    }

    constructor (size: u64, blockSize: u32)
      requires 0 < blockSize  // otherwise the division panics
      requires size < TWO_63  // otherwise the allocation panics
      ensures Valid() && fresh(data)
      ensures this.blockSize == blockSize
      ensures size - blockSize < data.Length <= size
      ensures data[..] == seq(data.Length, _ => 0 as byte)
    {
      this.blockSize := blockSize;
      var count := size / blockSize;
      var actual := count * blockSize;
      this.blockCount := count;
      this.data := new byte[actual](_ => 0);
    }

    constructor FromVec(data: array<byte>, blockSize: u32)
      requires 0 < blockSize && data.Length % blockSize == 0  // the documented panic
      requires data.Length < TWO_63
      ensures Valid()
      ensures this.data == data && this.blockSize == blockSize
    {
      this.data := data;
      this.blockSize := blockSize;
      var count := data.Length / blockSize;
      MulMonotone(1, blockSize, count);
      this.blockCount := count;
    }

    /** Fills the first `len` bytes of `buf`; the answer and the bytes are those of `MemRead`. */
    method ReadBlocks(checked: bool, blockId: u64, buf: array<byte>, len: nat) returns (o: Outcome)
      requires Valid() && buf != data && len <= buf.Length && len < TWO_63
      modifies buf
      ensures (o, buf[..len]) == MemRead(checked, data[..], blockSize, blockId, old(buf[..len]))
      ensures buf[len..] == old(buf[len..])
    {
      var offset := Mul64(checked, blockId, blockSize);
      if offset.None? {
        return Panicked;
      }
      var end := Add64(checked, offset.value, len);
      if end.None? {
        return Panicked;
      }
      if end.value > data.Length {
        return Refused(UnexpectedEof);
      }
      if end.value < offset.value {
        return Panicked;
      }
      forall k | 0 <= k < len {
        buf[k] := data[offset.value + k];
      }
      assert buf[..len] == data[..][offset.value..offset.value + len];
      o := Served(MemCount(len, blockSize));
    }

    /** Copies the first `len` bytes of `buf` into the vector; a refused request changes nothing. */
    method WriteBlocks(checked: bool, blockId: u64, buf: array<byte>, len: nat) returns (o: Outcome)
      requires Valid() && buf != data && len <= buf.Length && len < TWO_63
      modifies data
      ensures (o, data[..]) == MemWrite(checked, old(data[..]), blockSize, blockId, buf[..len])
      ensures !o.Served? ==> data[..] == old(data[..])
    {
      var offset := Mul64(checked, blockId, blockSize);
      if offset.None? {
        return Panicked;
      }
      var end := Add64(checked, offset.value, len);
      if end.None? {
        return Panicked;
      }
      if end.value > data.Length {
        return Refused(UnexpectedEof);
      }
      if end.value < offset.value {
        return Panicked;
      }
      forall k | 0 <= k < len {
        data[offset.value + k] := buf[k];
      }
      assert data[..] == Overwrite(old(data[..]), offset.value, buf[..len]);
      o := Served(MemCount(len, blockSize));
    }
  }
}
