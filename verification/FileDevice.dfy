/** `FileBlockDevice` over a host file with a hidden cursor and short transfers. */
module FileDevice {
  import opened MachineInts
  import opened ByteRanges

  /** Some prefix of `src` has been stored at `off` and nothing else. */
  ghost predicate PrefixStored(old': seq<byte>, off: nat, src: seq<byte>, new': seq<byte>) {
    exists k :: 0 <= k <= |src| && new' == Overwrite(old', off, src[..k])
  }

  /** What filling a buffer from `bytes` at `off` may do to it; only a fault leaves a free choice. */
  ghost predicate ReadExactEffect(
    bytes: seq<byte>, off: nat, before: seq<byte>, after: seq<byte>, r: Result<(), IoError>)
  {
    var got := Available(bytes, off, |before|);
    match r
    case Ok(_) => |got| == |before| && after == got
    case Err(UnexpectedEof) => |got| < |before| && after == Overwrite(before, 0, got)
    case Err(HostFault) => PrefixStored(before, 0, got, after)
    case Err(_) => false
  }

  /** What storing `src` at `off` may do to the file; only a fault leaves a free choice. */
  ghost predicate WriteAllEffect(
    bytes: seq<byte>, off: nat, src: seq<byte>, bytes': seq<byte>, r: Result<(), IoError>)
  {
    match r
    case Ok(_) => bytes' == Overwrite(bytes, off, src)
    case Err(e) => (e.HostFault? || e.WriteZero?) && PrefixStored(bytes, off, src, bytes')
  }

  lemma AvailableRest(bytes: seq<byte>, off: nat, len: nat, done: nat)
    requires done <= |Available(bytes, off, len)|
    ensures Available(bytes, off + done, len - done) == Available(bytes, off, len)[done..]
  {
  }

  /** One more piece of a read lands right behind the pieces already delivered. */
  lemma FillMore(before: seq<byte>, got: seq<byte>, done: nat, n: nat, was: seq<byte>, now: seq<byte>)
    requires done + n <= |got| <= |before| <= |was|
    requires was[..|before|] == Overwrite(before, 0, got[..done])
    requires now == was[..done] + got[done..][..n] + was[done + n..]
    ensures now[..|before|] == Overwrite(before, 0, got[..done + n])
    ensures now[|before|..] == was[|before|..]
  {
    forall k | 0 <= k < |before| ensures now[k] == Overwrite(before, 0, got[..done + n])[k] {
      assert was[k] == was[..|before|][k];
    }
  }

  /**
   * An open host file. The primitive calls may move fewer bytes than asked for and may fail;
   * which of this happens is left open. The proof counts the calls in which the host failed: those
   * that answered with a fault, and writes of some data that stored nothing.
   */
  class HostFile {
    var bytes: seq<byte>
    var cursor: nat
    ghost var failures: nat

    constructor (bytes: seq<byte>)
      ensures this.bytes == bytes && cursor == 0 && failures == 0
    {
      this.bytes := bytes;
      this.cursor, this.failures := 0, 0;
    }

    /** Offsets that do not fit the host's signed 64-bit offset are refused. */
    method Seek(off: u64) returns (r: Result<(), IoError>)
      modifies this`cursor, this`failures
      ensures failures == old(failures) + if r == Err(HostFault) then 1 else 0
      ensures off >= TWO_63 ==> r == Err(InvalidSeek)
      ensures off < TWO_63 ==> r == Err(HostFault) || (r.Ok? && cursor == off)
    {
      if off >= TWO_63 {
        return Err(InvalidSeek);
      }
      if * {
        failures := failures + 1;
        return Err(HostFault);
      }
      cursor := off;
      r := Ok(());
    }

    /** Delivers at least one byte unless `lo == hi` or the cursor is at or past the end. */
    method Read(buf: array<byte>, lo: nat, hi: nat) returns (r: Result<nat, IoError>)
      requires lo <= hi <= buf.Length
      modifies this`cursor, this`failures, buf
      ensures failures == old(failures) + if r.Err? then 1 else 0
      ensures r.Err? ==> r == Err(HostFault) && buf[..] == old(buf[..])
      ensures r.Ok? ==>
                var got := Available(bytes, old(cursor), hi - lo);
                && r.value <= |got| && (r.value == 0 ==> got == [])
                && buf[..] == old(buf[..lo]) + got[..r.value] + old(buf[lo + r.value..])
                && cursor == old(cursor) + r.value
    {
      if * {
        cursor, failures := *, failures + 1;
        return Err(HostFault);
      }
      var got := Available(bytes, cursor, hi - lo);
      var n: nat :| n <= |got| && (n == 0 ==> got == []);
      forall k | 0 <= k < n {
        buf[lo + k] := got[k];
      }
      cursor := cursor + n;
      assert buf[..] == old(buf[..lo]) + got[..n] + old(buf[lo + n..]);
      r := Ok(n);
    }

    /** Stores a prefix of `src`, possibly an empty one; past the end the gap reads as zero. */
    method Write(src: seq<byte>) returns (r: Result<nat, IoError>)
      modifies this
      ensures failures == old(failures) + if r.Err? || (r == Ok(0) && src != []) then 1 else 0
      ensures r.Err? ==> r == Err(HostFault) && bytes == old(bytes)
      ensures r.Ok? ==>
                && r.value <= |src|
                && bytes == Overwrite(old(bytes), old(cursor), src[..r.value])
                && cursor == old(cursor) + r.value
    {
      if * {
        cursor, failures := *, failures + 1;
        return Err(HostFault);
      }
      var n: nat :| n <= |src|;
      bytes := Overwrite(bytes, cursor, src[..n]);
      cursor := cursor + n;
      failures := failures + if n == 0 && src != [] then 1 else 0;
      r := Ok(n);
    }

    /**
     * Fills the first `len` bytes of `buf` from the cursor on, over any schedule of short reads. It
     * reports a fault exactly when a call of the host failed, and stops there.
     */
    method ReadExact(buf: array<byte>, len: nat) returns (r: Result<(), IoError>)
      requires len <= buf.Length
      modifies this`cursor, this`failures, buf
      ensures failures == old(failures) + if r == Err(HostFault) then 1 else 0
      ensures ReadExactEffect(bytes, old(cursor), old(buf[..len]), buf[..len], r)
      ensures buf[len..] == old(buf[len..])
    {
      hide Overwrite, Available;
      var done := 0;
      ghost var start := cursor;
      ghost var before := buf[..len];
      ghost var got := Available(bytes, start, len);
      while done < len
        invariant 0 <= done <= |got| <= len
        invariant cursor == start + done && failures == old(failures)
        invariant buf[..len] == Overwrite(before, 0, got[..done])
        invariant buf[len..] == old(buf[len..])
      {
        ghost var was := buf[..];
        var n := Read(buf, done, len);
        if n.Err? {
          return Err(n.error);
        }
        AvailableRest(bytes, start, len, done);
        FillMore(before, got, done, n.value, was, buf[..]);
        if n.value == 0 {
          assert got[..done] == got;
          return Err(UnexpectedEof);
        }
        done := done + n.value;
      }
      assert got[..done] == got;
      r := Ok(());
    }

    /**
     * Stores all of `src` from the cursor on, over any schedule of short writes. It reports an
     * error exactly when a call of the host failed, and stops there.
     */
    method WriteAll(src: seq<byte>) returns (r: Result<(), IoError>)
      modifies this
      ensures failures == old(failures) + if r.Err? then 1 else 0
      ensures WriteAllEffect(old(bytes), old(cursor), src, bytes, r)
    {
      hide Overwrite;
      assert bytes == Overwrite(bytes, cursor, src[..0]);
      var done := 0;
      ghost var start := cursor;
      while done < |src|
        invariant 0 <= done <= |src|
        invariant cursor == start + done && failures == old(failures)
        invariant bytes == Overwrite(old(bytes), start, src[..done])
      {
        var n := Write(src[done..]);
        if n.Err? {
          return Err(n.error);
        }
        if n.value == 0 {
          return Err(WriteZero);
        }
        OverwriteConcat(old(bytes), start, src[..done], src[done..][..n.value]);
        assert src[..done] + src[done..][..n.value] == src[..done + n.value];
        done := done + n.value;
      }
      assert src[..done] == src;
      r := Ok(());
    }
  }

  /** The host's calls on whole files, which may fail. The proof counts the failed ones. */
  class HostSystem {
    ghost var failures: nat

    constructor ()
      ensures failures == 0
    {
      failures := 0;
    }

    /** Opens the file `disk` holds, if there is one. */
    method OpenExisting(disk: Option<seq<byte>>) returns (r: Result<HostFile, IoError>)
      modifies this
      ensures disk.None? ==> r == Err(NotFound)
      ensures disk.Some? && r.Err? ==> r == Err(HostFault)
      ensures failures == old(failures) + if r == Err(HostFault) then 1 else 0
      ensures r.Ok? ==> fresh(r.value) && r.value.bytes == disk.value
    {
      if disk.None? {
        return Err(NotFound);
      }
      if * {
        failures := failures + 1;
        return Err(HostFault);
      }
      var f := new HostFile(disk.value);
      r := Ok(f);
    }

    /** Creates an empty file, or empties the one there is. */
    method CreateEmpty() returns (r: Result<HostFile, IoError>)
      modifies this
      ensures r.Err? ==> r == Err(HostFault)
      ensures failures == old(failures) + if r.Err? then 1 else 0
      ensures r.Ok? ==> fresh(r.value) && r.value.bytes == []
    {
      if * {
        failures := failures + 1;
        return Err(HostFault);
      }
      var f := new HostFile([]);
      r := Ok(f);
    }

    /** Cuts the file or extends it with zeros; a length that does not fit the host's offset is refused. */
    method SetLen(f: HostFile, size: u64) returns (r: Result<(), IoError>)
      modifies this, f`bytes
      ensures r.Err? ==> f.bytes == old(f.bytes)
      ensures size >= TWO_63 ==> r == Err(InvalidSeek)
      ensures size < TWO_63 && r.Err? ==> r == Err(HostFault)
      ensures failures == old(failures) + if r == Err(HostFault) then 1 else 0
      ensures r.Ok? ==> |f.bytes| == size
      ensures r.Ok? ==>
                forall k :: 0 <= k < size ==> f.bytes[k] == if k < |old(f.bytes)| then old(f.bytes)[k] else 0
    {
      if size >= TWO_63 {
        return Err(InvalidSeek);
      }
      if * {
        failures := failures + 1;
        return Err(HostFault);
      }
      f.bytes := if size <= |f.bytes| then f.bytes[..size] else f.bytes + seq(size - |f.bytes|, _ => 0 as byte);
      r := Ok(());
    }

    /** The file's length as the host reports it. */
    method Len(f: HostFile) returns (r: Result<nat, IoError>)
      modifies this
      ensures r.Err? ==> r == Err(HostFault)
      ensures failures == old(failures) + if r.Err? then 1 else 0
      ensures r.Ok? ==> r.value == |f.bytes|
    {
      if * {
        failures := failures + 1;
        return Err(HostFault);
      }
      r := Ok(|f.bytes|);
    }
  }

  /** The returned count, `len as u32 / block_size`: the length is truncated before it is divided. */
  function FileCount(len: nat, bs: u32): u32
    requires 0 < bs
  {
    AsU32(len) / bs
  }

  /** `read_blocks` without a host fault, on values: the outcome and the caller's buffer afterwards. */
  function FileRead(checked: bool, bytes: seq<byte>, bs: u32, id: u64, before: seq<byte>): (r: (Outcome, seq<byte>))
    requires 0 < bs
    ensures |r.1| == |before|
  {
    match Mul64(checked, id, bs)
    case None => (Panicked, before)
    case Some(off) =>
      if off >= TWO_63 then (Refused(InvalidSeek), before)
      else
        var got := Available(bytes, off, |before|);
        if |got| == |before| then (Served(FileCount(|before|, bs)), got)
        else (Refused(UnexpectedEof), Overwrite(before, 0, got))
  }

  /** `write_blocks` without a host fault, on values: the outcome and the file afterwards. */
  function FileWrite(checked: bool, bytes: seq<byte>, bs: u32, id: u64, src: seq<byte>): (Outcome, seq<byte>)
    requires 0 < bs
  {
    match Mul64(checked, id, bs)
    case None => (Panicked, bytes)
    case Some(off) =>
      if off >= TWO_63 then (Refused(InvalidSeek), bytes)
      else (Served(FileCount(|src|, bs)), Overwrite(bytes, off, src))
  }

  /** The outcome is a failure of the host file rather than an answer about the request. */
  predicate IsFault(o: Outcome) {
    o == Refused(HostFault) || o == Refused(WriteZero)
  }

  /** After a fault in a write, the file holds the old bytes with some prefix of the data stored. */
  ghost predicate TornWrite(checked: bool, bytes: seq<byte>, bs: u32, id: u64, src: seq<byte>, bytes': seq<byte>) {
    var off := Mul64(checked, id, bs);
    off.Some? && PrefixStored(bytes, off.value, src, bytes')
  }

  /** After a fault in a read, the buffer holds its old bytes with some prefix of the file's range. */
  ghost predicate TornRead(checked: bool, bytes: seq<byte>, bs: u32, id: u64, before: seq<byte>, after: seq<byte>) {
    var off := Mul64(checked, id, bs);
    off.Some? && PrefixStored(before, 0, Available(bytes, off.value, |before|), after)
  }

  /**
   * A write lands at its true byte offset exactly when that offset is one the host can seek to.
   * Past 2^63 it is refused; past 2^64 it panics, or lands elsewhere if overflow is unchecked.
   */
  lemma FileWriteLandsIff(checked: bool, bytes: seq<byte>, bs: u32, id: u64, src: seq<byte>)
    requires 0 < bs && |bytes| < TWO_63 && src != []
    ensures FileWrite(checked, bytes, bs, id, src).0.Served?
            && FileWrite(checked, bytes, bs, id, src).1 == Overwrite(bytes, id * bs, src)
            <==> id * bs < TWO_63
  {
    hide FileCount;
    var off := id * bs;
    var w := Mul64(checked, id, bs);
    if off < TWO_64 {
      assert w == Some(off);
    } else {
      assert |Overwrite(bytes, off, src)| == off + |src|;
      assert w.Some? && w.value < TWO_63 ==> |Overwrite(bytes, w.value, src)| < off + |src|;
    }
  }

  class FileBlockDevice {
    const file: HostFile
    const blockSize: u32
    const blockCount: u64

    /** The block region computed at construction lies inside the file; nothing truncates it later. */
    ghost predicate Valid()
      reads file
    {
      && 0 < blockSize
      && blockCount * blockSize < TWO_63
      && blockCount * blockSize <= |file.bytes|
    }

    constructor (file: HostFile, blockSize: u32, blockCount: u64)
      ensures this.file == file && this.blockSize == blockSize && this.blockCount == blockCount
    {
      this.file, this.blockSize, this.blockCount := file, blockSize, blockCount;
    }

    /**
     * `create_with_block_size`: an image of `size` zero bytes. It fails exactly when a call of the
     * host fails or the size does not fit the host's offset.
     */
    static method Create(host: HostSystem, size: u64, blockSize: u32) returns (r: Result<FileBlockDevice, IoError>)
      requires 0 < blockSize  // otherwise the division panics
      modifies host
      ensures r.Err? <==> size >= TWO_63 || host.failures > old(host.failures)
      ensures r.Ok? ==>
                var d := r.value;
                && fresh(d) && fresh(d.file) && d.Valid() && d.blockSize == blockSize
                && d.file.bytes == seq(size, _ => 0 as byte)
                && size - blockSize < d.blockCount * d.blockSize <= size
    {
      var f := host.CreateEmpty();
      if f.Err? {
        return Err(f.error);
      }
      var s := host.SetLen(f.value, size);
      if s.Err? {
        return Err(s.error);
      }
      assert f.value.bytes == seq(size, _ => 0 as byte);
      var blockCount := size / blockSize;
      var d := new FileBlockDevice(f.value, blockSize, blockCount);
      r := Ok(d);
    }

    /**
     * `open_with_block_size`: the block count is taken from the file's length. It fails exactly
     * when there is no file or a call of the host fails.
     */
    static method Open(host: HostSystem, disk: Option<seq<byte>>, blockSize: u32)
      returns (r: Result<FileBlockDevice, IoError>)
      requires 0 < blockSize  // otherwise the division panics
      requires disk.Some? ==> |disk.value| < TWO_63  // no host file is longer
      modifies host
      ensures r.Err? <==> disk.None? || host.failures > old(host.failures)
      ensures r.Ok? ==>
                var d := r.value;
                && fresh(d) && fresh(d.file) && d.Valid() && d.blockSize == blockSize
                && d.file.bytes == disk.value
                && |disk.value| - blockSize < d.blockCount * d.blockSize <= |disk.value|
    {
      var f := host.OpenExisting(disk);
      if f.Err? {
        return Err(f.error);
      }
      var size := host.Len(f.value);
      if size.Err? {
        return Err(size.error);
      }
      var blockCount := size.value / blockSize;
      var d := new FileBlockDevice(f.value, blockSize, blockCount);
      r := Ok(d);
    }

    /**
     * Seek, then read. The result does not depend on where earlier calls left the cursor, nor,
     * unless the host faults, on how the transfer is cut into pieces. A fault is reported exactly
     * when a call of the host failed.
     */
    method ReadBlocks(checked: bool, blockId: u64, buf: array<byte>, len: nat) returns (o: Outcome)
      requires Valid() && len <= buf.Length
      modifies file`cursor, file`failures, buf
      ensures file.failures == old(file.failures) + if IsFault(o) then 1 else 0
      ensures buf[len..] == old(buf[len..])
      ensures !IsFault(o) ==>
                (o, buf[..len]) == FileRead(checked, file.bytes, blockSize, blockId, old(buf[..len]))
      ensures IsFault(o) ==> TornRead(checked, file.bytes, blockSize, blockId, old(buf[..len]), buf[..len])
    {
      var offset := Mul64(checked, blockId, blockSize);
      if offset.None? {
        return Panicked;
      }
      var blockCount := FileCount(len, blockSize);
      ghost var before := buf[..len];
      var s := file.Seek(offset.value);
      if s.Err? {
        assert buf[..len] == Overwrite(before, 0, Available(file.bytes, offset.value, len)[..0]);
        return Refused(s.error);
      }
      var r := file.ReadExact(buf, len);
      if r.Err? {
        return Refused(r.error);
      }
      o := Served(blockCount);
    }

    /** Seek, then write; the file may grow past the block region. Faults are reported as above. */
    method WriteBlocks(checked: bool, blockId: u64, buf: array<byte>, len: nat) returns (o: Outcome)
      requires Valid() && len <= buf.Length
      modifies file
      ensures file.failures == old(file.failures) + if IsFault(o) then 1 else 0
      ensures !IsFault(o) ==>
                (o, file.bytes) == FileWrite(checked, old(file.bytes), blockSize, blockId, buf[..len])
      ensures IsFault(o) ==> TornWrite(checked, old(file.bytes), blockSize, blockId, buf[..len], file.bytes)
      ensures |old(file.bytes)| <= |file.bytes|
    {
      var offset := Mul64(checked, blockId, blockSize);
      if offset.None? {
        return Panicked;
      }
      var blockCount := FileCount(len, blockSize);
      var s := file.Seek(offset.value);
      if s.Err? {
        assert file.bytes == Overwrite(old(file.bytes), offset.value, buf[..len][..0]);
        return Refused(s.error);
      }
      var r := file.WriteAll(buf[..len]);
      if r.Err? {
        return Refused(r.error);
      }
      o := Served(blockCount);
    }
  }
}
