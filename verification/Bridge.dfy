/** The object graph handed to lwext4 and the callbacks that find their way back through it. */
module Bridge {
  import opened MachineInts
  import opened MemoryDevice
  import opened FileDevice
  import opened BlockRequests

  /** The type-erased device; one constructor per implementation in the crate. */
  datatype Device = Memory(m: MemoryBlockDevice) | Host(f: FileBlockDevice)
  {
    function BlockSize(): u32 {
      match this case Memory(m) => m.blockSize case Host(f) => f.blockSize
    }

    function BlockCount(): u64 {
      match this case Memory(m) => m.blockCount case Host(f) => f.blockCount
    }

    /** The only object a device ever writes to, besides the caller's buffer. */
    ghost function Footprint(): set<object> {
      match this case Memory(m) => {m.data} case Host(f) => {f.file}
    }

    ghost predicate Valid()
      reads Footprint()
    {
      match this case Memory(m) => m.Valid() case Host(f) => f.Valid()
    }

    ghost function Contents(): seq<byte>
      reads Footprint()
    {
      match this case Memory(m) => m.data[..] case Host(f) => f.file.bytes
    }

    /** How many calls of the host have failed on the device's file. */
    ghost function HostFailures(): nat
      reads Footprint()
    {
      match this case Memory(_) => 0 case Host(f) => f.file.failures
    }
  }

  class BlockDevIface {
    var phBsize: u32
    var phBcnt: u64
    var phBbuf: array?<byte>
    var pUser: BlockDeviceWrapper?

    constructor (phBsize: u32, phBcnt: u64)
      ensures this.phBsize == phBsize && this.phBcnt == phBcnt
    {
      this.phBsize, this.phBcnt := phBsize, phBcnt;
      phBbuf, pUser := null, null;
    }
  }

  class BlockDev {
    var bdif: BlockDevIface?
    var partOffset: u64
    var partSize: u64

    constructor (partSize: u64)
      ensures this.partSize == partSize && partOffset == 0
    {
      bdif, partOffset, this.partSize := null, 0, partSize;
    }
  }

  /** A `bdev` pointer whose chain `bdev -> bdif -> p_user` can be followed. */
  predicate Linked(bdev: BlockDev)
    reads bdev, bdev.bdif
  {
    bdev.bdif != null && bdev.bdif.pUser != null
  }

  function GetWrapper(bdev: BlockDev): BlockDeviceWrapper
    requires Linked(bdev)
    reads bdev, bdev.bdif
  {
    bdev.bdif.pUser
  }

  class BlockDeviceWrapper {
    const device: Device
    const buffer: array<byte>
    const bdif: BlockDevIface
    const bdev: BlockDev

    /** The pointers lwext4 follows lead from `bdev` back to this wrapper, with the device's geometry. */
    ghost predicate Tied()
      reads bdif, bdev
    {
      && bdev.bdif == bdif && bdif.pUser == this && bdif.phBbuf == buffer
      && buffer.Length == bdif.phBsize == device.BlockSize()
      && bdif.phBcnt == device.BlockCount()
      && bdev.partOffset == 0 && bdev.partSize == bdif.phBcnt * bdif.phBsize
    }

    function AsBdevPtr(): BlockDev {
      bdev
    }

    /**
     * The partition is as long as the device's block region: the whole vector of a memory device,
     * and for a host file as many whole blocks as the device counted when it was made.
     */
    constructor (checked: bool, device: Device)
      requires device.Valid()
      ensures Tied() && this.device == device
      ensures device.Memory? ==> bdif.phBsize == device.m.blockSize && bdev.partSize == |device.Contents()|
      ensures device.Host? ==>
                && bdif.phBsize == device.f.blockSize && bdif.phBcnt == device.f.blockCount
                && bdev.partSize == device.f.blockCount * device.f.blockSize <= |device.Contents()|
      ensures fresh(buffer) && fresh(bdif) && fresh(bdev)
      ensures GetWrapper(AsBdevPtr()) == this
    {
      var blockSize, blockCount := device.BlockSize(), device.BlockCount();
      this.device := device;
      this.buffer := new byte[blockSize](_ => 0);
      this.bdif := new BlockDevIface(blockSize, blockCount);
      this.bdev := new BlockDev(Mul64(checked, blockCount, blockSize).value);
      new;
      bdif.phBbuf := buffer;
      bdif.pUser := this;
      bdev.bdif := bdif;
    }
  }

  /** In either overflow regime the byte count of a transfer is computed exactly and without panic. */
  lemma TransferLenExact(checked: bool, bs: u32, cnt: u32)
    ensures Mul64(checked, bs, cnt) == Some(cnt * bs)
  {
    MulMonotone(cnt, TWO_32 - 1, bs);
    MulMonotone(bs, TWO_32 - 1, TWO_32 - 1);
  }

  /**
   * `blockdev_bread`. A memory device answers as `MemStep` says, a host file in one of the ways
   * of `FileStep`, with a fault exactly when a call of the host failed; no device changes its
   * contents. The device's count is dropped.
   */
  method BlockdevBread(checked: bool, bdev: BlockDev, buf: array<byte>, blkId: u64, blkCnt: u32)
    returns (status: Status, ghost fault: bool)
    requires Linked(bdev) && GetWrapper(bdev).device.Valid()
    requires buf !in GetWrapper(bdev).device.Footprint()
    requires blkCnt * GetWrapper(bdev).device.BlockSize() <= buf.Length < TWO_63
    modifies buf, GetWrapper(bdev).device.Footprint()
    ensures var d := old(GetWrapper(bdev)).device;
            var total := blkCnt * d.BlockSize();
            var req := Bread(blkId, blkCnt, old(buf[..total]));
            var resp := Response(status, buf[..total]);
            && d.Valid() && d.Contents() == old(d.Contents())
            && d.HostFailures() == old(d.HostFailures()) + (if fault then 1 else 0)
            && buf[total..] == old(buf[total..])
            && (d.Memory? ==> !fault && (resp, d.Contents()) == MemStep(checked, d.BlockSize(), d.Contents(), req))
            && (d.Host? ==> FileStep(checked, d.BlockSize(), d.Contents(), req, resp, d.Contents(), fault))
  {
    var device := GetWrapper(bdev).device;
    TransferLenExact(checked, device.BlockSize(), blkCnt);
    var total := Mul64(checked, device.BlockSize(), blkCnt).value;
    var o: Outcome;
    match device {
      case Memory(m) => o := m.ReadBlocks(checked, blkId, buf, total);
      case Host(f) => o := f.ReadBlocks(checked, blkId, buf, total);
    }
    fault := device.Host? && IsFault(o);
    match o {
      case Served(_) => status := Success;
      case Refused(_) => status := Failure;
      case Panicked => status := Aborted;
    }
  }

  /**
   * `blockdev_bwrite`. A memory device answers as `MemStep` says, a host file in one of the ways
   * of `FileStep`, with a fault exactly when a call of the host failed; only the device behind
   * `bdev` changes.
   */
  method BlockdevBwrite(checked: bool, bdev: BlockDev, buf: array<byte>, blkId: u64, blkCnt: u32)
    returns (status: Status, ghost fault: bool)
    requires Linked(bdev) && GetWrapper(bdev).device.Valid()
    requires buf !in GetWrapper(bdev).device.Footprint()
    requires blkCnt * GetWrapper(bdev).device.BlockSize() <= buf.Length < TWO_63
    modifies GetWrapper(bdev).device.Footprint()
    ensures var d := old(GetWrapper(bdev)).device;
            var total := blkCnt * d.BlockSize();
            var req := Bwrite(blkId, blkCnt, buf[..total]);
            var resp := Response(status, []);
            && d.Valid()
            && d.HostFailures() == old(d.HostFailures()) + (if fault then 1 else 0)
            && (d.Memory? ==> !fault &&
                              (resp, d.Contents()) == MemStep(checked, d.BlockSize(), old(d.Contents()), req))
            && (d.Host? ==>
                  FileStep(checked, d.BlockSize(), old(d.Contents()), req, resp, d.Contents(), fault))
  {
    var device := GetWrapper(bdev).device;
    TransferLenExact(checked, device.BlockSize(), blkCnt);
    var total := Mul64(checked, device.BlockSize(), blkCnt).value;
    var o: Outcome;
    match device {
      case Memory(m) => o := m.WriteBlocks(checked, blkId, buf, total);
      case Host(f) => o := f.WriteBlocks(checked, blkId, buf, total);
    }
    fault := device.Host? && IsFault(o);
    match o {
      case Served(_) => status := Success;
      case Refused(_) => status := Failure;
      case Panicked => status := Aborted;
    }
  }

  // ------------------------------------------------------------------------------------------
  // The length `mkfs` formats

  /** `mkfs` wraps the device and takes the length of the filesystem from the partition. */
  method MkfsLength(checked: bool, device: Device) returns (len: u64)
    requires device.Valid()
    ensures device.Memory? ==> len == |device.Contents()|
    ensures device.Host? ==> len == device.f.blockCount * device.f.blockSize
  {
    var wrapper := new BlockDeviceWrapper(checked, device);
    len := wrapper.AsBdevPtr().partSize;
  }

  /** A new memory device of `size` bytes is formatted up to its last whole block. */
  method MkfsOnNewMemory(checked: bool, size: u64, blockSize: u32) returns (len: u64)
    requires 0 < blockSize && size < TWO_63
    ensures size - blockSize < len <= size && len % blockSize == 0
  {
    var m := new MemoryBlockDevice(size, blockSize);
    MulDiv(m.blockCount, blockSize);
    len := MkfsLength(checked, Memory(m));
  }

  /** So is a new image; it fails exactly when the image cannot be made. */
  method MkfsOnNewFile(checked: bool, host: HostSystem, size: u64, blockSize: u32) returns (len: Option<u64>)
    requires 0 < blockSize
    modifies host
    ensures len.None? <==> size >= TWO_63 || host.failures > old(host.failures)
    ensures len.Some? ==> size - blockSize < len.value <= size && len.value % blockSize == 0
  {
    var f := FileBlockDevice.Create(host, size, blockSize);
    if f.Err? {
      return None;
    }
    MulDiv(f.value.blockCount, blockSize);
    var n := MkfsLength(checked, Host(f.value));
    len := Some(n);
  }
}
