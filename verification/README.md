# Block devices, mounts, paths and file transfers of ext4-lwext4

`ext4-lwext4` is a Rust wrapper around the C library lwext4. This project models the four parts of
the wrapper that carry state, loops and arithmetic of their own, and proves what they promise.

* **Block store and bridge** (`MemoryDevice`, `FileDevice`, `Bridge`, `BlockRequests`, `BlockStore`,
  `BlockLaws`, `BlockHistory`, `Driver`). The two block devices are classes that work in place on a
  byte array and on a host file with a cursor; the callbacks follow `bdev -> bdif -> p_user`.
  Multiplications and additions on u64 either panic or wrap (`checked`), because the workspace sets
  no profile and a build may do either. Each method is tied to a function on values or, where a host
  fault leaves a choice, to a relation; the theorems are about arbitrary histories of requests, and
  `Driver` states them of any number of wrappers driven through their bdev pointers.
* **Lifecycle** (`Lifecycle`, `LifecycleSafety`, `LifecycleScript`, `LifecycleTheorems`,
  `Ext4Filesystem`). Any number of instances run `mount`, `umount` and `drop` interleaved call by
  call, each C call succeeding or failing. The calls of a whole life are also written down as lists,
  which every run is proved to follow, and the same code as straight-line methods, which are proved
  to make exactly the machine's calls in the machine's order, so every theorem about runs covers them.
* **Path namespace** (`Namespace`). Decimal names, mount points, `make_path` and first-prefix routing.
* **File transfers** (`FileHandle`). The loops of `read_to_end` and `write_all` over transfers that
  may be short or fail.

## What is assumed of the environment

* Host file: opening, creating, sizing and measuring a file may fail; no file opened is 2^63 bytes long;
  a transfer moves some bytes at the cursor and advances it; a read of a nonempty buffer
  delivers nothing only at the end; offsets from 2^63 on cannot be sought; any call may fail.
  `read_exact` and `write_all` are the loops the Rust standard library runs over such transfers.
  An interrupted transfer, which those loops repeat, is part of one transfer here.
* lwext4 tables: a failed call changes neither table; removing an absent name fails and changes
  nothing; unregistering a present device succeeds; a mount succeeds only for a registered device.
* lwext4 files: `fread` and `fwrite` move some bytes at the position; `fread` into a nonempty buffer
  delivers nothing only at the end; `fwrite` may fail after it has written a prefix and advanced by
  it; `fseek` refuses a negative target and leaves the position when it fails.
* lwext4 routes a path to the first mount point in its table that is a prefix of it.

These are the contracts of the methods of `HostSystem`, `HostFile`, `Ext4File` and `Lwext4`, of
`Permits` and `After`, and of `Route`. Everything nondeterministic in them is left open, so what is
proved holds for every choice. The host and lwext4 keep a record of their calls, and every error the
code returns is traced to a call in it: the code invents none.

## Findings

* The bounds check of the memory device multiplies without protection. Without overflow checks block
  2^55 of a 512-byte-block device is served from block 0 (`MemoryDevice.WrappedReadServesBlockZero`);
  `MemoryDevice.BoundsCheckTruthfulIff` says exactly when the check tells the truth.
* The host-file device has no bounds check: an out-of-range write is accepted and grows the file
  (`BlockStore.WriteGrowsFile`; `BlockStore.StatusAgreesIff` says when the devices agree). Its returned
  count is wrong from 2^32 bytes on (`BlockLaws.LongTransferCountsZero`,
  `BlockLaws.ReturnedCountExactIff`); the callbacks discard the count, so they lose nothing.
* If the unmount inside `drop` fails, the mount point outlives the freed wrapper
  (`LifecycleTheorems.DanglingMountRun`); this happens exactly to instances all of whose unmount
  attempts failed (`LifecycleTheorems.MountsDangleIff`).
* After 2^64 mounts ids repeat and a second teardown can unregister another instance
  (`LifecycleTheorems.WrappedCounterRun`); up to 2^64 mounts it cannot.
* The repository's README shows a `BlockDevice` trait with `read_block` and `write_block` and a
  `stats` method. The source has `read_blocks`, `write_blocks` and `stat`; the model follows it.

## Model

| member | source | states |
|---|---|---|
| LifecycleSafety.ReachableInv | ext4-lwext4/src/fs.rs:71-136 | In every state any interleaving of at most 2^64 mounts, umounts and drops can reach, with any C call failing, both tables hold exactly what the successful calls of each instance left, and each instance's calls fit the point it is at |
| LifecycleScript.LifeIsScript | ext4-lwext4/src/fs.rs:71-136 | In every run each instance makes exactly these calls: the mount sequence, with a journal start exactly if read-write; flushes; perhaps an umount, to its end or to its failed unmount; and at last the whole teardown of drop. If the registration fails nothing follows, if the mount fails only the unregistration does |
| LifecycleTheorems.RegistryNeverDangles | ext4-lwext4/src/fs.rs:418-430 | Every registered device name leads to the wrapper of an instance that has not been freed and is not about to be |
| LifecycleTheorems.HoldersStayRegistered | ext4-lwext4/src/fs.rs:81-113 | From its registration until it begins to drop, an instance's name leads to its own wrapper, whatever the others do |
| LifecycleTheorems.StepsTouchOnlyTheirOwn | ext4-lwext4/src/fs.rs:118-136 | No step of one instance changes another instance or that instance's entries in either table |
| LifecycleTheorems.SecondTeardownChangesNothing | ext4-lwext4/src/fs.rs:418-430 | After a successful umount the teardown repeated by drop changes neither table, and its unmount and unregister calls fail |
| LifecycleTheorems.UmountUnregisterSucceeds | ext4-lwext4/src/fs.rs:131-133 | In umount, after the unmount has succeeded, unregistering the device always succeeds |
| LifecycleTheorems.JournalQuiescedBeforeUnmount | ext4-lwext4/src/fs.rs:92-129 | Every unmount attempt comes right after a cache flush and, if the journal was started, a journal stop before that; the journal starts only after a recovery of the mounted filesystem and stops only after it started; read-only instances attempt neither |
| LifecycleTheorems.ModeIsFollowed | ext4-lwext4/src/fs.rs:84-104 | Every mount asks for its instance's mode; once mounted, a read-write instance has attempted to start its journal and a read-only one never does; the journal is active exactly if a start succeeded |
| LifecycleTheorems.NewNamesAreFree | ext4-lwext4/src/fs.rs:73-75 | The names made for a new instance are in neither table |
| LifecycleTheorems.UnmountTriedBeforeUnregister | ext4-lwext4/src/fs.rs:418-430 | Whenever a device that got mounted is unregistered, the call right before was an unmount attempt |
| LifecycleTheorems.LeftBehindIff | ext4-lwext4/src/fs.rs:81-90 | When the wrapper goes, the device is unregistered, and the mount point remains exactly when a mount succeeded and no unmount did; then an unmount was attempted and failed, so nothing remains if the mount failed or if no call did |
| LifecycleTheorems.MountsDangleIff | ext4-lwext4/src/fs.rs:418-430 | Some mount point leads to a freed wrapper exactly when a freed instance was mounted and never successfully unmounted |
| LifecycleTheorems.DanglingMountRun | ext4-lwext4/src/fs.rs:424-428 | A concrete run after which a mount point leads to a freed wrapper |
| LifecycleTheorems.PathsReachTheirMount | ext4-lwext4/src/fs.rs:145-153 | In any reachable state and for any order of the mount table, a path made by an instance reaches that instance's own wrapper while it is mounted and no mount otherwise |
| LifecycleTheorems.IsolationIff | ext4-lwext4/src/fs.rs:20-75 | All runs of up to n mounts keep every holder registered with its own wrapper exactly when n is at most 2^64 |
| LifecycleTheorems.WrappedCounterRun | ext4-lwext4/src/fs.rs:73 | A concrete run of 2^64 + 1 mounts in which a second teardown unregisters another instance |
| Ext4Filesystem.Ext4Fs.Mount | ext4-lwext4/src/fs.rs:71-113 | mount makes the machine's calls in order, all of the mount sequence unless registration or mount fail; it fails exactly then, with both tables as before, and otherwise ends live with its names registered and mounted and its journal active exactly if the start succeeded |
| Ext4Filesystem.Ext4Fs.UmountSelf | ext4-lwext4/src/fs.rs:118-136 | umount makes the teardown calls up to a failed unmount or to the end, and then those of drop; it succeeds exactly if its unmount does and the device was registered; only the own names can go from the tables, and on success both do |
| Ext4Filesystem.Ext4Fs.Drop | ext4-lwext4/src/fs.rs:418-430 | drop makes all the teardown calls whatever fails; its device name is gone afterwards, and its mount point exactly if the unmount succeeded |
| Ext4Filesystem.SoloIsRun | ext4-lwext4/src/fs.rs:71-136 | Whatever an instance does without interference is a run of the machine from any state a run reaches |
| Ext4Filesystem.MountIsRun | ext4-lwext4/src/fs.rs:71-113 | A mount carried out by the method takes the machine to the state the method leaves |
| Ext4Filesystem.TeardownIsRun | ext4-lwext4/src/fs.rs:118-136 | An umount or drop carried out by the method takes the machine to the state the method leaves |
| Namespace.DecimalRoundTrip | ext4-lwext4/src/fs.rs:74-75 | The decimal notation of an id reads back as the id |
| Namespace.DecimalCanonical | ext4-lwext4/src/fs.rs:74-75 | A string of digits is the notation printed for its value exactly when it has no superfluous leading zero |
| Namespace.DeviceNameInjective | ext4-lwext4/src/fs.rs:74 | Device names are equal exactly for equal ids |
| Namespace.MountPointPrefixIff | ext4-lwext4/src/fs.rs:75 | A mount point is a prefix of any text under another mount point exactly when the ids are equal |
| Namespace.MakePathFailsIff | ext4-lwext4/src/fs.rs:152 | make_path fails exactly when the path contains a NUL |
| Namespace.MakePathSeparates | ext4-lwext4/src/fs.rs:145-153 | A full path is the mount point without its slash followed by the path, with one slash added if the path has none in front; it lies under its own mount point and no other; two full paths are equal exactly on one mount for paths that are equal or differ by one leading slash that the other lacks |
| Namespace.RoutesHome | ext4-lwext4/src/fs.rs:145-153 | First-prefix routing over mount points in any order sends a path to its own mount if present and nowhere otherwise |
| Driver.DriveAsStore | ext4-lwext4/src/blockdev/mod.rs:154-201 | A device of either kind driven through its bdev with in-range requests is a store of blocks: unless a call of the host fails every request succeeds with the store's blocks and the contents afterwards are the store's |
| Driver.DriveMemoryAndFile | ext4-lwext4/src/blockdev/mod.rs:154-201 | A memory and a host-file device with the same block region, driven through their bdevs with the same in-range requests, give equal answers and end with the same block region unless a call of the host fails |
| Driver.DriveTwoFiles | ext4-lwext4/src/blockdev/file.rs:112-144 | Two host-file devices with equal bytes, whatever their cursors and transfer schedules, driven with the same requests in range or not, give equal answers and hold equal bytes after each unless a call of the host fails |
| Driver.DriveAndRead | ext4-lwext4/src/blockdev/mod.rs:154-201 | After any run through the bdev with any failures of the host, a read that does not fault returns what a completed write put into a block that no later request covers; there are as many faults as failed calls of the host |
| Driver.Drive | ext4-lwext4/src/blockdev/mod.rs:43-201 | Any run of requests through a bdev is a history of the device behind it, with as many faults as failed calls of the host; the wrapper stays usable and every device with another footprint keeps its contents |
| Driver.DriveAll | ext4-lwext4/src/blockdev/mod.rs:43-201 | For requests interleaved in any order over any number of bdevs whose devices share no storage, each device's contents and answers are a history of the requests sent to it, with as many faults as failed calls of the host on its file, and every wrapper stays usable |
| BlockStore.TraceRefinesStore | ext4-lwext4/src/blockdev/mod.rs:154-201 | Every history without host faults of a memory or host-file device under in-range requests is a history of one abstract store of blocks, and bytes past the block region never change |
| BlockHistory.ReadSeesLastWrite | ext4-lwext4/src/blockdev/traits.rs:8-26 | In a history with any number of host faults, a read that does not fault returns for each block what a completed write stored there, if no later request covers the block, completed or not |
| BlockHistory.ReadSeesInitial | ext4-lwext4/src/blockdev/traits.rs:8-26 | In such a history a read that does not fault returns the initial contents of a block no earlier request covers |
| BlockHistory.BlockKept | ext4-lwext4/src/blockdev/mod.rs:179-201 | Faults or not, a block keeps its contents until a request covers it, and bytes behind the block region never change |
| BlockStore.MemoryAndFileAgree | ext4-lwext4/src/blockdev/mod.rs:154-201 | Started with the same block region, a memory and a host-file device give equal answers to any run of in-range requests without host faults and keep equal block regions |
| BlockStore.StatusAgreesIff | ext4-lwext4/src/blockdev/memory.rs:81-109 | For any request, in either overflow regime, and whatever bytes the file has behind the memory device's contents, the two statuses agree exactly if the start panics on both, if the range's end as computed fits in 64 bits and the range lies in the memory device, starts where the host cannot seek to, or is a nonempty read past the end of the file, or if the end wraps to a point past the memory device |
| BlockStore.MemOutOfRange | ext4-lwext4/src/blockdev/memory.rs:85-90 | An out-of-range request whose end fits in 64 bits fails on a memory device and changes neither the device nor the buffer |
| BlockStore.WriteGrowsFile | ext4-lwext4/src/blockdev/file.rs:129-144 | A concrete out-of-range write that the memory device refuses and that doubles the file |
| BlockStore.InRangeStep | ext4-lwext4/src/blockdev/file.rs:112-144 | For an in-range request neither the kind of device nor the overflow regime makes a difference |
| BlockLaws.TransferIsItsSingles | ext4-lwext4/src/blockdev/mod.rs:163-193 | A transfer of n blocks has the effect of n one-block transfers, and block i of a long read is the i-th short read |
| BlockLaws.TornWriteTearsOneBlock | ext4-lwext4/src/blockdev/file.rs:129-144 | A write hit by a host fault leaves some whole blocks new, one block new up to a byte and old from there, all other blocks old, and the bytes behind the block region as they were |
| BlockLaws.ReturnedCountExactIff | ext4-lwext4/src/blockdev/file.rs:112-126 | For requests of whole blocks that are served, the count the memory device answers is exact; the count the host-file device answers is exact precisely below 2^32 bytes |
| BlockLaws.LongTransferCountsZero | ext4-lwext4/src/blockdev/file.rs:129-144 | A concrete write of 2^23 blocks that both devices serve and the host-file device reports as no block |
| MemoryDevice.BoundsCheckTruthfulIff | ext4-lwext4/src/blockdev/memory.rs:81-109 | The bounds check serves exactly the ranges inside the device if and only if the request end fits in 64 bits or, unchecked, wraps to a point past the device |
| MemoryDevice.WrappedReadServesBlockZero | ext4-lwext4/src/blockdev/memory.rs:81-94 | A concrete request far out of range that an unchecked build serves from block 0 |
| MemoryDevice.MemoryBlockDevice.constructor | ext4-lwext4/src/blockdev/memory.rs:25-35 | A new device is zero filled, holds whole blocks only, and is at most the given size and within one block of it |
| MemoryDevice.MemoryBlockDevice.FromVec | ext4-lwext4/src/blockdev/memory.rs:49-62 | An aligned vector becomes a device of exactly its blocks |
| MemoryDevice.MemoryBlockDevice.ReadBlocks | ext4-lwext4/src/blockdev/memory.rs:81-94 | Outcome and buffer are those of the read on values; the rest of the buffer stays |
| MemoryDevice.MemoryBlockDevice.WriteBlocks | ext4-lwext4/src/blockdev/memory.rs:96-109 | Outcome and contents are those of the write on values; a request that is not served changes nothing |
| FileDevice.FileBlockDevice.Create | ext4-lwext4/src/blockdev/file.rs:34-56 | It fails exactly from 2^63 bytes on or when a call of the host fails; otherwise the image has the given size in zero bytes and a block region of at most that and within one block of it |
| FileDevice.FileBlockDevice.Open | ext4-lwext4/src/blockdev/file.rs:70-84 | It fails exactly when there is no file or a call of the host fails; otherwise the block region lies inside the file and reaches to within one block of its end |
| FileDevice.FileBlockDevice.ReadBlocks | ext4-lwext4/src/blockdev/file.rs:112-127 | A fault is reported exactly when a call of the host failed; without one outcome and buffer depend on the file's bytes only, not on cursor or schedule; with one, a prefix of the range has been delivered |
| FileDevice.FileBlockDevice.WriteBlocks | ext4-lwext4/src/blockdev/file.rs:129-144 | A fault is reported exactly when a call of the host failed; without one outcome and file depend on the file's bytes only; with one, a prefix of the data has been stored |
| FileDevice.HostFile.ReadExact | ext4-lwext4/src/blockdev/file.rs:123-124 | Over any schedule of short reads the buffer is filled, or holds what there was up to the end of the file, or a prefix exactly after a failed call |
| FileDevice.HostFile.WriteAll | ext4-lwext4/src/blockdev/file.rs:140-141 | Over any schedule of short writes all data is stored, or a prefix exactly after a call that failed or stored nothing |
| FileDevice.FileWriteLandsIff | ext4-lwext4/src/blockdev/file.rs:129-144 | A write lands at its true byte offset exactly when that offset is below 2^63 |
| Bridge.BlockDeviceWrapper.constructor | ext4-lwext4/src/blockdev/mod.rs:43-107 | The pointers lead from the bdev back to the wrapper, with the device's geometry; part_size is the length of the memory device, and for a host file its block count times its block size, computed without overflow and inside the file |
| Bridge.MkfsOnNewMemory | ext4-lwext4/src/mkfs.rs:101-116 | A new memory device of a given size is formatted over the largest whole number of blocks in that size |
| Bridge.MkfsOnNewFile | ext4-lwext4/src/mkfs.rs:101-116 | So is a new image, unless the size is 2^63 or more or a call of the host fails |
| Bridge.TransferLenExact | ext4-lwext4/src/blockdev/mod.rs:163-164 | In either overflow regime the callbacks compute a transfer's byte count exactly and without panic |
| Bridge.BlockdevBread | ext4-lwext4/src/blockdev/mod.rs:154-176 | A read through the bdev answers as the device's step allows, with a fault exactly when a call of the host failed, fills only the transfer's part of the buffer, and changes no device contents |
| Bridge.BlockdevBwrite | ext4-lwext4/src/blockdev/mod.rs:179-201 | A write through the bdev answers and changes the device as the device's step allows, with a fault exactly when a call of the host failed, and writes to nothing but that device |
| FileHandle.File.Seek | ext4-lwext4/src/file.rs:69-79 | A seek from the start arrives at the requested byte and reports it, or fails without moving; from 2^63 on it always fails; lwext4 is given the distance and origin asked for, and the seek fails exactly if that call does |
| FileHandle.TroubleFreeIff | ext4-lwext4/src/file.rs:109-155 | A run of calls has no trouble exactly when every call succeeded and every write of some data moved some; the operations below succeed exactly then and otherwise return the first trouble |
| FileHandle.File.ReadToEnd | ext4-lwext4/src/file.rs:109-130 | Terminates; unless a call fails the buffer has grown by the whole contents, from any position and over any schedule; otherwise by a prefix of them, and the failure is returned |
| FileHandle.File.ReadToString | ext4-lwext4/src/file.rs:133-139 | The text is replaced by the decoded contents exactly when no call failed and they decode; otherwise it is what it was |
| FileHandle.File.WriteAll | ext4-lwext4/src/file.rs:142-155 | Terminates; unless a call fails or moves nothing the file is as after one write of all data over any schedule; otherwise exactly a prefix has been written, the position is behind it, and that trouble is returned |
| FileHandle.WriteIsLocal | ext4-lwext4/src/file.rs:142-155 | The written range reads back as written, other bytes are unchanged, and the size is the larger of the old size and the end of the write |
| FileHandle.WriteEach | ext4-lwext4/src/file.rs:142-155 | write_all calls over several pieces leave the file as one write_all of their concatenation does, and on the first trouble among their calls, which is returned, exactly a prefix of it written |
| FileHandle.WriteThenReadBack | ext4-lwext4/src/file.rs:109-155 | Pieces written to an empty file by write_all calls are read back by read_to_end as exactly their concatenation, unless some call fails or some write moves nothing |

## Left out

- The internals of lwext4: allocation, extents, journal contents and directories. The C source is not part of this model.
- The FFI declarations, the build script, errno values, and the conversions of file types, filesystem types and open flags: finite tables.
- `MkfsOptions`, `Metadata`, `DirEntry`, `FsStats` and the read-only guards: each is one expression.
- `as_slice`, `as_mut_slice`, `into_vec` and the constructors with default block sizes: they only hand on a field or a constant.
- Directory iteration, `readlink`, `stat` and `metadata`: their results come from lwext4.
- Other implementations of the `BlockDevice` trait, 32-bit targets, poisoned locks, `flush` and the open and close callbacks.
- Images opened read-only: a write to one fails in the host and is covered as a host fault.
- Append-mode handles, whose position lwext4 decides, and file sizes past 2^64.
- Partial effects of a failed unmount inside lwext4: a failed call is taken to leave the tables alone.
- Bridge.BlockdevBread: the errno of a failure is reduced to "nonzero".
- Bridge.BlockdevBwrite: the errno of a failure is reduced to "nonzero".
- FileHandle.File.Seek: the target of a seek relative to the end is left open, because only lwext4 defines it.
- FileHandle.File.ReadToEnd: the position after a failed read is left open, because lwext4 decides it.
- FileHandle.File.ReadToString: decoding is a parameter; UTF-8 itself is not modelled.
- Driver.DriveMemoryAndFile: runs in which a call of the host fails are excluded, as are histories with faults in BlockStore.MemoryAndFileAgree; what faults leave behind is BlockLaws.TornWriteTearsOneBlock and BlockHistory.ReadSeesLastWrite.
