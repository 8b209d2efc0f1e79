/** The block requests lwext4 sends through the callbacks, and what each device makes of one. */
module BlockRequests {
  import opened MachineInts
  import opened MemoryDevice
  import opened FileDevice

  /** The callback's answer: zero, a nonzero errno, or no answer because the process aborted. */
  datatype Status = Success | Failure | Aborted

  /** `before` is what the caller's buffer holds when the read is issued. */
  datatype Request =
    | Bread(id: u64, cnt: u32, before: seq<byte>)
    | Bwrite(id: u64, cnt: u32, payload: seq<byte>)
  {
    function Buffer(): seq<byte> {
      if Bread? then before else payload
    }

    /** The buffer spans `cnt` blocks and is a slice Rust can form. */
    predicate Sized(bs: u32) {
      |Buffer()| == cnt * bs && cnt * bs < TWO_63
    }

    /** The request names only blocks of a device with `n` blocks. */
    predicate InRange(n: nat) {
      id + cnt <= n
    }

    predicate Covers(b: nat) {
      Bwrite? && id <= b < id + cnt
    }
  }

  /** `data` is the buffer after a read; a write hands nothing back. */
  datatype Response = Response(status: Status, data: seq<byte>)

  function StatusOf(o: Outcome): Status {
    match o
    case Served(_) => Success
    case Refused(_) => Failure
    case Panicked => Aborted
  }

  /** A memory device with contents `data` answers `req`. */
  function MemStep(checked: bool, bs: u32, data: seq<byte>, req: Request): (r: (Response, seq<byte>))
    requires 0 < bs && |data| < TWO_63 && req.Sized(bs)
    ensures |r.1| == |data|
  {
    match req
    case Bread(id, _, before) =>
      var (o, after) := MemRead(checked, data, bs, id, before);
      (Response(StatusOf(o), after), data)
    case Bwrite(id, _, payload) =>
      var (o, data') := MemWrite(checked, data, bs, id, payload);
      (Response(StatusOf(o), []), data')
  }

  /** A host-file device with contents `bytes` answers `req`, the host not faulting. */
  function FileApply(checked: bool, bs: u32, bytes: seq<byte>, req: Request): (Response, seq<byte>)
    requires 0 < bs
  {
    match req
    case Bread(id, _, before) =>
      var (o, after) := FileRead(checked, bytes, bs, id, before);
      (Response(StatusOf(o), after), bytes)
    case Bwrite(id, _, payload) =>
      var (o, bytes') := FileWrite(checked, bytes, bs, id, payload);
      (Response(StatusOf(o), []), bytes')
  }

  /** Every way a host-file device can answer `req`, with and without a host fault. */
  ghost predicate FileStep(
    checked: bool, bs: u32, bytes: seq<byte>, req: Request, resp: Response, bytes': seq<byte>, fault: bool)
    requires 0 < bs
  {
    if !fault then (resp, bytes') == FileApply(checked, bs, bytes, req)
    else
      && resp.status == Failure
      && match req
         case Bread(id, _, before) => bytes' == bytes && TornRead(checked, bytes, bs, id, before, resp.data)
         case Bwrite(id, _, payload) => resp.data == [] && TornWrite(checked, bytes, bs, id, payload, bytes')
  }
}
