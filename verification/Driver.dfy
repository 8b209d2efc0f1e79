/**
 * Runs of requests on real wrappers: lwext4's side of the bridge. The laws about histories are
 * carried over to devices that are driven through the callbacks.
 */
module Driver {
  import opened MachineInts
  import opened MemoryDevice
  import opened FileDevice
  import opened BlockRequests
  import opened BlockStore
  import opened BlockLaws
  import opened BlockHistory
  import opened Bridge

  function KindOf(d: Device): Kind {
    if d.Memory? then InMemory else OnHost
  }

  predicate AllSized(bs: u32, reqs: seq<Request>) {
    forall i :: 0 <= i < |reqs| ==> reqs[i].Sized(bs)
  }

  /** A wrapper lwext4 can use: its pointers lead back to it and its device is valid. */
  ghost predicate Ready(w: BlockDeviceWrapper)
    reads w.bdif, w.bdev, w.device.Footprint()
  {
    w.Tied() && w.device.Valid()
  }

  /** The block region of a valid device, as the laws about histories need it. */
  lemma ValidDeviceHolds(d: Device)
    requires d.Valid()
    ensures 0 < d.BlockSize()
    ensures Holds(KindOf(d), d.BlockSize(), d.BlockCount(), d.Contents())
  {
  }

  /** What a callback promises of one request is a step of the device. */
  lemma AnswerIsStep(
    d: Device, checked: bool, s: seq<byte>, req: Request, resp: Response, s': seq<byte>, fault: bool)
    requires 0 < d.BlockSize() && req.Sized(d.BlockSize()) && (d.Memory? ==> |s| < TWO_63)
    requires d.Memory? ==> !fault && (resp, s') == MemStep(checked, d.BlockSize(), s, req)
    requires d.Host? ==> FileStep(checked, d.BlockSize(), s, req, resp, s', fault)
    ensures AnyStep(KindOf(d), checked, d.BlockSize(), s, req, resp, s', fault)
  {
    hide MemStep, FileStep;
  }

  /** lwext4's buffer for a transfer. */
  method Buffered(data: seq<byte>) returns (buf: array<byte>)
    ensures fresh(buf) && buf.Length == |data| && buf[..|data|] == data
  {
    buf := new byte[|data|](i requires 0 <= i < |data| => data[i]);
  }

  /** A read of `cnt` blocks, sent through the wrapper's bdev pointer with a buffer of its own. */
  method SendRead(checked: bool, w: BlockDeviceWrapper, req: Request)
    returns (resp: Response, ghost fault: bool)
    requires Ready(w) && req.Bread? && req.Sized(w.device.BlockSize())
    modifies w.device.Footprint()
    ensures Ready(w)
    ensures AnyStep(KindOf(w.device), checked, w.device.BlockSize(), old(w.device.Contents()), req, resp,
                    w.device.Contents(), fault)
    ensures w.device.HostFailures() == old(w.device.HostFailures()) + if fault then 1 else 0
  {
    hide MemStep, FileStep, AnyStep;
    ghost var was := w.device.Contents();
    var data := req.before;
    var buf := Buffered(data);
    var status;
    status, fault := BlockdevBread(checked, w.AsBdevPtr(), buf, req.id, req.cnt);
    resp := Response(status, buf[..|data|]);
    AnswerIsStep(w.device, checked, was, req, resp, w.device.Contents(), fault);
  }

  /** A write of `cnt` blocks, likewise. */
  method SendWrite(checked: bool, w: BlockDeviceWrapper, req: Request)
    returns (resp: Response, ghost fault: bool)
    requires Ready(w) && req.Bwrite? && req.Sized(w.device.BlockSize())
    modifies w.device.Footprint()
    ensures Ready(w)
    ensures AnyStep(KindOf(w.device), checked, w.device.BlockSize(), old(w.device.Contents()), req, resp,
                    w.device.Contents(), fault)
    ensures w.device.HostFailures() == old(w.device.HostFailures()) + if fault then 1 else 0
  {
    hide MemStep, FileStep, AnyStep;
    ghost var was := w.device.Contents();
    var data := req.payload;
    var buf := Buffered(data);
    var status;
    status, fault := BlockdevBwrite(checked, w.AsBdevPtr(), buf, req.id, req.cnt);
    resp := Response(status, []);
    AnswerIsStep(w.device, checked, was, req, resp, w.device.Contents(), fault);
  }

  /** One request through the wrapper's bdev pointer; it faults exactly when a call of the host fails. */
  method Send(checked: bool, w: BlockDeviceWrapper, req: Request, ghost others: set<Device>)
    returns (resp: Response, ghost fault: bool)
    requires Ready(w) && req.Sized(w.device.BlockSize())
    requires forall d <- others :: w.device.Footprint() !! d.Footprint()
    modifies w.device.Footprint()
    ensures Ready(w)
    ensures forall d <- others :: d.Contents() == old(d.Contents()) && d.HostFailures() == old(d.HostFailures())
    ensures AnyStep(KindOf(w.device), checked, w.device.BlockSize(), old(w.device.Contents()), req, resp,
                    w.device.Contents(), fault)
    ensures w.device.HostFailures() == old(w.device.HostFailures()) + if fault then 1 else 0
  {
    hide AnyStep;
    if req.Bread? {
      resp, fault := SendRead(checked, w, req);
    } else {
      resp, fault := SendWrite(checked, w, req);
    }
  }

  function FaultCount(faults: seq<bool>): nat {
    if faults == [] then 0 else FaultCount(faults[..|faults| - 1]) + if faults[|faults| - 1] then 1 else 0
  }

  lemma FaultCountMore(faults: seq<bool>, fault: bool)
    ensures FaultCount(faults + [fault]) == FaultCount(faults) + if fault then 1 else 0
  {
    assert (faults + [fault])[..|faults|] == faults;
  }

  lemma {:induction false} FaultFreeIff(faults: seq<bool>)
    ensures FaultFree(faults) <==> FaultCount(faults) == 0
  {
    if faults != [] {
      var last := |faults| - 1;
      FaultFreeIff(faults[..last]);
      assert FaultFree(faults) <==> FaultFree(faults[..last]) && !faults[last];
    }
  }

  /**
   * Any run of requests through one bdev is a history of its device, from the contents before to
   * the contents after; every fault in it stands for one failed call of the host. The wrapper
   * stays usable and no other device changes.
   */
  method Drive(checked: bool, w: BlockDeviceWrapper, reqs: seq<Request>, ghost others: set<Device>)
    returns (resps: seq<Response>, ghost states: seq<seq<byte>>, ghost faults: seq<bool>)
    requires Ready(w) && AllSized(w.device.BlockSize(), reqs)
    requires forall d <- others :: w.device.Footprint() !! d.Footprint()
    modifies w.device.Footprint()
    ensures Ready(w) && forall d <- others :: d.Contents() == old(d.Contents())
    ensures History(KindOf(w.device), checked, w.device.BlockSize(), states, reqs, resps, faults)
    ensures |resps| == |faults| == |reqs| && |states| == |reqs| + 1
    ensures states[0] == old(w.device.Contents()) && states[|reqs|] == w.device.Contents()
    ensures w.device.HostFailures() == old(w.device.HostFailures()) + FaultCount(faults)
  {
    hide AnyStep, FaultCount;
    assert FaultCount([]) == 0 by { FaultFreeIff([]); }
    resps, states, faults := [], [w.device.Contents()], [];
    var i := 0;
    assert reqs[..0] == [];
    while i < |reqs|
      invariant 0 <= i <= |reqs|
      invariant Ready(w) && forall d <- others :: d.Contents() == old(d.Contents())
      invariant History(KindOf(w.device), checked, w.device.BlockSize(), states, reqs[..i], resps, faults)
      invariant states[0] == old(w.device.Contents()) && states[i] == w.device.Contents()
      invariant w.device.HostFailures() == old(w.device.HostFailures()) + FaultCount(faults)
    {
      ghost var before := w.device.Contents();
      var resp, fault := Send(checked, w, reqs[i], others);
      HistoryMore(KindOf(w.device), checked, w.device.BlockSize(), states, reqs[..i], resps, faults,
                  reqs[i], resp, w.device.Contents(), fault);
      FaultCountMore(faults, fault);
      assert reqs[..i] + [reqs[i]] == reqs[..i + 1];
      resps, states, faults := resps + [resp], states + [w.device.Contents()], faults + [fault];
      i := i + 1;
    }
    assert reqs[..i] == reqs;
  }

  /**
   * A device of either kind, driven through its bdev with requests in range, is a store of
   * blocks: unless a call of the host fails, every request succeeds with the store's blocks, the
   * contents afterwards are the store's, and bytes behind the block region are as before. For a
   * memory device no call of the host is ever made.
   */
  method DriveAsStore(checked: bool, w: BlockDeviceWrapper, reqs: seq<Request>)
    returns (resps: seq<Response>)
    requires Ready(w) && AllInRange(w.device.BlockSize(), w.device.BlockCount(), reqs)
    modifies w.device.Footprint()
    ensures Ready(w) && |resps| == |reqs|
    ensures w.device.Memory? ==> w.device.HostFailures() == old(w.device.HostFailures())
    ensures var bs, n := w.device.BlockSize(), w.device.BlockCount();
            n * bs <= |old(w.device.Contents())| && n * bs <= |w.device.Contents()|
    ensures var bs, n := w.device.BlockSize(), w.device.BlockCount();
            var store := Blocks(old(w.device.Contents())[..n * bs], bs, n);
            w.device.HostFailures() == old(w.device.HostFailures()) ==>
              && w.device.Contents()[n * bs..] == old(w.device.Contents())[n * bs..]
              && Blocks(w.device.Contents()[..n * bs], bs, n) == StoreAfter(bs, store, reqs)
              && forall i :: 0 <= i < |reqs| ==>
                   Answers(bs, resps[i], StoreStep(bs, StoreAfter(bs, store, reqs[..i]), reqs[i]).0)
  {
    hide History, Answers, StoreAfter, StoreStep, Trace;
    ghost var kind, bs, n := KindOf(w.device), w.device.BlockSize(), w.device.BlockCount();
    ValidDeviceHolds(w.device);
    ghost var states, faults;
    resps, states, faults := Drive(checked, w, reqs, {});
    FaultFreeIff(faults);
    if FaultFree(faults) {
      FaultFreeIsTrace(kind, checked, bs, states, reqs, resps, faults);
      TraceRefinesStore(kind, checked, bs, n, states, reqs, resps, |reqs|);
      assert reqs[..|reqs|] == reqs;
      forall i | 0 <= i < |reqs|
        ensures Answers(bs, resps[i],
                        StoreStep(bs, StoreAfter(bs, Blocks(states[0][..n * bs], bs, n), reqs[..i]), reqs[i]).0)
      {
        TraceRefinesStore(kind, checked, bs, n, states, reqs, resps, i);
      }
    }
  }

  /**
   * Two host-file devices with equal bytes, wherever their cursors are and however the host cuts
   * their transfers, driven with the same requests, in range or not: unless a call of the
   * host fails on one of them, they give equal answers and hold equal bytes after every request.
   */
  method DriveTwoFiles(checked: bool, a: BlockDeviceWrapper, b: BlockDeviceWrapper, reqs: seq<Request>)
    returns (respsA: seq<Response>, respsB: seq<Response>, ghost statesA: seq<seq<byte>>, ghost statesB: seq<seq<byte>>,
             ghost faultsA: seq<bool>, ghost faultsB: seq<bool>)
    requires Ready(a) && Ready(b) && a.device.Host? && b.device.Host?
    requires a.device.f.file != b.device.f.file && a.device.f.file.bytes == b.device.f.file.bytes
    requires a.device.BlockSize() == b.device.BlockSize() && AllSized(a.device.BlockSize(), reqs)
    modifies a.device.Footprint(), b.device.Footprint()
    ensures History(OnHost, checked, a.device.BlockSize(), statesA, reqs, respsA, faultsA)
    ensures History(OnHost, checked, a.device.BlockSize(), statesB, reqs, respsB, faultsB)
    ensures a.device.HostFailures() == old(a.device.HostFailures())
            && b.device.HostFailures() == old(b.device.HostFailures()) ==>
              && respsA == respsB && statesA == statesB
              && a.device.f.file.bytes == b.device.f.file.bytes
  {
    hide History, Trace;
    ghost var bs := a.device.BlockSize();
    respsA, statesA, faultsA := Drive(checked, a, reqs, {b.device});
    respsB, statesB, faultsB := Drive(checked, b, reqs, {a.device});
    FaultFreeIff(faultsA);
    FaultFreeIff(faultsB);
    if FaultFree(faultsA) && FaultFree(faultsB) {
      FaultFreeIsTrace(OnHost, checked, bs, statesA, reqs, respsA, faultsA);
      FaultFreeIsTrace(OnHost, checked, bs, statesB, reqs, respsB, faultsB);
      FileRunsDeterministic(checked, bs, statesA, statesB, reqs, respsA, respsB, |reqs|);
      assert respsA == respsA[..|reqs|] && respsB == respsB[..|reqs|];
      forall i | 0 <= i <= |reqs| ensures statesA[i] == statesB[i] {
        FileRunsDeterministic(checked, bs, statesA, statesB, reqs, respsA, respsB, i);
      }
    }
  }

  /**
   * A memory device and a host-file device with the same block region, driven with the same
   * requests in range, each through its own bdev and each in its own overflow regime: unless a
   * call of the host fails, they give equal answers and end with the same block region, and the file's bytes
   * behind it are as before.
   */
  method DriveMemoryAndFile(
    checkedM: bool, checkedF: bool, m: BlockDeviceWrapper, f: BlockDeviceWrapper, reqs: seq<Request>)
    returns (respsM: seq<Response>, respsF: seq<Response>)
    requires Ready(m) && Ready(f) && m.device.Memory? && f.device.Host?
    requires m.device.BlockSize() == f.device.BlockSize() && m.device.BlockCount() == f.device.BlockCount()
    requires m.device.Contents() <= f.device.Contents()
    requires AllInRange(m.device.BlockSize(), m.device.BlockCount(), reqs)
    modifies m.device.Footprint(), f.device.Footprint()
    ensures f.device.HostFailures() == old(f.device.HostFailures()) ==>
              && respsM == respsF
              && f.device.Contents() == m.device.Contents() + old(f.device.Contents()[|m.device.Contents()|..])
  {
    hide History, Trace;
    ghost var bs, n := m.device.BlockSize(), m.device.BlockCount();
    ValidDeviceHolds(m.device);
    ValidDeviceHolds(f.device);
    ghost var mem, file, faultsM, faults;
    respsM, mem, faultsM := Drive(checkedM, m, reqs, {f.device});
    respsF, file, faults := Drive(checkedF, f, reqs, {m.device});
    FaultFreeIff(faults);
    MemoryNeverFaults(checkedM, bs, mem, reqs, respsM, faultsM);
    FaultFreeIsTrace(InMemory, checkedM, bs, mem, reqs, respsM, faultsM);
    if FaultFree(faults) {
      FaultFreeIsTrace(OnHost, checkedF, bs, file, reqs, respsF, faults);
      MemoryAndFileAgree(checkedM, checkedF, bs, n, mem, file, reqs, respsM, respsF, |reqs|);
      forall i | 0 <= i < |reqs| ensures respsM[i] == respsF[i] {
        MemoryAndFileAgree(checkedM, checkedF, bs, n, mem, file, reqs, respsM, respsF, i);
      }
    }
  }

  /**
   * With any number of host faults on the way: a block read through the bdev that does not fault
   * is what the completed write `j` put there, if no request after `j` covers it. Every fault
   * stands for a failed call of the host.
   */
  method DriveAndRead(
    checked: bool, w: BlockDeviceWrapper, reqs: seq<Request>, ghost b: nat, ghost j: nat, read: Request)
    returns (resp: Response, ghost fault: bool, ghost faults: seq<bool>)
    requires Ready(w) && AllInRange(w.device.BlockSize(), w.device.BlockCount(), reqs)
    requires read.Sized(w.device.BlockSize()) && read.InRange(w.device.BlockCount())
    requires read.Bread? && read.id <= b < read.id + read.cnt
    requires j < |reqs| && reqs[j].Covers(b) && Untouched(reqs, j + 1, |reqs|, b)
    modifies w.device.Footprint()
    ensures |faults| == |reqs|
    ensures w.device.HostFailures() == old(w.device.HostFailures()) + FaultCount(faults + [fault])
    ensures !faults[j] && !fault ==>
              && resp.status == Success && |resp.data| == read.cnt * w.device.BlockSize()
              && Reported(w.device.BlockSize(), read, resp, b) == Written(w.device.BlockSize(), reqs[j], b)
  {
    hide History, AnyStep;
    ghost var kind, bs, n := KindOf(w.device), w.device.BlockSize(), w.device.BlockCount();
    ValidDeviceHolds(w.device);
    assert (reqs + [read])[|reqs|] == read;
    assert forall i :: 0 <= i < |reqs| ==> (reqs + [read])[i] == reqs[i];
    assert AllInRange(bs, n, reqs + [read]);
    ghost var states;
    var resps;
    resps, states, faults := Drive(checked, w, reqs, {});
    resp, fault := Send(checked, w, read, {});
    FaultCountMore(faults, fault);
    HistoryMore(kind, checked, bs, states, reqs, resps, faults, read, resp, w.device.Contents(), fault);
    if !faults[j] && !fault {
      ReadSeesLastWrite(kind, checked, bs, n, states + [w.device.Contents()], reqs + [read], resps + [resp],
                        faults + [fault], |reqs|, b, j);
    }
  }

  // ------------------------------------------------------------------------------------------
  // Requests interleaved over many devices

  /** The entries of `xs` that belong to device `k`, `who` naming the device of each. */
  function Mine<T>(who: seq<nat>, xs: seq<T>, k: nat): seq<T>
    requires |who| == |xs|
  {
    if xs == [] then []
    else
      var last := |xs| - 1;
      Mine(who[..last], xs[..last], k) + if who[last] == k then [xs[last]] else []
  }

  lemma MineMore<T>(who: seq<nat>, xs: seq<T>, w: nat, x: T, k: nat)
    requires |who| == |xs|
    ensures Mine(who + [w], xs + [x], k) == Mine(who, xs, k) + if w == k then [x] else []
  {
    assert (who + [w])[..|who|] == who && (xs + [x])[..|xs|] == xs;
  }

  /** Everything the devices behind the wrappers write to. */
  ghost function Footprints(ws: seq<BlockDeviceWrapper>): set<object> {
    set w, o | w in ws && o in w.device.Footprint() :: o
  }

  /** No two of the wrappers' devices write to the same object. */
  ghost predicate Apart(ws: seq<BlockDeviceWrapper>) {
    forall j, k :: 0 <= j < |ws| && 0 <= k < |ws| && j != k ==> ws[j].device.Footprint() !! ws[k].device.Footprint()
  }

  /** The wrappers are usable and no two of them write to the same object. */
  ghost predicate AllReady(ws: seq<BlockDeviceWrapper>)
    reads set w | w in ws :: w.bdif, set w | w in ws :: w.bdev, Footprints(ws)
  {
    && (forall k :: 0 <= k < |ws| ==> Ready(ws[k]))
    && Apart(ws)
  }

  ghost function ContentsOf(ws: seq<BlockDeviceWrapper>): (r: seq<seq<byte>>)
    reads Footprints(ws)
    ensures |r| == |ws| && forall k :: 0 <= k < |ws| ==> r[k] == ws[k].device.Contents()
  {
    if ws == [] then [] else ContentsOf(ws[..|ws| - 1]) + [ws[|ws| - 1].device.Contents()]
  }

  /** Every request names one of the wrappers and has a buffer of the right size for it. */
  predicate AllAddressed(ws: seq<BlockDeviceWrapper>, who: seq<nat>, reqs: seq<Request>) {
    && |who| == |reqs|
    && forall i :: 0 <= i < |reqs| ==> who[i] < |ws| && reqs[i].Sized(ws[who[i]].device.BlockSize())
  }

  /** What has happened to one device: its contents after each of its requests, and which faulted. */
  datatype Record = Record(states: seq<seq<byte>>, faults: seq<bool>)

  /** The record is a history of device `d` from contents `start` on. */
  ghost predicate Recorded(
    checked: bool, d: Device, rec: Record, reqs: seq<Request>, resps: seq<Response>, start: seq<byte>)
  {
    && History(KindOf(d), checked, d.BlockSize(), rec.states, reqs, resps, rec.faults)
    && rec.states[0] == start
  }

  /** Each device's record is a history of the requests sent to it. */
  ghost predicate AllRecorded(
    checked: bool, ws: seq<BlockDeviceWrapper>, recs: seq<Record>, who: seq<nat>, reqs: seq<Request>,
    resps: seq<Response>, starts: seq<seq<byte>>)
    requires |who| == |reqs| == |resps| && |recs| == |starts| == |ws|
  {
    forall k :: 0 <= k < |ws| ==>
      Recorded(checked, ws[k].device, recs[k], Mine(who, reqs, k), Mine(who, resps, k), starts[k])
  }

  ghost function FailuresOf(ws: seq<BlockDeviceWrapper>): (r: seq<nat>)
    reads Footprints(ws)
    ensures |r| == |ws| && forall k :: 0 <= k < |ws| ==> r[k] == ws[k].device.HostFailures()
  {
    if ws == [] then [] else FailuresOf(ws[..|ws| - 1]) + [ws[|ws| - 1].device.HostFailures()]
  }

  /**
   * Each device's present contents are the last ones recorded, and since its count of failed host
   * calls was `failed` every failure has been recorded as one fault.
   */
  ghost predicate UpToDate(ws: seq<BlockDeviceWrapper>, recs: seq<Record>, failed: seq<nat>)
    requires |recs| == |failed| == |ws|
    reads Footprints(ws)
  {
    forall k :: 0 <= k < |ws| ==>
      && recs[k].states != [] && recs[k].states[|recs[k].states| - 1] == ws[k].device.Contents()
      && ws[k].device.HostFailures() == failed[k] + FaultCount(recs[k].faults)
  }

  lemma NothingRecorded(
    checked: bool, ws: seq<BlockDeviceWrapper>, recs: seq<Record>, who: seq<nat>, reqs: seq<Request>,
    starts: seq<seq<byte>>)
    requires who == [] && reqs == [] && |recs| == |starts| == |ws|
    requires forall k :: 0 <= k < |ws| ==> recs[k] == Record([starts[k]], [])
    ensures AllRecorded(checked, ws, recs, who, reqs, [], starts)
  {
  }

  /** One more request of device `k` extends its record and no other. */
  lemma RecordMore(
    checked: bool, ws: seq<BlockDeviceWrapper>, recs: seq<Record>, who: seq<nat>, reqs: seq<Request>,
    resps: seq<Response>, starts: seq<seq<byte>>, k: nat, req: Request, resp: Response, s': seq<byte>, fault: bool)
    requires |who| == |reqs| == |resps| && |recs| == |starts| == |ws| && k < |ws| && recs[k].states != []
    requires AllRecorded(checked, ws, recs, who, reqs, resps, starts)
    requires AnyStep(KindOf(ws[k].device), checked, ws[k].device.BlockSize(),
                     recs[k].states[|recs[k].states| - 1], req, resp, s', fault)
    ensures AllRecorded(checked, ws, recs[k := Record(recs[k].states + [s'], recs[k].faults + [fault])],
                        who + [k], reqs + [req], resps + [resp], starts)
  {
    hide AnyStep, Mine;
    var rec := recs[k];
    assert Recorded(checked, ws[k].device, rec, Mine(who, reqs, k), Mine(who, resps, k), starts[k]);
    HistoryMore(KindOf(ws[k].device), checked, ws[k].device.BlockSize(), rec.states, Mine(who, reqs, k),
                Mine(who, resps, k), rec.faults, req, resp, s', fault);
    hide History;
    forall j | 0 <= j < |ws|
      ensures Recorded(checked, ws[j].device, recs[k := Record(rec.states + [s'], rec.faults + [fault])][j],
                       Mine(who + [k], reqs + [req], j), Mine(who + [k], resps + [resp], j), starts[j])
    {
      MineMore(who, reqs, k, req, j);
      MineMore(who, resps, k, resp, j);
      assert Recorded(checked, ws[j].device, recs[j], Mine(who, reqs, j), Mine(who, resps, j), starts[j]);
    }
  }

  lemma FootprintInside(ws: seq<BlockDeviceWrapper>, k: nat)
    requires k < |ws|
    ensures ws[k].device.Footprint() <= Footprints(ws)
  {
  }

  lemma StartUpToDate(ws: seq<BlockDeviceWrapper>, recs: seq<Record>)
    requires |recs| == |ws|
    requires forall k :: 0 <= k < |ws| ==> recs[k] == Record([ContentsOf(ws)[k]], [])
    ensures UpToDate(ws, recs, FailuresOf(ws))
  {
  }

  /** One request to device `k` among many: the wrappers stay usable and no other contents change. */
  method SendTo(
    checked: bool, ws: seq<BlockDeviceWrapper>, k: nat, req: Request, ghost recs: seq<Record>, ghost failed: seq<nat>)
    returns (resp: Response, ghost recs': seq<Record>, ghost fault: bool)
    requires AllReady(ws) && k < |ws| && req.Sized(ws[k].device.BlockSize())
    requires |recs| == |failed| == |ws| && UpToDate(ws, recs, failed)
    modifies ws[k].device.Footprint()
    ensures AllReady(ws) && |recs'| == |ws| && UpToDate(ws, recs', failed)
    ensures recs[k].states != []
    ensures AnyStep(KindOf(ws[k].device), checked, ws[k].device.BlockSize(),
                    recs[k].states[|recs[k].states| - 1], req, resp, ws[k].device.Contents(), fault)
    ensures recs' == recs[k := Record(recs[k].states + [ws[k].device.Contents()], recs[k].faults + [fault])]
  {
    hide AnyStep, FaultCount;
    ghost var others := set j | 0 <= j < |ws| && j != k :: ws[j].device;
    resp, fault := Send(checked, ws[k], req, others);
    FaultCountMore(recs[k].faults, fault);
    recs' := recs[k := Record(recs[k].states + [ws[k].device.Contents()], recs[k].faults + [fault])];
    assert forall j :: 0 <= j < |ws| && j != k ==> ws[j].device in others;
  }

  /**
   * Requests interleaved in any order over any number of devices: each device's contents and
   * answers are a history of the requests sent to it, as if it had been driven alone, with as many
   * faults as calls of the host have failed on it.
   */
  method DriveAll(checked: bool, ws: seq<BlockDeviceWrapper>, who: seq<nat>, reqs: seq<Request>)
    returns (resps: seq<Response>, ghost recs: seq<Record>)
    requires AllReady(ws) && AllAddressed(ws, who, reqs)
    modifies Footprints(ws)
    ensures AllReady(ws) && |resps| == |reqs| && |recs| == |ws|
    ensures AllRecorded(checked, ws, recs, who, reqs, resps, old(ContentsOf(ws)))
    ensures UpToDate(ws, recs, old(FailuresOf(ws)))
  {
    hide AllRecorded, AnyStep, AllReady, UpToDate, Footprints, ContentsOf, FailuresOf;
    ghost var starts, failed := ContentsOf(ws), FailuresOf(ws);
    recs := seq(|ws|, k requires 0 <= k < |ws| => Record([starts[k]], []));
    resps := [];
    StartUpToDate(ws, recs);
    NothingRecorded(checked, ws, recs, who[..0], reqs[..0], starts);
    var i := 0;
    while i < |reqs|
      invariant 0 <= i <= |reqs| && |resps| == i && |recs| == |ws|
      invariant AllReady(ws) && UpToDate(ws, recs, failed)
      invariant AllRecorded(checked, ws, recs, who[..i], reqs[..i], resps, starts)
    {
      ghost var before := recs;
      FootprintInside(ws, who[i]);
      var resp;
      ghost var fault;
      resp, recs, fault := SendTo(checked, ws, who[i], reqs[i], recs, failed);
      RecordMore(checked, ws, before, who[..i], reqs[..i], resps, starts, who[i], reqs[i], resp,
                 ws[who[i]].device.Contents(), fault);
      assert who[..i] + [who[i]] == who[..i + 1] && reqs[..i] + [reqs[i]] == reqs[..i + 1];
      resps := resps + [resp];
      i := i + 1;
    }
    assert who[..i] == who && reqs[..i] == reqs;
  }
}
