/** Both devices, driven by any run of in-range requests, are one abstract store of blocks. */
module BlockStore {
  import opened MachineInts
  import opened ByteRanges
  import opened MemoryDevice
  import opened FileDevice
  import opened BlockRequests

  type Block = seq<byte>

  lemma BlockBound(n: nat, bs: nat, i: nat)
    requires i < n
    ensures 0 <= i * bs <= i * bs + bs <= n * bs
  {
    MulMonotone(i + 1, n, bs);
    MulAdd(i, 1, bs);
  }

  /** Block `i` of a byte string of `n` blocks. */
  function BlockAt(data: seq<byte>, bs: nat, n: nat, i: nat): (b: Block)
    requires |data| == n * bs && i < n
    ensures |b| == bs
  {
    BlockBound(n, bs, i);
    data[i * bs..i * bs + bs]
  }

  /** A block as a slice whose start is already computed. */
  lemma BlockIsCut(data: seq<byte>, bs: nat, n: nat, i: nat, at: nat)
    requires |data| == n * bs && i < n && at == i * bs
    ensures at + bs <= |data|
    ensures BlockAt(data, bs, n, i) == data[at..at + bs]
  {
    BlockBound(n, bs, i);
  }

  /** Where block `i` lies relative to `cnt` blocks from block `id` on, in computed byte offsets. */
  lemma BlockPlace(bs: nat, n: nat, id: nat, cnt: nat, i: nat, size: nat, off: nat, len: nat, at: nat)
    requires size == n * bs && off == id * bs && len == cnt * bs && at == i * bs
    requires id + cnt <= n && i < n
    ensures off + len <= size && at + bs <= size
    ensures i < id ==> at + bs <= off
    ensures id + cnt <= i ==> off + len <= at
    ensures id <= i ==> off <= at && (i - id) * bs == at - off
    ensures id <= i < id + cnt ==> at - off + bs <= len
  {
    MulMonotone(id + cnt, n, bs);
    MulAdd(id, cnt, bs);
    BlockBound(n, bs, i);
    if i < id {
      BlockBound(id, bs, i);
    } else {
      MulAdd(id, i - id, bs);
      MulMonotone(id, i, bs);
      if i < id + cnt {
        BlockBound(cnt, bs, i - id);
      } else {
        MulMonotone(id + cnt, i, bs);
      }
    }
  }

  /** The `n` blocks of a byte string. */
  function Blocks(data: seq<byte>, bs: nat, n: nat): (r: seq<Block>)
    requires |data| == n * bs
    ensures |r| == n
    ensures forall i :: 0 <= i < n ==> r[i] == BlockAt(data, bs, n, i)
  {
    seq(n, i requires 0 <= i < n => BlockAt(data, bs, n, i))
  }

  // ------------------------------------------------------------------------------------------
  // The abstract store

  /** `blocks` with the blocks from `id` on replaced by `more`. */
  function Replaced(blocks: seq<Block>, id: nat, more: seq<Block>): (r: seq<Block>)
    requires id + |more| <= |blocks|
    ensures |r| == |blocks|
    ensures forall i :: 0 <= i < |blocks| ==>
              r[i] == if id <= i < id + |more| then more[i - id] else blocks[i]
  {
    blocks[..id] + more + blocks[id + |more|..]
  }

  /** What the store answers to an in-range request, and the store afterwards. */
  function StoreStep(bs: u32, blocks: seq<Block>, req: Request): (r: (seq<Block>, seq<Block>))
    requires req.Sized(bs) && req.InRange(|blocks|)
    ensures |r.1| == |blocks|
  {
    match req
    case Bread(id, cnt, _) => (blocks[id..id + cnt], blocks)
    case Bwrite(id, cnt, payload) => ([], Replaced(blocks, id, Blocks(payload, bs, cnt)))
  }

  predicate AllInRange(bs: u32, n: nat, reqs: seq<Request>) {
    forall i :: 0 <= i < |reqs| ==> reqs[i].Sized(bs) && reqs[i].InRange(n)
  }

  /** The store after a run of in-range requests. */
  function StoreAfter(bs: u32, blocks: seq<Block>, reqs: seq<Request>): (r: seq<Block>)
    requires AllInRange(bs, |blocks|, reqs)
    ensures |r| == |blocks|
  {
    if reqs == [] then blocks
    else StoreStep(bs, StoreAfter(bs, blocks, reqs[..|reqs| - 1]), reqs[|reqs| - 1]).1
  }

  /** `resp` reports success and carries exactly the blocks `answer`. */
  predicate Answers(bs: u32, resp: Response, answer: seq<Block>) {
    && resp.status == Success
    && |resp.data| == |answer| * bs
    && Blocks(resp.data, bs, |answer|) == answer
  }

  lemma StoreAfterNothing(bs: u32, blocks: seq<Block>, reqs: seq<Request>)
    requires AllInRange(bs, |blocks|, reqs)
    ensures StoreAfter(bs, blocks, reqs[..0]) == blocks
  {
  }

  lemma StoreAfterPrefix(bs: u32, blocks: seq<Block>, reqs: seq<Request>, i: nat)
    requires AllInRange(bs, |blocks|, reqs) && 0 < i <= |reqs|
    ensures StoreAfter(bs, blocks, reqs[..i])
            == StoreStep(bs, StoreAfter(bs, blocks, reqs[..i - 1]), reqs[i - 1]).1
  {
    assert reqs[..i][..i - 1] == reqs[..i - 1];
  }

  // ------------------------------------------------------------------------------------------
  // One request

  datatype Kind = InMemory | OnHost

  /** A device of the given kind with contents `s` may answer `req` with `resp` and become `s'`. */
  ghost predicate DeviceStep(
    kind: Kind, checked: bool, bs: u32, s: seq<byte>, req: Request, resp: Response, s': seq<byte>)
  {
    && 0 < bs && req.Sized(bs)
    && match kind
       case InMemory => |s| < TWO_63 && (resp, s') == MemStep(checked, bs, s, req)
       case OnHost => FileStep(checked, bs, s, req, resp, s', false)
  }

  /** A device whose first `n` blocks are the addressable region; a file may be longer. */
  predicate Holds(kind: Kind, bs: u32, n: nat, s: seq<byte>) {
    && n * bs <= |s|
    && n * bs < TWO_63
    && (kind.InMemory? ==> |s| == n * bs)
  }

  /** The answer to an in-range request that starts at byte `off`; it mentions neither kind nor overflow. */
  function RangeStep(s: seq<byte>, off: nat, req: Request): (r: (Response, seq<byte>))
    requires off + |req.Buffer()| <= |s|
    ensures |r.1| == |s|
  {
    match req
    case Bread(_, _, before) => (Response(Success, s[off..off + |before|]), s)
    case Bwrite(_, _, payload) => (Response(Success, []), Overwrite(s, off, payload))
  }

  lemma InRangeBytes(bs: u32, n: nat, req: Request, size: nat, off: nat, len: nat)
    requires req.InRange(n) && size == n * bs && off == req.id * bs && len == req.cnt * bs
    ensures off + len <= size
  {
    MulMonotone(req.id + req.cnt, n, bs);
    MulAdd(req.id, req.cnt, bs);
  }

  lemma MemInRange(checked: bool, bs: u32, s: seq<byte>, req: Request, off: nat)
    requires 0 < bs && req.Sized(bs) && off == req.id * bs && off + |req.Buffer()| <= |s| < TWO_63
    ensures MemStep(checked, bs, s, req) == RangeStep(s, off, req)
  {
    hide Overwrite, MemCount;
    assert Mul64(checked, req.id, bs) == Some(off);
    hide Mul64;
  }

  lemma FileInRange(checked: bool, bs: u32, s: seq<byte>, req: Request, off: nat)
    requires 0 < bs && req.Sized(bs) && off == req.id * bs && off + |req.Buffer()| <= |s| && off < TWO_63
    ensures FileApply(checked, bs, s, req) == RangeStep(s, off, req)
  {
    hide FileCount, Overwrite;
    assert Mul64(checked, req.id, bs) == Some(off);
    hide Mul64;
    assert Available(s, off, |req.Buffer()|) == s[off..off + |req.Buffer()|];
  }

  /** In range, overflow regime and kind of device make no difference. */
  lemma InRangeStep(
    kind: Kind, checked: bool, bs: u32, n: nat, s: seq<byte>, req: Request, resp: Response, s': seq<byte>, off: nat)
    requires DeviceStep(kind, checked, bs, s, req, resp, s')
    requires Holds(kind, bs, n, s) && req.InRange(n) && off == req.id * bs
    ensures 0 < bs && req.Sized(bs) && off + |req.Buffer()| <= n * bs <= |s|
    ensures (resp, s') == RangeStep(s, off, req)
  {
    hide MemStep, FileApply, RangeStep;
    InRangeBytes(bs, n, req, n * bs, off, |req.Buffer()|);
    if kind.InMemory? {
      MemInRange(checked, bs, s, req, off);
    } else {
      FileInRange(checked, bs, s, req, off);
    }
  }

  lemma SliceOfSlice(data: seq<byte>, p: nat, q: nat, a: nat, b: nat)
    requires p <= q <= |data| && a <= b <= q - p
    ensures data[p..q][a..b] == data[p + a..p + b]
  {
    var l, r := data[p..q][a..b], data[p + a..p + b];
    assert |l| == |r| && forall k :: 0 <= k < |l| ==> l[k] == r[k];
  }

  /** Block `i` of a range of blocks, as a slice of the whole. */
  lemma BlockOfSlice(data: seq<byte>, bs: nat, id: nat, cnt: nat, i: nat, off: nat, len: nat, at: nat)
    requires off == id * bs && len == cnt * bs && at == (id + i) * bs && i < cnt && off + len <= |data|
    ensures off <= at && at + bs <= off + len
    ensures BlockAt(data[off..off + len], bs, cnt, i) == data[at..at + bs]
  {
    hide BlockAt;
    BlockPlace(bs, id + cnt, id, cnt, id + i, (id + cnt) * bs, off, len, at);
    BlockIsCut(data[off..off + len], bs, cnt, i, at - off);
    SliceOfSlice(data, off, off + len, at - off, at - off + bs);
  }

  /** Cutting a range out of the data and cutting blocks out of the range commute. */
  lemma BlocksOfRange(data: seq<byte>, bs: nat, n: nat, id: nat, cnt: nat, off: nat, len: nat)
    requires |data| == n * bs && id + cnt <= n && off == id * bs && len == cnt * bs && off + len <= |data|
    ensures Blocks(data[off..off + len], bs, cnt) == Blocks(data, bs, n)[id..id + cnt]
  {
    hide BlockAt;
    var l, r := Blocks(data[off..off + len], bs, cnt), Blocks(data, bs, n)[id..id + cnt];
    forall i | 0 <= i < cnt ensures l[i] == r[i] {
      MulMonotone(0, id + i, bs);
      var at: nat := (id + i) * bs;
      BlockOfSlice(data, bs, id, cnt, i, off, len, at);
      BlockIsCut(data, bs, n, id + i, at);
    }
  }

  /** A block after a write of whole blocks: new inside the written range, unchanged outside. */
  lemma BlockOfOverwrite(
    data: seq<byte>, bs: nat, n: nat, id: nat, cnt: nat, payload: seq<byte>, i: nat, off: nat, at: nat)
    requires |data| == n * bs && id + cnt <= n && |payload| == cnt * bs && i < n
    requires off == id * bs && at == i * bs
    ensures |Overwrite(data, off, payload)| == |data|
    ensures BlockAt(Overwrite(data, off, payload), bs, n, i)
            == if id <= i < id + cnt then BlockAt(payload, bs, cnt, i - id) else BlockAt(data, bs, n, i)
  {
    hide Overwrite, BlockAt;
    BlockPlace(bs, n, id, cnt, i, |data|, off, |payload|, at);
    BlockIsCut(data, bs, n, i, at);
    if id <= i < id + cnt {
      WriteHits(data, off, payload, at, bs);
      BlockIsCut(payload, bs, cnt, i - id, at - off);
    } else {
      WriteMisses(data, off, payload, at, bs);
    }
    BlockIsCut(Overwrite(data, off, payload), bs, n, i, at);
  }

  /** Writing a range of bytes replaces exactly the blocks of the range. */
  lemma BlocksOfOverwrite(data: seq<byte>, bs: nat, n: nat, id: nat, cnt: nat, payload: seq<byte>, off: nat)
    requires |data| == n * bs && id + cnt <= n && |payload| == cnt * bs && off == id * bs
    requires off + |payload| <= |data|
    ensures |Overwrite(data, off, payload)| == |data|
    ensures Blocks(Overwrite(data, off, payload), bs, n)
            == Replaced(Blocks(data, bs, n), id, Blocks(payload, bs, cnt))
  {
    var after := Overwrite(data, off, payload);
    assert |after| == |data|;
    hide Overwrite, BlockAt, Blocks, Replaced;
    var l, r := Blocks(after, bs, n), Replaced(Blocks(data, bs, n), id, Blocks(payload, bs, cnt));
    forall i | 0 <= i < n ensures l[i] == r[i] {
      MulMonotone(0, i, bs);
      BlockOfOverwrite(data, bs, n, id, cnt, payload, i, off, i * bs);
    }
  }

  lemma ReadRefines(bs: u32, n: nat, s: seq<byte>, req: Request, off: nat, size: nat)
    requires req.Bread? && req.Sized(bs) && req.InRange(n) && off == req.id * bs
    requires size == n * bs && off + |req.Buffer()| <= size <= |s|
    ensures Answers(bs, RangeStep(s, off, req).0, Blocks(s[..size], bs, n)[req.id..req.id + req.cnt])
  {
    var len := |req.Buffer()|;
    BlocksOfRange(s[..size], bs, n, req.id, req.cnt, off, len);
    SliceOfSlice(s, 0, size, off, off + len);
    hide Blocks;
    assert RangeStep(s, off, req).0.data == s[..size][off..off + len];
  }

  lemma WriteRefines(bs: u32, n: nat, s: seq<byte>, req: Request, off: nat, size: nat)
    requires req.Bwrite? && req.Sized(bs) && req.InRange(n) && off == req.id * bs
    requires size == n * bs && off + |req.Buffer()| <= size <= |s|
    ensures var s' := RangeStep(s, off, req).1;
            && s'[size..] == s[size..]
            && Blocks(s'[..size], bs, n) == StoreStep(bs, Blocks(s[..size], bs, n), req).1
  {
    hide Overwrite, Blocks;
    BlocksOfOverwrite(s[..size], bs, n, req.id, req.cnt, req.payload, off);
    OverwriteRegion(s, size, off, req.payload);
  }

  lemma StoreStepRead(bs: u32, blocks: seq<Block>, req: Request)
    requires req.Bread? && req.Sized(bs) && req.InRange(|blocks|)
    ensures StoreStep(bs, blocks, req) == (blocks[req.id..req.id + req.cnt], blocks)
  {
  }

  lemma StoreStepWrite(bs: u32, blocks: seq<Block>, req: Request, resp: Response)
    requires req.Bwrite? && req.Sized(bs) && req.InRange(|blocks|)
    ensures StoreStep(bs, blocks, req).0 == []
    ensures resp == Response(Success, []) ==> Answers(bs, resp, [])
  {
  }

  /** One in-range request on a device is one step of the abstract store. */
  lemma StepRefines(
    kind: Kind, checked: bool, bs: u32, n: nat, s: seq<byte>, req: Request, resp: Response, s': seq<byte>)
    requires DeviceStep(kind, checked, bs, s, req, resp, s')
    requires Holds(kind, bs, n, s) && req.InRange(n)
    ensures Holds(kind, bs, n, s') && s'[n * bs..] == s[n * bs..]
    ensures var (answer, blocks') := StoreStep(bs, Blocks(s[..n * bs], bs, n), req);
            Answers(bs, resp, answer) && Blocks(s'[..n * bs], bs, n) == blocks'
  {
    hide DeviceStep, StoreStep, Answers, Blocks, Overwrite;
    MulMonotone(0, req.id, bs);
    var off: nat, size: nat := req.id * bs, n * bs;
    InRangeStep(kind, checked, bs, n, s, req, resp, s', off);
    if req.Bread? {
      ReadRefines(bs, n, s, req, off, size);
      StoreStepRead(bs, Blocks(s[..size], bs, n), req);
    } else {
      WriteRefines(bs, n, s, req, off, size);
      StoreStepWrite(bs, Blocks(s[..size], bs, n), req, resp);
    }
  }

  // ------------------------------------------------------------------------------------------
  // Runs of requests

  /** `states` and `resps` are one possible history of a device that is sent `reqs`. */
  ghost predicate Trace(
    kind: Kind, checked: bool, bs: u32, states: seq<seq<byte>>, reqs: seq<Request>, resps: seq<Response>)
  {
    && |states| == |reqs| + 1 && |resps| == |reqs|
    && forall i :: 0 <= i < |reqs| ==> DeviceStep(kind, checked, bs, states[i], reqs[i], resps[i], states[i + 1])
  }

  /**
   * Every device history is a history of the abstract store: all requests succeed, every read
   * returns the store's blocks, the contents are the store's blocks, and bytes past the block
   * region never change.
   */
  lemma {:induction false} TraceRefinesStore(
    kind: Kind, checked: bool, bs: u32, n: nat, states: seq<seq<byte>>, reqs: seq<Request>, resps: seq<Response>,
    i: nat)
    requires Trace(kind, checked, bs, states, reqs, resps)
    requires Holds(kind, bs, n, states[0]) && AllInRange(bs, n, reqs)
    requires i <= |reqs|
    ensures Holds(kind, bs, n, states[i]) && states[i][n * bs..] == states[0][n * bs..]
    ensures Blocks(states[i][..n * bs], bs, n)
            == StoreAfter(bs, Blocks(states[0][..n * bs], bs, n), reqs[..i])
    ensures i < |reqs| ==>
              Answers(bs, resps[i],
                      StoreStep(bs, StoreAfter(bs, Blocks(states[0][..n * bs], bs, n), reqs[..i]), reqs[i]).0)
  {
    hide DeviceStep, StoreStep, StoreAfter, Answers, Overwrite;
    if i == 0 {
      StoreAfterNothing(bs, Blocks(states[0][..n * bs], bs, n), reqs);
    } else {
      TraceRefinesStore(kind, checked, bs, n, states, reqs, resps, i - 1);
      assert DeviceStep(kind, checked, bs, states[i - 1], reqs[i - 1], resps[i - 1], states[i]);
      StepRefines(kind, checked, bs, n, states[i - 1], reqs[i - 1], resps[i - 1], states[i]);
      StoreAfterPrefix(bs, Blocks(states[0][..n * bs], bs, n), reqs, i);
    }
    if i < |reqs| {
      assert DeviceStep(kind, checked, bs, states[i], reqs[i], resps[i], states[i + 1]);
      StepRefines(kind, checked, bs, n, states[i], reqs[i], resps[i], states[i + 1]);
    }
  }

  lemma AgreeOneStep(
    checkedM: bool, checkedF: bool, bs: u32, n: nat, m: seq<byte>, f: seq<byte>, req: Request,
    respM: Response, m': seq<byte>, respF: Response, f': seq<byte>)
    requires DeviceStep(InMemory, checkedM, bs, m, req, respM, m')
    requires DeviceStep(OnHost, checkedF, bs, f, req, respF, f')
    requires Holds(InMemory, bs, n, m) && Holds(OnHost, bs, n, f)
    requires f == m + f[n * bs..] && req.InRange(n)
    ensures Holds(InMemory, bs, n, m') && f' == m' + f[n * bs..]
    ensures respF == respM
  {
    hide DeviceStep, Overwrite;
    MulMonotone(0, req.id, bs);
    var off: nat := req.id * bs;
    InRangeStep(InMemory, checkedM, bs, n, m, req, respM, m', off);
    InRangeStep(OnHost, checkedF, bs, n, f, req, respF, f', off);
    if req.Bwrite? {
      OverwriteInside(m, f[n * bs..], off, req.payload);
    } else {
      assert f[off..off + |req.before|] == m[off..off + |req.before|];
    }
  }

  /**
   * A memory device and a host file that start with the same block region give the same answers
   * to any run of in-range requests and keep the same block region throughout. The two may be
   * built with different overflow regimes, and the transfer sizes need no bound below 2^63.
   */
  lemma {:induction false} MemoryAndFileAgree(
    checkedM: bool, checkedF: bool, bs: u32, n: nat, mem: seq<seq<byte>>, file: seq<seq<byte>>,
    reqs: seq<Request>, respsM: seq<Response>, respsF: seq<Response>, i: nat)
    requires Trace(InMemory, checkedM, bs, mem, reqs, respsM)
    requires Trace(OnHost, checkedF, bs, file, reqs, respsF)
    requires Holds(InMemory, bs, n, mem[0]) && Holds(OnHost, bs, n, file[0])
    requires file[0][..n * bs] == mem[0] && AllInRange(bs, n, reqs)
    requires i <= |reqs|
    ensures Holds(InMemory, bs, n, mem[i])
    ensures file[i] == mem[i] + file[0][n * bs..]
    ensures i < |reqs| ==> respsF[i] == respsM[i]
  {
    hide DeviceStep;
    if i > 0 {
      MemoryAndFileAgree(checkedM, checkedF, bs, n, mem, file, reqs, respsM, respsF, i - 1);
      AgreeOneStep(checkedM, checkedF, bs, n, mem[i - 1], file[i - 1], reqs[i - 1], respsM[i - 1], mem[i],
                   respsF[i - 1], file[i]);
      assert file[i - 1][n * bs..] == file[0][n * bs..];
    } else {
      assert file[0] == mem[0] + file[0][n * bs..];
    }
    if i < |reqs| {
      AgreeOneStep(checkedM, checkedF, bs, n, mem[i], file[i], reqs[i], respsM[i], mem[i + 1],
                   respsF[i], file[i + 1]);
    }
  }

  /** A request past the block region: the vector refuses it, whatever it is. */
  lemma MemOutOfRange(checked: bool, bs: u32, n: nat, m: seq<byte>, req: Request, off: nat)
    requires 0 < bs && req.Sized(bs) && !req.InRange(n) && off == req.id * bs
    requires |m| == n * bs < TWO_63 && off + |req.Buffer()| < TWO_64
    ensures off + |req.Buffer()| >= |m| + bs
    ensures MemStep(checked, bs, m, req) == (Response(Failure, if req.Bread? then req.before else []), m)
  {
    hide Overwrite, MemCount;
    MulAdd(req.id, req.cnt, bs);
    MulMonotone(n + 1, req.id + req.cnt, bs);
    MulAdd(n, 1, bs);
    assert Mul64(checked, req.id, bs) == Some(off);
    hide Mul64;
  }

  /** How a request for `len` bytes at the computed offset comes back from a memory device of `size` bytes. */
  function MemStatus(checked: bool, size: nat, offset: Option<u64>, len: nat): Status
    requires size < TWO_63 && len < TWO_63
  {
    match Place(checked, size, offset, len)
    case At(_) => Success
    case Beyond => Failure
    case Panics => Aborted
  }

  lemma MemStepStatus(checked: bool, bs: u32, m: seq<byte>, req: Request)
    requires 0 < bs && req.Sized(bs) && |m| < TWO_63
    ensures MemStep(checked, bs, m, req).0.status
            == MemStatus(checked, |m|, Mul64(checked, req.id, bs), |req.Buffer()|)
  {
    hide Place, Mul64, Overwrite, MemCount;
  }

  /** How it comes back from a host file of `size` bytes. */
  function FileStatus(size: nat, offset: Option<u64>, len: nat, read: bool): Status {
    match offset
    case None => Aborted
    case Some(w) =>
      if w >= TWO_63 then Failure
      else if read && len > 0 && w + len > size then Failure
      else Success
  }

  lemma FileApplyStatus(checked: bool, bs: u32, f: seq<byte>, req: Request)
    requires 0 < bs
    ensures FileApply(checked, bs, f, req).0.status
            == FileStatus(|f|, Mul64(checked, req.id, bs), |req.Buffer()|, req.Bread?)
  {
    hide Mul64, Overwrite, FileCount;
  }

  lemma NoOffset(checked: bool, size: nat, fileSize: nat, len: nat, read: bool)
    requires size < TWO_63 && len < TWO_63
    ensures MemStatus(checked, size, None, len) == FileStatus(fileSize, None, len, read)
  {
  }

  /** Once an offset has been computed, the two statuses agree in these cases only. */
  lemma StatusAgreesAt(checked: bool, size: nat, fileSize: nat, w: u64, len: nat, read: bool)
    requires size <= fileSize && size < TWO_63 && len < TWO_63
    ensures MemStatus(checked, size, Some(w), len) == FileStatus(fileSize, Some(w), len, read)
            <==> || (w + len < TWO_64 && (w + len <= size || w >= TWO_63 || (read && len > 0 && w + len > fileSize)))
                 || (!checked && w + len >= TWO_64 && (w + len) % TWO_64 > size)
  {
    var sum := w + len;
    if sum < TWO_64 {
      assert Add64(checked, w, len) == Some(sum);
    } else if !checked {
      assert Add64(checked, w, len) == Some(sum % TWO_64);
    } else {
      assert Add64(checked, w, len) == None;
    }
  }

  /** A host file whose start is a host offset takes every write. */
  lemma FileTakesWrite(checked: bool, bs: u32, f: seq<byte>, req: Request, off: nat)
    requires 0 < bs && req.Bwrite? && off == req.id * bs && off < TWO_63
    ensures FileApply(checked, bs, f, req) == (Response(Success, []), Overwrite(f, off, req.payload))
  {
    hide Overwrite, FileCount;
  }

  /**
   * When the two devices' statuses agree, for any request and both overflow regimes. The request
   * starts at byte `off` and spans `len` bytes; `w` is the offset the devices compute. They agree
   * if the multiplication panics on both; if the end as computed fits in 64 bits and the range
   * lies in the memory device, starts past what the host can seek to, or is a read past the end
   * of the file; and if the end wraps to a point past the memory device.
   */
  lemma StatusAgreesIff(checked: bool, bs: u32, m: seq<byte>, tail: seq<byte>, req: Request, off: nat, len: nat)
    requires 0 < bs && req.Sized(bs) && |m| < TWO_63
    requires off == req.id * bs && len == req.cnt * bs
    ensures var w := if checked then off else off % TWO_64;
            MemStep(checked, bs, m, req).0.status == FileApply(checked, bs, m + tail, req).0.status
            <==> || (checked && off >= TWO_64)
                 || (w + len < TWO_64 &&
                     (w + len <= |m| || w >= TWO_63 || (req.Bread? && len > 0 && w + len > |m| + |tail|)))
                 || (!checked && w + len >= TWO_64 && (w + len) % TWO_64 > |m|)
  {
    hide MemStep, FileApply, MemStatus, FileStatus;
    MemStepStatus(checked, bs, m, req);
    FileApplyStatus(checked, bs, m + tail, req);
    if checked && off >= TWO_64 {
      NoOffset(checked, |m|, |m| + |tail|, len, req.Bread?);
    } else {
      StatusAgreesAt(checked, |m|, |m| + |tail|, if checked then off else off % TWO_64, len, req.Bread?);
    }
  }

  /** A write of block 1 to an image of one block: the vector refuses it, the file doubles. */
  lemma WriteGrowsFile(checked: bool, image: seq<byte>, payload: seq<byte>)
    requires |image| == 512 && |payload| == 512
    ensures MemStep(checked, 512, image, Bwrite(1, 1, payload)) == (Response(Failure, []), image)
    ensures FileApply(checked, 512, image, Bwrite(1, 1, payload)) == (Response(Success, []), image + payload)
  {
    var req := Bwrite(1, 1, payload);
    MemOutOfRange(checked, 512, 1, image, req, 512);
    FileTakesWrite(checked, 512, image, req, 512);
    assert Overwrite(image, 512, payload) == image + payload;
  }

  /**
   * Without faults a host file's contents and answers are a function of its initial contents
   * and the requests.
   */
  lemma {:induction false} FileRunsDeterministic(
    checked: bool, bs: u32, a: seq<seq<byte>>, b: seq<seq<byte>>, reqs: seq<Request>,
    respsA: seq<Response>, respsB: seq<Response>, i: nat)
    requires Trace(OnHost, checked, bs, a, reqs, respsA)
    requires Trace(OnHost, checked, bs, b, reqs, respsB)
    requires a[0] == b[0] && i <= |reqs|
    ensures a[i] == b[i]
    ensures respsA[..i] == respsB[..i]
  {
    hide FileApply;
    if i > 0 {
      FileRunsDeterministic(checked, bs, a, b, reqs, respsA, respsB, i - 1);
      assert DeviceStep(OnHost, checked, bs, a[i - 1], reqs[i - 1], respsA[i - 1], a[i]);
      assert DeviceStep(OnHost, checked, bs, b[i - 1], reqs[i - 1], respsB[i - 1], b[i]);
      assert respsA[..i] == respsA[..i - 1] + [respsA[i - 1]];
      assert respsB[..i] == respsB[..i - 1] + [respsB[i - 1]];
    }
  }
}
