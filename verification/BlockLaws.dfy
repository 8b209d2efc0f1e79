/** Long transfers against one-block transfers, and what a host fault can leave behind. */
module BlockLaws {
  import opened MachineInts
  import opened ByteRanges
  import opened MemoryDevice
  import opened FileDevice
  import opened BlockRequests
  import opened BlockStore

  lemma CountFormulas(cnt: u32, bs: u32)
    requires 0 < bs
    ensures MemCount(cnt * bs, bs) == cnt
    ensures FileCount(cnt * bs, bs) == cnt <==> cnt * bs < TWO_32
  {
    MulDiv(cnt, bs);
    var t := AsU32(cnt * bs);
    if cnt * bs >= TWO_32 {
      assert t < cnt * bs;
      assert t == t / bs * bs + t % bs;
    }
  }

  predicate CountsExactly(o: Outcome, cnt: u32) {
    o.Served? ==> o.count == cnt
  }

  /**
   * A request of `cnt` whole blocks that is served is counted as `cnt` by the memory device. The
   * host-file device truncates the length before dividing and counts `cnt` exactly below 2^32 bytes.
   */
  lemma ReturnedCountExactIff(checked: bool, s: seq<byte>, bs: u32, id: u64, cnt: u32, buf: seq<byte>)
    requires 0 < bs && |buf| == cnt * bs
    ensures |s| < TWO_63 && |buf| < TWO_63 ==>
              && CountsExactly(MemRead(checked, s, bs, id, buf).0, cnt)
              && CountsExactly(MemWrite(checked, s, bs, id, buf).0, cnt)
    ensures FileRead(checked, s, bs, id, buf).0.Served? ==>
              (CountsExactly(FileRead(checked, s, bs, id, buf).0, cnt) <==> |buf| < TWO_32)
    ensures FileWrite(checked, s, bs, id, buf).0.Served? ==>
              (CountsExactly(FileWrite(checked, s, bs, id, buf).0, cnt) <==> |buf| < TWO_32)
  {
    CountFormulas(cnt, bs);
    hide MemCount, FileCount, Locate, Mul64, Overwrite;
  }

  /** A transfer of 2^23 blocks of 512 bytes, reported by the host-file device as no block at all. */
  lemma LongTransferCountsZero(checked: bool, s: seq<byte>, buf: seq<byte>)
    requires |buf| == 0x80_0000 * 512 == |s|
    ensures MemWrite(checked, s, 512, 0, buf).0 == Served(0x80_0000)
    ensures FileWrite(checked, s, 512, 0, buf).0 == Served(0)
  {
    hide Overwrite;
    assert AsU32(0x80_0000 * 512) == 0;
  }

  /** What a write puts into a block it covers. */
  function Written(bs: u32, req: Request, b: nat): Block
    requires req.Sized(bs) && req.Covers(b)
  {
    BlockAt(req.payload, bs, req.cnt, b - req.id)
  }

  /** What a read that succeeded reports for a block in its range. */
  function Reported(bs: u32, req: Request, resp: Response, b: nat): Block
    requires |resp.data| == req.cnt * bs && req.id <= b < req.id + req.cnt
  {
    BlockAt(resp.data, bs, req.cnt, b - req.id)
  }

  /** `cnt` consecutive one-block requests moving the same bytes as `req`. */
  function Singles(bs: u32, req: Request): (r: seq<Request>)
    requires req.Sized(bs) && req.id + req.cnt < TWO_64
    ensures |r| == req.cnt
  {
    seq(req.cnt, i requires 0 <= i < req.cnt =>
      var part := BlockAt(req.Buffer(), bs, req.cnt, i);
      if req.Bread? then Bread(req.id + i, 1, part) else Bwrite(req.id + i, 1, part))
  }

  lemma SingleInRange(bs: u32, n: nat, req: Request, i: nat)
    requires req.Sized(bs) && req.InRange(n) && req.id + req.cnt < TWO_64 && i < req.cnt
    ensures Singles(bs, req)[i].Sized(bs) && Singles(bs, req)[i].InRange(n)
  {
    hide BlockAt;
    BlockBound(req.cnt, bs, i);
  }

  /** Step `i` of the short transfers, free of overflow and of the kind of device. */
  lemma SingleStep(
    kind: Kind, checked: bool, bs: u32, n: nat, req: Request, states: seq<seq<byte>>, resps: seq<Response>, i: nat,
    at: nat)
    requires req.Sized(bs) && req.InRange(n) && req.id + req.cnt < TWO_64 && i < req.cnt
    requires at == (req.id + i) * bs
    requires Trace(kind, checked, bs, states, Singles(bs, req), resps)
    requires Holds(kind, bs, n, states[i])
    ensures |Singles(bs, req)[i].Buffer()| == bs && at + bs <= |states[i]|
    ensures (resps[i], states[i + 1]) == RangeStep(states[i], at, Singles(bs, req)[i])
  {
    hide DeviceStep, RangeStep, BlockAt;
    SingleInRange(bs, n, req, i);
    var one := Singles(bs, req)[i];
    assert DeviceStep(kind, checked, bs, states[i], one, resps[i], states[i + 1]);
    InRangeStep(kind, checked, bs, n, states[i], one, resps[i], states[i + 1], at);
  }

  /** After `done` bytes of the request have been moved, a read has changed nothing, a write has stored them. */
  predicate MovedSoFar(req: Request, s: seq<byte>, off: nat, done: nat, now: seq<byte>) {
    done <= |req.Buffer()| && now == if req.Bread? then s else Overwrite(s, off, req.payload[..done])
  }

  /** Moving the `bs` bytes behind the first `done` ones moves `done + bs` bytes. */
  lemma MoveOneMore(bs: nat, req: Request, one: Request, s: seq<byte>, off: nat, done: nat, now: seq<byte>)
    requires MovedSoFar(req, s, off, done, now)
    requires one.Bread? == req.Bread? && done + bs <= |req.Buffer()| && off + done + bs <= |now|
    requires one.Buffer() == req.Buffer()[done..done + bs]
    ensures MovedSoFar(req, s, off, done + bs, RangeStep(now, off + done, one).1)
  {
    if req.Bwrite? {
      OverwriteConcat(s, off, req.payload[..done], one.payload);
      assert req.payload[..done] + one.payload == req.payload[..done + bs];
    }
  }

  /** The `i`-th short transfer moves block `i` of the buffer, in computed byte offsets. */
  lemma SingleMoves(bs: u32, req: Request, i: nat, off: nat, done: nat)
    requires req.Sized(bs) && req.id + req.cnt < TWO_64 && i < req.cnt
    requires off == req.id * bs && done == i * bs
    ensures done + bs <= |req.Buffer()| && (req.id + i) * bs == off + done && (i + 1) * bs == done + bs
    ensures Singles(bs, req)[i].Bread? == req.Bread?
    ensures Singles(bs, req)[i].Buffer() == req.Buffer()[done..done + bs]
  {
    hide BlockAt;
    MulAdd(req.id, i, bs);
    MulAdd(i, 1, bs);
    BlockIsCut(req.Buffer(), bs, req.cnt, i, done);
  }

  lemma NothingMoved(req: Request, s: seq<byte>, off: nat)
    ensures MovedSoFar(req, s, off, 0, s)
  {
    assert req.Bwrite? ==> req.payload[..0] == [];
  }

  /** The `i`-th short transfer extends what has been moved by one block. */
  lemma SinglesAdvance(
    kind: Kind, checked: bool, bs: u32, n: nat, req: Request, states: seq<seq<byte>>, resps: seq<Response>, i: nat,
    s: seq<byte>, off: nat, done: nat)
    requires req.Sized(bs) && req.InRange(n) && req.id + req.cnt < TWO_64 && i < req.cnt
    requires Trace(kind, checked, bs, states, Singles(bs, req), resps)
    requires Holds(kind, bs, n, states[i]) && off == req.id * bs && done == i * bs
    requires MovedSoFar(req, s, off, done, states[i])
    ensures |states[i + 1]| == |states[i]| && MovedSoFar(req, s, off, done + bs, states[i + 1])
  {
    hide DeviceStep, RangeStep, MovedSoFar, Singles, Holds;
    SingleMoves(bs, req, i, off, done);
    SingleStep(kind, checked, bs, n, req, states, resps, i, off + done);
    MoveOneMore(bs, req, Singles(bs, req)[i], s, off, done, states[i]);
  }

  lemma {:induction false} SinglesPrefix(
    kind: Kind, checked: bool, bs: u32, n: nat, req: Request, states: seq<seq<byte>>, resps: seq<Response>, i: nat,
    off: nat, done: nat)
    requires req.Sized(bs) && req.InRange(n) && req.id + req.cnt < TWO_64
    requires Trace(kind, checked, bs, states, Singles(bs, req), resps)
    requires Holds(kind, bs, n, states[0]) && i <= req.cnt && off == req.id * bs && done == i * bs
    ensures |states[i]| == |states[0]| && MovedSoFar(req, states[0], off, done, states[i])
  {
    hide DeviceStep, MovedSoFar, Singles;
    if i == 0 {
      NothingMoved(req, states[0], off);
    } else {
      MulMonotone(0, i - 1, bs);
      MulAdd(i - 1, 1, bs);
      var before := done - bs;
      SinglesPrefix(kind, checked, bs, n, req, states, resps, i - 1, off, before);
      SinglesAdvance(kind, checked, bs, n, req, states, resps, i - 1, states[0], off, before);
    }
  }

  /** Piece `i` of the short transfers, against the long one. */
  lemma SingleOfTransfer(
    kind: Kind, checked: bool, bs: u32, n: nat, req: Request, s: seq<byte>,
    states: seq<seq<byte>>, resps: seq<Response>, off: nat, i: nat)
    requires req.Sized(bs) && req.InRange(n) && Holds(kind, bs, n, s) && req.id + req.cnt < TWO_64
    requires Trace(kind, checked, bs, states, Singles(bs, req), resps) && states[0] == s
    requires off == req.id * bs && i < req.cnt && off + |req.Buffer()| <= |s|
    ensures resps[i].status == Success
    ensures req.Bread? ==> resps[i].data == BlockAt(s[off..off + |req.before|], bs, req.cnt, i)
  {
    hide DeviceStep, BlockAt, Singles;
    MulMonotone(0, i, bs);
    var done: nat := i * bs;
    SingleMoves(bs, req, i, off, done);
    SinglesPrefix(kind, checked, bs, n, req, states, resps, i, off, done);
    SingleStep(kind, checked, bs, n, req, states, resps, i, off + done);
    if req.Bread? {
      BlockOfSlice(s, bs, req.id, req.cnt, i, off, |req.before|, off + done);
    }
  }

  /**
   * A transfer of `cnt` blocks is `cnt` one-block transfers: both end in the same contents, all
   * answers report success, and block `i` of a long read is what the `i`-th short read returns.
   */
  lemma TransferIsItsSingles(
    kind: Kind, checked: bool, bs: u32, n: nat, req: Request, s: seq<byte>, resp: Response, s': seq<byte>,
    states: seq<seq<byte>>, resps: seq<Response>)
    requires req.InRange(n) && Holds(kind, bs, n, s) && req.id + req.cnt < TWO_64
    requires DeviceStep(kind, checked, bs, s, req, resp, s')
    requires Trace(kind, checked, bs, states, Singles(bs, req), resps) && states[0] == s
    ensures states[req.cnt] == s'
    ensures resp.status == Success && forall i :: 0 <= i < req.cnt ==> resps[i].status == Success
    ensures req.Bread? ==> |resp.data| == req.cnt * bs
    ensures req.Bread? ==> forall i :: 0 <= i < req.cnt ==> resps[i].data == BlockAt(resp.data, bs, req.cnt, i)
  {
    hide DeviceStep, BlockAt, Singles;
    MulMonotone(0, req.id, bs);
    var off: nat := req.id * bs;
    InRangeStep(kind, checked, bs, n, s, req, resp, s', off);
    SinglesPrefix(kind, checked, bs, n, req, states, resps, req.cnt, off, |req.Buffer()|);
    assert req.Bwrite? ==> req.payload[..|req.payload|] == req.payload;
    forall i | 0 <= i < req.cnt
      ensures resps[i].status == Success
      ensures req.Bread? ==> resps[i].data == BlockAt(s[off..off + |req.before|], bs, req.cnt, i)
    {
      SingleOfTransfer(kind, checked, bs, n, req, s, states, resps, off, i);
    }
  }

  lemma OverwriteLength(data: seq<byte>, off: nat, src: seq<byte>)
    requires off + |src| <= |data|
    ensures |Overwrite(data, off, src)| == |data|
  {
  }

  /**
   * A write of `q` blocks and `r` bytes more, `part` in all: new before block `q` of the range,
   * old behind it and outside.
   */
  lemma PartialWriteAtBlock(
    bytes: seq<byte>, bs: nat, n: nat, id: nat, cnt: nat, payload: seq<byte>, q: nat, r: nat, i: nat,
    off: nat, done: nat, at: nat)
    requires |bytes| == n * bs && id + cnt <= n && |payload| == cnt * bs && q <= cnt && i < n
    requires off == id * bs && done == q * bs && at == i * bs && r < bs && done + r <= |payload|
    requires off + |payload| <= |bytes|
    ensures |Overwrite(bytes, off, payload[..done + r])| == |bytes|
    ensures var after := Overwrite(bytes, off, payload[..done + r]);
            && (i < id || id + q < i || id + cnt <= i ==> BlockAt(after, bs, n, i) == BlockAt(bytes, bs, n, i))
            && (id <= i < id + q ==> BlockAt(after, bs, n, i) == BlockAt(payload, bs, cnt, i - id))
  {
    hide Overwrite, BlockAt;
    var part := payload[..done + r];
    BlockPlace(bs, n, id, cnt, i, |bytes|, off, |payload|, at);
    BlockPlace(bs, n, id, q, i, |bytes|, off, done, at);
    BlockIsCut(bytes, bs, n, i, at);
    if id <= i < id + q {
      WriteHits(bytes, off, part, at, bs);
      BlockIsCut(payload, bs, cnt, i - id, at - off);
      SliceOfSlice(payload, 0, done + r, at - off, at - off + bs);
      BlockIsCut(Overwrite(bytes, off, part), bs, n, i, at);
    } else if i < id || id + q < i || id + cnt <= i {
      if id + q < i {
        MulAdd(id + q, 1, bs);
        MulAdd(id, q, bs);
        MulMonotone(id + q + 1, i, bs);
      }
      WriteMisses(bytes, off, part, at, bs);
      BlockIsCut(Overwrite(bytes, off, part), bs, n, i, at);
    } else {
      OverwriteLength(bytes, off, part);
    }
  }

  /** Block `q` itself is divided at byte `r`. */
  lemma PartialWriteTornBlock(
    bytes: seq<byte>, bs: nat, n: nat, id: nat, cnt: nat, payload: seq<byte>, q: nat, r: nat, off: nat, done: nat)
    requires |bytes| == n * bs && id + cnt <= n && |payload| == cnt * bs && q < cnt
    requires off == id * bs && done == q * bs && r < bs && done + r <= |payload|
    requires off + |payload| <= |bytes|
    ensures |Overwrite(bytes, off, payload[..done + r])| == |bytes|
    ensures BlockAt(Overwrite(bytes, off, payload[..done + r]), bs, n, id + q)
            == BlockAt(payload, bs, cnt, q)[..r] + BlockAt(bytes, bs, n, id + q)[r..]
  {
    hide Overwrite, BlockAt;
    MulAdd(id, q, bs);
    var at := off + done;
    BlockIsCut(bytes, bs, n, id + q, at);
    BlockIsCut(payload, bs, cnt, q, done);
    WriteEndsInside(bytes, off, payload[..done + r], at, bs, r);
    BlockIsCut(Overwrite(bytes, off, payload[..done + r]), bs, n, id + q, at);
    SliceOfSlice(payload, 0, done + r, done, done + r);
    SliceOfSlice(payload, done, done + bs, 0, r);
  }

  lemma Quotient(k: nat, bs: nat, cnt: nat) returns (q: nat, r: nat, done: nat)
    requires 0 < bs && k <= cnt * bs
    ensures done == q * bs && k == done + r && r < bs && q <= cnt
  {
    q, r := k / bs, k % bs;
    done := k - r;
    if q > cnt {
      MulMonotone(cnt + 1, q, bs);
      MulAdd(cnt, 1, bs);
      assert false;
    }
  }

  /** A faulted write in range has stored some prefix of its payload at its true offset. */
  lemma TornAt(
    checked: bool, bs: u32, bytes: seq<byte>, req: Request, resp: Response, bytes': seq<byte>, off: nat)
    requires 0 < bs && req.Bwrite? && off == req.id * bs && off < TWO_63
    requires FileStep(checked, bs, bytes, req, resp, bytes', true)
    ensures PrefixStored(bytes, off, req.payload, bytes') && resp.status == Failure
  {
    hide Overwrite, FileApply, TornRead, PrefixStored;
    assert Mul64(checked, req.id, bs) == Some(off);
  }

  /** Block `i` of the block region of a device that may hold more bytes behind it. */
  function RegionBlock(bs: nat, n: nat, s: seq<byte>, i: nat): Block
    requires n * bs <= |s| && i < n
  {
    BlockAt(s[..n * bs], bs, n, i)
  }

  /** How the blocks stand after `q` blocks and `r` bytes of a write have been stored. */
  ghost predicate TornBlocks(
    bs: u32, n: nat, bytes: seq<byte>, req: Request, bytes': seq<byte>, q: nat, r: nat)
    requires n * bs <= |bytes| && n * bs <= |bytes'|
    requires req.Bwrite? && req.Sized(bs) && req.InRange(n) && q <= req.cnt && r <= bs
  {
    && (forall i :: 0 <= i < n && (i < req.id || req.id + q < i || req.id + req.cnt <= i) ==>
          RegionBlock(bs, n, bytes', i) == RegionBlock(bs, n, bytes, i))
    && (forall i :: req.id <= i < req.id + q ==>
          RegionBlock(bs, n, bytes', i) == Written(bs, req, i))
    && (q < req.cnt ==>
          var i := req.id + q;
          RegionBlock(bs, n, bytes', i) == Written(bs, req, i)[..r] + RegionBlock(bs, n, bytes, i)[r..])
  }

  lemma TornRegion(
    bs: u32, n: nat, bytes: seq<byte>, req: Request, q: nat, r: nat, size: nat, off: nat, done: nat)
    requires req.Bwrite? && req.Sized(bs) && req.InRange(n) && q <= req.cnt
    requires size == n * bs && off == req.id * bs && done == q * bs
    requires off + |req.payload| <= size <= |bytes| && r < bs && done + r <= |req.payload|
    ensures var bytes' := Overwrite(bytes, off, req.payload[..done + r]);
            && |bytes'| == |bytes| && bytes'[size..] == bytes[size..]
            && TornBlocks(bs, n, bytes, req, bytes', q, r)
  {
    hide Overwrite, BlockAt;
    var region, part := bytes[..size], req.payload[..done + r];
    var bytes' := Overwrite(bytes, off, part);
    OverwriteRegion(bytes, size, off, part);
    forall i | 0 <= i < n
      ensures i < req.id || req.id + q < i || req.id + req.cnt <= i ==>
                RegionBlock(bs, n, bytes', i) == RegionBlock(bs, n, bytes, i)
      ensures req.id <= i < req.id + q ==> RegionBlock(bs, n, bytes', i) == Written(bs, req, i)
    {
      MulMonotone(0, i, bs);
      PartialWriteAtBlock(region, bs, n, req.id, req.cnt, req.payload, q, r, i, off, done, i * bs);
    }
    if q < req.cnt {
      PartialWriteTornBlock(region, bs, n, req.id, req.cnt, req.payload, q, r, off, done);
    }
  }

  /**
   * A write during which the host faults tears at one point: some number `q` of leading blocks is
   * new, block `q` of the range is new up to byte `r` and old from there on, the blocks after it
   * are old, and no byte outside the range changes.
   */
  lemma TornWriteTearsOneBlock(
    checked: bool, bs: u32, n: nat, bytes: seq<byte>, req: Request, resp: Response, bytes': seq<byte>)
    returns (q: nat, r: nat)
    requires 0 < bs && req.Bwrite? && req.Sized(bs) && req.InRange(n)
    requires n * bs <= |bytes| && n * bs < TWO_63
    requires FileStep(checked, bs, bytes, req, resp, bytes', true)
    ensures q <= req.cnt && r < bs && resp.status == Failure
    ensures |bytes'| == |bytes| && bytes'[n * bs..] == bytes[n * bs..]
    ensures TornBlocks(bs, n, bytes, req, bytes', q, r)
  {
    hide TornBlocks, Overwrite, FileStep;
    MulMonotone(0, req.id, bs);
    var off: nat, size: nat := req.id * bs, n * bs;
    InRangeBytes(bs, n, req, size, off, |req.payload|);
    TornAt(checked, bs, bytes, req, resp, bytes', off);
    var k: nat :| k <= |req.payload| && bytes' == Overwrite(bytes, off, req.payload[..k]);
    var done;
    q, r, done := Quotient(k, bs, req.cnt);
    TornRegion(bs, n, bytes, req, q, r, size, off, done);
  }
}
