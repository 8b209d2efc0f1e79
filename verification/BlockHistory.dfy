/** Histories in which the host may fault: what is still known of every block. */
module BlockHistory {
  import opened MachineInts
  import opened ByteRanges
  import opened BlockRequests
  import opened BlockStore
  import opened BlockLaws

  /** One request on a device; only a host file can fault. */
  ghost predicate AnyStep(
    kind: Kind, checked: bool, bs: u32, s: seq<byte>, req: Request, resp: Response, s': seq<byte>, fault: bool)
  {
    if fault then kind.OnHost? && 0 < bs && req.Sized(bs) && FileStep(checked, bs, s, req, resp, s', true)
    else DeviceStep(kind, checked, bs, s, req, resp, s')
  }

  /** A possible history of a device; `faults` marks the requests the host failed. */
  ghost predicate History(
    kind: Kind, checked: bool, bs: u32, states: seq<seq<byte>>, reqs: seq<Request>, resps: seq<Response>,
    faults: seq<bool>)
  {
    && |states| == |reqs| + 1 && |resps| == |reqs| && |faults| == |reqs|
    && forall i :: 0 <= i < |reqs| ==>
         AnyStep(kind, checked, bs, states[i], reqs[i], resps[i], states[i + 1], faults[i])
  }

  predicate FaultFree(faults: seq<bool>) {
    forall i :: 0 <= i < |faults| ==> !faults[i]
  }

  lemma FaultFreeIsTrace(
    kind: Kind, checked: bool, bs: u32, states: seq<seq<byte>>, reqs: seq<Request>, resps: seq<Response>,
    faults: seq<bool>)
    requires History(kind, checked, bs, states, reqs, resps, faults) && FaultFree(faults)
    ensures Trace(kind, checked, bs, states, reqs, resps)
  {
    hide DeviceStep, FileStep;
    forall i | 0 <= i < |reqs| ensures DeviceStep(kind, checked, bs, states[i], reqs[i], resps[i], states[i + 1]) {
      assert AnyStep(kind, checked, bs, states[i], reqs[i], resps[i], states[i + 1], faults[i]);
    }
  }

  lemma MemoryNeverFaults(
    checked: bool, bs: u32, states: seq<seq<byte>>, reqs: seq<Request>, resps: seq<Response>, faults: seq<bool>)
    requires History(InMemory, checked, bs, states, reqs, resps, faults)
    ensures FaultFree(faults)
  {
    hide DeviceStep, FileStep;
    forall i | 0 <= i < |reqs| ensures !faults[i] {
      assert AnyStep(InMemory, checked, bs, states[i], reqs[i], resps[i], states[i + 1], faults[i]);
    }
  }

  lemma HistoryMore(
    kind: Kind, checked: bool, bs: u32, states: seq<seq<byte>>, reqs: seq<Request>, resps: seq<Response>,
    faults: seq<bool>, req: Request, resp: Response, s': seq<byte>, fault: bool)
    requires History(kind, checked, bs, states, reqs, resps, faults)
    requires AnyStep(kind, checked, bs, states[|reqs|], req, resp, s', fault)
    ensures History(kind, checked, bs, states + [s'], reqs + [req], resps + [resp], faults + [fault])
  {
    hide AnyStep;
    forall i | 0 <= i < |reqs| + 1
      ensures AnyStep(kind, checked, bs, (states + [s'])[i], (reqs + [req])[i], (resps + [resp])[i],
                      (states + [s'])[i + 1], (faults + [fault])[i])
    {
      if i < |reqs| {
        assert AnyStep(kind, checked, bs, states[i], reqs[i], resps[i], states[i + 1], faults[i]);
      }
    }
  }

  // ------------------------------------------------------------------------------------------
  // One block over one request

  lemma CleanStepAtBlock(
    kind: Kind, checked: bool, bs: u32, n: nat, s: seq<byte>, req: Request, resp: Response, s': seq<byte>, b: nat)
    requires DeviceStep(kind, checked, bs, s, req, resp, s')
    requires Holds(kind, bs, n, s) && req.InRange(n) && b < n
    ensures Holds(kind, bs, n, s') && s'[n * bs..] == s[n * bs..]
    ensures RegionBlock(bs, n, s', b) == if req.Covers(b) then Written(bs, req, b) else RegionBlock(bs, n, s, b)
    ensures req.Bread? && req.id <= b < req.id + req.cnt ==>
              && resp.status == Success && |resp.data| == req.cnt * bs
              && Reported(bs, req, resp, b) == RegionBlock(bs, n, s, b)
  {
    hide DeviceStep, BlockAt, Overwrite;
    StepRefines(kind, checked, bs, n, s, req, resp, s');
    var before, after := Blocks(s[..n * bs], bs, n), Blocks(s'[..n * bs], bs, n);
    assert after[b] == RegionBlock(bs, n, s', b) && before[b] == RegionBlock(bs, n, s, b);
    if req.Bread? && req.id <= b < req.id + req.cnt {
      assert Blocks(resp.data, bs, req.cnt)[b - req.id] == before[req.id..req.id + req.cnt][b - req.id];
    }
  }

  /** A faulted request changes no byte outside the blocks it covers, and reports failure. */
  lemma FaultAtBlock(
    checked: bool, bs: u32, n: nat, s: seq<byte>, req: Request, resp: Response, s': seq<byte>, b: nat)
    requires 0 < bs && req.Sized(bs) && FileStep(checked, bs, s, req, resp, s', true)
    requires Holds(OnHost, bs, n, s) && req.InRange(n) && b < n
    ensures Holds(OnHost, bs, n, s') && s'[n * bs..] == s[n * bs..] && resp.status == Failure
    ensures !req.Covers(b) ==> RegionBlock(bs, n, s', b) == RegionBlock(bs, n, s, b)
  {
    if req.Bwrite? {
      hide FileStep, RegionBlock;
      var q, r := TornWriteTearsOneBlock(checked, bs, n, s, req, resp, s');
    }
  }

  /** The block after a request, in any outcome but a fault that covers it. */
  lemma StepAtBlock(
    kind: Kind, checked: bool, bs: u32, n: nat, s: seq<byte>, req: Request, resp: Response, s': seq<byte>,
    fault: bool, b: nat)
    requires AnyStep(kind, checked, bs, s, req, resp, s', fault)
    requires Holds(kind, bs, n, s) && req.Sized(bs) && req.InRange(n) && b < n
    ensures Holds(kind, bs, n, s') && s'[n * bs..] == s[n * bs..]
    ensures !req.Covers(b) ==> RegionBlock(bs, n, s', b) == RegionBlock(bs, n, s, b)
    ensures req.Covers(b) && !fault ==> RegionBlock(bs, n, s', b) == Written(bs, req, b)
    ensures req.Bread? && !fault && req.id <= b < req.id + req.cnt ==>
              && resp.status == Success && |resp.data| == req.cnt * bs
              && Reported(bs, req, resp, b) == RegionBlock(bs, n, s, b)
  {
    hide DeviceStep, FileStep, RegionBlock, Written, Reported;
    if fault {
      FaultAtBlock(checked, bs, n, s, req, resp, s', b);
    } else {
      CleanStepAtBlock(kind, checked, bs, n, s, req, resp, s', b);
    }
  }

  // ------------------------------------------------------------------------------------------
  // One block over a history

  /** No request from `from` up to `to` writes block `b`, not even in part. */
  predicate Untouched(reqs: seq<Request>, from: nat, to: nat, b: nat)
    requires to <= |reqs|
  {
    forall k :: from <= k < to ==> !reqs[k].Covers(b)
  }

  /** Faults or not, a device keeps its block region, and a block keeps its contents until covered. */
  lemma {:induction false} BlockKept(
    kind: Kind, checked: bool, bs: u32, n: nat, states: seq<seq<byte>>, reqs: seq<Request>, resps: seq<Response>,
    faults: seq<bool>, from: nat, to: nat, b: nat)
    requires History(kind, checked, bs, states, reqs, resps, faults)
    requires from <= to <= |reqs| && AllInRange(bs, n, reqs) && b < n
    requires Holds(kind, bs, n, states[from])
    ensures Holds(kind, bs, n, states[to]) && states[to][n * bs..] == states[from][n * bs..]
    ensures Untouched(reqs, from, to, b) ==> RegionBlock(bs, n, states[to], b) == RegionBlock(bs, n, states[from], b)
  {
    hide AnyStep, RegionBlock;
    if from < to {
      BlockKept(kind, checked, bs, n, states, reqs, resps, faults, from, to - 1, b);
      assert AnyStep(kind, checked, bs, states[to - 1], reqs[to - 1], resps[to - 1], states[to], faults[to - 1]);
      StepAtBlock(kind, checked, bs, n, states[to - 1], reqs[to - 1], resps[to - 1], states[to], faults[to - 1], b);
    }
  }

  /** A read that succeeds at step `i` reports block `b` as it stands. */
  lemma ReadReports(
    kind: Kind, checked: bool, bs: u32, n: nat, states: seq<seq<byte>>, reqs: seq<Request>, resps: seq<Response>,
    faults: seq<bool>, i: nat, b: nat)
    requires History(kind, checked, bs, states, reqs, resps, faults)
    requires Holds(kind, bs, n, states[0]) && AllInRange(bs, n, reqs)
    requires i < |reqs| && !faults[i] && reqs[i].Bread? && reqs[i].id <= b < reqs[i].id + reqs[i].cnt
    ensures Holds(kind, bs, n, states[i])
    ensures resps[i].status == Success && |resps[i].data| == reqs[i].cnt * bs
    ensures Reported(bs, reqs[i], resps[i], b) == RegionBlock(bs, n, states[i], b)
  {
    hide AnyStep, RegionBlock;
    BlockKept(kind, checked, bs, n, states, reqs, resps, faults, 0, i, b);
    assert AnyStep(kind, checked, bs, states[i], reqs[i], resps[i], states[i + 1], faults[i]);
    StepAtBlock(kind, checked, bs, n, states[i], reqs[i], resps[i], states[i + 1], faults[i], b);
  }

  /**
   * In a history with any number of host faults, a read that does not fault returns, for block
   * `b`, what the completed write `j` put there, if no later request, completed or not, covers
   * `b`. Without faults that is the last write.
   */
  lemma ReadSeesLastWrite(
    kind: Kind, checked: bool, bs: u32, n: nat, states: seq<seq<byte>>, reqs: seq<Request>, resps: seq<Response>,
    faults: seq<bool>, i: nat, b: nat, j: nat)
    requires History(kind, checked, bs, states, reqs, resps, faults)
    requires Holds(kind, bs, n, states[0]) && AllInRange(bs, n, reqs)
    requires i < |reqs| && !faults[i] && reqs[i].Bread? && reqs[i].id <= b < reqs[i].id + reqs[i].cnt
    requires j < i && !faults[j] && reqs[j].Covers(b) && Untouched(reqs, j + 1, i, b)
    ensures resps[i].status == Success && |resps[i].data| == reqs[i].cnt * bs
    ensures Reported(bs, reqs[i], resps[i], b) == Written(bs, reqs[j], b)
  {
    hide AnyStep, RegionBlock, Written, Reported, Untouched;
    ReadReports(kind, checked, bs, n, states, reqs, resps, faults, i, b);
    BlockKept(kind, checked, bs, n, states, reqs, resps, faults, 0, j, b);
    assert AnyStep(kind, checked, bs, states[j], reqs[j], resps[j], states[j + 1], faults[j]);
    StepAtBlock(kind, checked, bs, n, states[j], reqs[j], resps[j], states[j + 1], faults[j], b);
    BlockKept(kind, checked, bs, n, states, reqs, resps, faults, j + 1, i, b);
  }

  /** A read that does not fault returns the initial contents of a block no earlier request covers. */
  lemma ReadSeesInitial(
    kind: Kind, checked: bool, bs: u32, n: nat, states: seq<seq<byte>>, reqs: seq<Request>, resps: seq<Response>,
    faults: seq<bool>, i: nat, b: nat)
    requires History(kind, checked, bs, states, reqs, resps, faults)
    requires Holds(kind, bs, n, states[0]) && AllInRange(bs, n, reqs)
    requires i < |reqs| && !faults[i] && reqs[i].Bread? && reqs[i].id <= b < reqs[i].id + reqs[i].cnt
    requires Untouched(reqs, 0, i, b)
    ensures resps[i].status == Success && |resps[i].data| == reqs[i].cnt * bs
    ensures Reported(bs, reqs[i], resps[i], b) == RegionBlock(bs, n, states[0], b)
  {
    hide AnyStep, RegionBlock, Reported, Untouched;
    ReadReports(kind, checked, bs, n, states, reqs, resps, faults, i, b);
    BlockKept(kind, checked, bs, n, states, reqs, resps, faults, 0, i, b);
  }
}
