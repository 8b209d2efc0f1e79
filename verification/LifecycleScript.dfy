/** The calls of an instance over its whole life, told without the machine. */
module LifecycleScript {
  import opened MachineInts
  import opened Namespace
  import opened Lifecycle
  import opened LifecycleSafety

  function UpCalls(inst: Instance, w: nat): seq<Call> {
    MountCalls(inst.Dev(), inst.Mp(), w, inst.readOnly)
  }

  function DownCalls(inst: Instance): seq<Call> {
    TeardownCalls(inst.Dev(), inst.Mp(), inst.journalActive)
  }

  /** The last calls are those of `tail`. */
  predicate EndsWith(sub: seq<Event>, tail: seq<Call>) {
    |tail| <= |sub| && Calls(sub[|sub| - |tail|..]) == tail
  }

  /** The events before the last `n`. */
  function Before(sub: seq<Event>, n: nat): seq<Event>
    requires n <= |sub|
  {
    sub[..|sub| - n]
  }

  predicate LastOk(sub: seq<Event>) {
    sub != [] && sub[|sub| - 1].ok
  }

  /** The mount went through, its journal is active if it started, and only flushes have followed. */
  predicate InService(inst: Instance, w: nat, sub: seq<Event>) {
    var up := UpCalls(inst, w);
    && |up| <= |sub| && Calls(sub[..|up|]) == up
    && sub[0].ok && sub[1].ok
    && (inst.journalActive <==> !inst.readOnly && sub[3].ok)
    && forall k :: |up| <= k < |sub| ==> sub[k].call == CacheFlush(inst.Mp())
  }

  /** `umount` ran, to the end or until its unmount failed. */
  predicate AfterUmount(inst: Instance, w: nat, sub: seq<Event>) {
    var down := DownCalls(inst);
    var n := |down|;
    || (EndsWith(sub, down) && LastOk(Before(sub, 1)) && InService(inst, w, Before(sub, n)))
    || (EndsWith(sub, down[..n - 1]) && !LastOk(sub) && InService(inst, w, Before(sub, n - 1)))
  }

  /** `drop` has made its first `k` calls, with or without an `umount` before it. */
  predicate Dropping(inst: Instance, w: nat, sub: seq<Event>, k: nat)
    requires k <= |DownCalls(inst)|
  {
    && EndsWith(sub, DownCalls(inst)[..k])
    && (InService(inst, w, Before(sub, k)) || AfterUmount(inst, w, Before(sub, k)))
  }

  /** `umount` has made its first `k` calls. */
  predicate Unmounting(inst: Instance, w: nat, sub: seq<Event>, k: nat)
    requires k <= |DownCalls(inst)|
  {
    && EndsWith(sub, DownCalls(inst)[..k])
    && InService(inst, w, Before(sub, k))
  }

  /** The registration failed, or the mount did and the device was unregistered again. */
  predicate MountGivenUp(inst: Instance, w: nat, sub: seq<Event>) {
    var up := UpCalls(inst, w);
    || (Calls(sub) == up[..1] && !sub[0].ok)
    || (Calls(sub) == up[..2] + [DeviceUnregister(inst.Dev())] && sub[0].ok && !sub[1].ok)
  }

  /** All the calls of an instance whose wrapper is gone or about to go. */
  predicate WholeLife(inst: Instance, w: nat, sub: seq<Event>) {
    MountGivenUp(inst, w, sub) || Dropping(inst, w, sub, |DownCalls(inst)|)
  }

  /** Part of the mount sequence has been called, its first `oks` calls with success. */
  predicate ComingUp(inst: Instance, w: nat, sub: seq<Event>, k: nat, oks: nat)
    requires k <= |UpCalls(inst, w)|
  {
    && Calls(sub) == UpCalls(inst, w)[..k] && !inst.journalActive
    && oks <= k && forall j :: 0 <= j < oks ==> sub[j].ok
  }

  predicate TearingDown(pc: Pc) {
    || pc.UmStop? || pc.UmFlush? || pc.UmUnmount? || pc.UmUnregister?
    || pc.DrStop? || pc.DrFlush? || pc.DrUnmount? || pc.DrUnregister?
  }

  /** How many calls of a teardown have been made at a point inside it. */
  function Made(pc: Pc, journal: bool): nat {
    var j := if journal then 1 else 0;
    if pc.UmStop? || pc.DrStop? then 0
    else if pc.UmFlush? || pc.DrFlush? then j
    else if pc.UmUnmount? || pc.DrUnmount? then j + 1
    else j + 2
  }

  /** How far the script has been followed at each point. */
  predicate Follows(inst: Instance, w: nat, sub: seq<Event>) {
    var k := Made(inst.pc, inst.journalActive);
    match inst.pc
    case Registering => ComingUp(inst, w, sub, 0, 0)
    case Mounting => ComingUp(inst, w, sub, 1, 1)
    case MountFailed => ComingUp(inst, w, sub, 2, 1) && !sub[1].ok
    case Recovering => ComingUp(inst, w, sub, 2, 2)
    case JournalStarting => !inst.readOnly && ComingUp(inst, w, sub, 3, 2)
    case Live => InService(inst, w, sub)
    case UmStop => inst.journalActive && Unmounting(inst, w, sub, k)
    case UmFlush => Unmounting(inst, w, sub, k)
    case UmUnmount => Unmounting(inst, w, sub, k)
    case UmUnregister => Unmounting(inst, w, sub, k) && LastOk(sub)
    case DrStop => inst.journalActive && Dropping(inst, w, sub, k)
    case DrFlush => Dropping(inst, w, sub, k)
    case DrUnmount => Dropping(inst, w, sub, k)
    case DrUnregister => Dropping(inst, w, sub, k)
    case Releasing => WholeLife(inst, w, sub)
    case Freed => WholeLife(inst, w, sub)
  }

  // ------------------------------------------------------------------------------------------
  // One more call

  lemma EndsWithNothing(sub: seq<Event>)
    ensures EndsWith(sub, []) && Before(sub, 0) == sub
  {
  }

  lemma EndsWithMore(sub: seq<Event>, tail: seq<Call>, e: Event)
    requires EndsWith(sub, tail)
    ensures EndsWith(sub + [e], tail + [e.call])
    ensures Before(sub + [e], |tail| + 1) == Before(sub, |tail|)
  {
    assert (sub + [e])[|sub| - |tail|..] == sub[|sub| - |tail|..] + [e];
  }

  /** The calls of a teardown, one after the other. */
  lemma DownCallsAt(inst: Instance)
    ensures var j := if inst.journalActive then 1 else 0;
            && |DownCalls(inst)| == j + 3
            && (inst.journalActive ==> DownCalls(inst)[..1] == DownCalls(inst)[..0] + [JournalStop(inst.Mp())])
            && DownCalls(inst)[..j + 1] == DownCalls(inst)[..j] + [CacheFlush(inst.Mp())]
            && DownCalls(inst)[..j + 2] == DownCalls(inst)[..j + 1] + [Umount(inst.Mp())]
            && DownCalls(inst)[..j + 3] == DownCalls(inst)[..j + 2] + [DeviceUnregister(inst.Dev())]
            && DownCalls(inst)[..j + 3] == DownCalls(inst)
            && DownCalls(inst)[..0] == []
  {
  }

  /** The script does not depend on the point the instance is at. */
  lemma SameScript(a: Instance, b: Instance, w: nat)
    requires b == a.(pc := b.pc)
    ensures DownCalls(b) == DownCalls(a)
    ensures forall sub :: InService(b, w, sub) == InService(a, w, sub)
    ensures forall sub, k: nat | k <= |DownCalls(a)| :: Unmounting(b, w, sub, k) == Unmounting(a, w, sub, k)
    ensures forall sub, k: nat | k <= |DownCalls(a)| :: Dropping(b, w, sub, k) == Dropping(a, w, sub, k)
  {
    assert forall sub :: InService(b, w, sub) == InService(a, w, sub);
    hide InService, EndsWith;
    assert forall sub :: AfterUmount(b, w, sub) == AfterUmount(a, w, sub);
  }

  lemma CallsMore(sub: seq<Event>, e: Event)
    ensures Calls(sub + [e]) == Calls(sub) + [e.call]
  {
  }

  /** The calls of a mount, one after the other. */
  lemma UpCallsAt(inst: Instance, w: nat)
    ensures var up := UpCalls(inst, w);
            && |up| == (if inst.readOnly then 3 else 4)
            && up[..0] == [] && up[..1] == [DeviceRegister(inst.Dev(), w)]
            && up[..2] == up[..1] + [Mount(inst.Dev(), inst.Mp(), inst.readOnly)]
            && up[..3] == up[..2] + [Recover(inst.Mp())]
            && up == if inst.readOnly then up[..3] else up[..3] + [JournalStart(inst.Mp())]
  {
  }

  lemma NowInService(inst: Instance, w: nat, sub: seq<Event>)
    requires Calls(sub) == UpCalls(inst, w) && sub[0].ok && sub[1].ok
    requires inst.journalActive <==> !inst.readOnly && sub[3].ok
    ensures InService(inst, w, sub)
  {
    assert sub[..|sub|] == sub;
  }

  lemma ComingUpMore(inst: Instance, w: nat, sub: seq<Event>, k: nat, oks: nat, e: Event)
    requires k < |UpCalls(inst, w)| && ComingUp(inst, w, sub, k, oks)
    requires UpCalls(inst, w)[..k + 1] == UpCalls(inst, w)[..k] + [e.call]
    ensures |sub| == k && ComingUp(inst, w, sub + [e], k + 1, oks)
    ensures oks == k && e.ok ==> ComingUp(inst, w, sub + [e], k + 1, k + 1)
  {
    hide UpCalls;
    CallsMore(sub, e);
  }

  /** From the registration on. */
  lemma RegisterStep(inst: Instance, w: nat, sub: seq<Event>, ok: bool)
    requires Follows(inst, w, sub) && inst.pc.Registering?
    ensures Follows(Resume(inst, ok), w, sub + [Event(CallAt(inst, w).value, ok)])
  {
    hide DeviceName, MountPoint;
    UpCallsAt(inst, w);
    assert UpCalls(Resume(inst, ok), w) == UpCalls(inst, w);
    hide UpCalls;
    ComingUpMore(inst, w, sub, 0, 0, Event(CallAt(inst, w).value, ok));
  }

  /** From the mount on, up to giving up. */
  lemma MountStep(inst: Instance, w: nat, sub: seq<Event>, ok: bool)
    requires Follows(inst, w, sub) && (inst.pc.Mounting? || inst.pc.MountFailed?)
    ensures Follows(Resume(inst, ok), w, sub + [Event(CallAt(inst, w).value, ok)])
  {
    hide DeviceName, MountPoint;
    UpCallsAt(inst, w);
    assert UpCalls(Resume(inst, ok), w) == UpCalls(inst, w);
    hide UpCalls;
    var e := Event(CallAt(inst, w).value, ok);
    if inst.pc.Mounting? {
      ComingUpMore(inst, w, sub, 1, 1, e);
    } else {
      CallsMore(sub, e);
    }
  }

  /** From the recovery on, up to service. */
  lemma ServiceStep(inst: Instance, w: nat, sub: seq<Event>, ok: bool)
    requires Follows(inst, w, sub) && (inst.pc.Recovering? || inst.pc.JournalStarting?)
    ensures Follows(Resume(inst, ok), w, sub + [Event(CallAt(inst, w).value, ok)])
  {
    hide DeviceName, MountPoint;
    UpCallsAt(inst, w);
    assert UpCalls(Resume(inst, ok), w) == UpCalls(inst, w);
    hide UpCalls;
    var e := Event(CallAt(inst, w).value, ok);
    ComingUpMore(inst, w, sub, if inst.pc.Recovering? then 2 else 3, 2, e);
    if Resume(inst, ok).pc.Live? {
      NowInService(Resume(inst, ok), w, sub + [e]);
    }
  }

  lemma UnmountingMore(inst: Instance, w: nat, sub: seq<Event>, k: nat, e: Event)
    requires k < |DownCalls(inst)| && DownCalls(inst)[..k + 1] == DownCalls(inst)[..k] + [e.call]
    ensures Unmounting(inst, w, sub, k) ==> Unmounting(inst, w, sub + [e], k + 1)
    ensures Dropping(inst, w, sub, k) ==> Dropping(inst, w, sub + [e], k + 1)
  {
    hide EndsWith, InService, AfterUmount, DownCalls;
    if EndsWith(sub, DownCalls(inst)[..k]) {
      EndsWithMore(sub, DownCalls(inst)[..k], e);
    }
  }

  /** Either way `umount` ends, `drop` begins. */
  lemma UmountEnds(inst: Instance, w: nat, sub: seq<Event>, e: Event)
    ensures var n := |DownCalls(inst)|;
            && n >= 3
            && (Unmounting(inst, w, sub + [e], n) && LastOk(sub) ==> Dropping(inst, w, sub + [e], 0))
            && (Unmounting(inst, w, sub + [e], n - 1) && !e.ok ==> Dropping(inst, w, sub + [e], 0))
  {
    hide InService, EndsWith;
    EndsWithNothing(sub + [e]);
    DownCallsAt(inst);
    hide DownCalls;
  }

  /** A teardown step makes the next call of the script. */
  lemma NextDownCall(inst: Instance, w: nat)
    requires TearingDown(inst.pc)
    requires inst.pc.UmStop? || inst.pc.DrStop? ==> inst.journalActive
    ensures var k := Made(inst.pc, inst.journalActive);
            && k < |DownCalls(inst)| == Made(DrUnregister, inst.journalActive) + 1
            && DownCalls(inst)[..k + 1] == DownCalls(inst)[..k] + [CallAt(inst, w).value]
  {
    DownCallsAt(inst);
    hide DownCalls, DeviceName, MountPoint;
  }

  /** The calls of `umount`. */
  lemma UmountStep(inst: Instance, w: nat, sub: seq<Event>, ok: bool)
    requires Follows(inst, w, sub) && TearingDown(inst.pc) && !inst.InDrop()
    ensures Follows(Resume(inst, ok), w, sub + [Event(CallAt(inst, w).value, ok)])
  {
    hide Unmounting, Dropping, InService, DownCalls, DeviceName, MountPoint;
    var e := Event(CallAt(inst, w).value, ok);
    SameScript(inst, Resume(inst, ok), w);
    NextDownCall(inst, w);
    UnmountingMore(inst, w, sub, Made(inst.pc, inst.journalActive), e);
    UmountEnds(inst, w, sub, e);
  }

  /** The calls of `drop`. */
  lemma DropStep(inst: Instance, w: nat, sub: seq<Event>, ok: bool)
    requires Follows(inst, w, sub) && inst.InDrop()
    ensures Follows(Resume(inst, ok), w, sub + [Event(CallAt(inst, w).value, ok)])
  {
    hide Unmounting, Dropping, InService, DownCalls, DeviceName, MountPoint;
    var e := Event(CallAt(inst, w).value, ok);
    SameScript(inst, Resume(inst, ok), w);
    NextDownCall(inst, w);
    UnmountingMore(inst, w, sub, Made(inst.pc, inst.journalActive), e);
  }

  lemma CallStep(inst: Instance, w: nat, sub: seq<Event>, ok: bool)
    requires Follows(inst, w, sub) && CallAt(inst, w).Some?
    ensures Follows(Resume(inst, ok), w, sub + [Event(CallAt(inst, w).value, ok)])
  {
    hide Follows, DeviceName, MountPoint;
    if inst.pc.Registering? {
      RegisterStep(inst, w, sub, ok);
    } else if inst.pc.Mounting? || inst.pc.MountFailed? {
      MountStep(inst, w, sub, ok);
    } else if inst.pc.Recovering? || inst.pc.JournalStarting? {
      ServiceStep(inst, w, sub, ok);
    } else if inst.InDrop() {
      DropStep(inst, w, sub, ok);
    } else {
      UmountStep(inst, w, sub, ok);
    }
  }

  lemma FlushStep(inst: Instance, w: nat, sub: seq<Event>, ok: bool)
    requires InService(inst, w, sub)
    ensures InService(inst, w, sub + [Event(CacheFlush(inst.Mp()), ok)])
  {
    hide DeviceName, MountPoint;
    var up := UpCalls(inst, w);
    assert (sub + [Event(CacheFlush(inst.Mp()), ok)])[..|up|] == sub[..|up|];
  }

  /** Between calls: `umount` or `drop` begins, or the wrapper goes. */
  lemma MoveStep(s: State, a: Action, sub: seq<Event>)
    requires Enabled(s, a) && (a.StartUmount? || a.StartDrop? || a.Release?)
    requires Follows(s.instances[a.i], a.i, sub)
    ensures Follows(Do(s, a).instances[a.i], a.i, sub)
  {
    hide InService, AfterUmount, EndsWith, DeviceName, MountPoint;
    EndsWithNothing(sub);
    DownCallsAt(s.instances[a.i]);
    SameScript(s.instances[a.i], Do(s, a).instances[a.i], a.i);
    hide DownCalls;
  }

  // ------------------------------------------------------------------------------------------
  // Runs

  predicate AllFollow(s: State) {
    forall i :: 0 <= i < |s.instances| ==> Follows(s.instances[i], i, CallsOf(s.lib.log, i))
  }

  lemma ReturnFollows(s: State, i: nat, ok: bool)
    requires Inv(s) && AllFollow(s) && Enabled(s, Return(i, ok))
    ensures AllFollow(Do(s, Return(i, ok)))
  {
    hide Follows, TablesFit, TableCallsFit, JournalCallsFit, ModeFits, DeviceName, MountPoint, CallsOf;
    var inst := s.instances[i];
    var c := CallAt(inst, i).value;
    assert Fits(s.lib, inst, i);
    CallIsOfId(inst, i);
    CallsOfAppend(s.lib.log, Event(c, ok), i);
    CallStep(inst, i, CallsOf(s.lib.log, i), ok);
    forall j | 0 <= j < |s.instances| && j != i
      ensures CallsOf(After(s.lib, c, ok).log, j) == CallsOf(s.lib.log, j)
    {
      CallOfOtherId(s.lib, c, ok, i, j);
    }
  }

  lemma SyncFollows(s: State, i: nat, ok: bool)
    requires Inv(s) && AllFollow(s) && Enabled(s, Sync(i, ok))
    ensures AllFollow(Do(s, Sync(i, ok)))
  {
    hide InService, TablesFit, TableCallsFit, JournalCallsFit, ModeFits, DeviceName, MountPoint, CallsOf;
    var inst := s.instances[i];
    var c := CacheFlush(inst.Mp());
    assert Fits(s.lib, inst, i);
    CallsOfAppend(s.lib.log, Event(c, ok), i);
    FlushStep(inst, i, CallsOf(s.lib.log, i), ok);
    hide Follows;
    forall j | 0 <= j < |s.instances| && j != i
      ensures CallsOf(After(s.lib, c, ok).log, j) == CallsOf(s.lib.log, j)
    {
      CallOfOtherId(s.lib, c, ok, i, j);
    }
  }

  lemma BeginFollows(s: State, readOnly: bool)
    requires Inv(s) && AllFollow(s) && |s.instances| < TWO_64
    ensures AllFollow(Do(s, Begin(readOnly)))
  {
    hide Fits, TablesOwned, LogOwned, DeviceName, MountPoint;
    NextIdIsFresh(s.lib, |s.instances|);
    hide CallsOf;
    assert Follows(Instance(|s.instances|, readOnly, false, Registering), |s.instances|, []);
    hide Follows;
  }

  lemma StepFollows(s: State, a: Action)
    requires Inv(s) && AllFollow(s) && Enabled(s, a) && (a.Begin? ==> |s.instances| < TWO_64)
    ensures AllFollow(Do(s, a))
  {
    hide Inv, Follows;
    match a {
      case Begin(readOnly) => BeginFollows(s, readOnly);
      case Return(i, ok) => ReturnFollows(s, i, ok);
      case Sync(i, ok) => SyncFollows(s, i, ok);
      case _ => MoveStep(s, a, CallsOf(s.lib.log, a.i));
    }
  }

  /**
   * In every run of at most 2^64 mounts each instance follows the script. Alive, it has called the
   * whole mount sequence and nothing but flushes since. When its wrapper goes, it has either given
   * up mounting or called the whole teardown from `drop`, with or without an `umount` before.
   */
  lemma {:induction false} LifeIsScript(acts: seq<Action>, s: State)
    requires Exec(acts) == Some(s) && |s.instances| <= TWO_64
    ensures AllFollow(s)
  {
    if acts != [] {
      hide Inv;
      var last := |acts| - 1;
      var t := Exec(acts[..last]).value;
      assert |t.instances| <= |s.instances|;
      ReachableInv(acts[..last], t);
      LifeIsScript(acts[..last], t);
      StepFollows(t, acts[last]);
    }
  }
}
