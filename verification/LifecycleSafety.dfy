/** The invariant of the lifecycle machine: what every reachable state satisfies. */
module LifecycleSafety {
  import opened MachineInts
  import opened Namespace
  import opened Lifecycle

  // ------------------------------------------------------------------------------------------
  // The invariant

  /** Which table calls of the instance have succeeded, given where it is. */
  predicate TableCallsFit(pc: Pc, sub: seq<Event>) {
    match pc
    case Registering => sub == []
    case Mounting => RegisteredOk(sub) && !UnregisteredOk(sub) && !MountedOk(sub) && !UmountedOk(sub)
    case MountFailed => RegisteredOk(sub) && !UnregisteredOk(sub) && !MountedOk(sub) && !UmountedOk(sub)
    case UmUnregister => RegisteredOk(sub) && !UnregisteredOk(sub) && MountedOk(sub) && UmountedOk(sub)
    case DrStop => RegisteredOk(sub) && MountedOk(sub) && (UmountedOk(sub) <==> UnregisteredOk(sub))
    case DrFlush => RegisteredOk(sub) && MountedOk(sub) && (UmountedOk(sub) <==> UnregisteredOk(sub))
    case DrUnmount => RegisteredOk(sub) && MountedOk(sub) && (UmountedOk(sub) <==> UnregisteredOk(sub))
    case DrUnregister => RegisteredOk(sub) && MountedOk(sub) && UmountTried(sub)
    case Releasing => (RegisteredOk(sub) ==> UnregisteredOk(sub)) && (MountedOk(sub) ==> UmountTried(sub))
    case Freed => (RegisteredOk(sub) ==> UnregisteredOk(sub)) && (MountedOk(sub) ==> UmountTried(sub))
    case _ => RegisteredOk(sub) && !UnregisteredOk(sub) && MountedOk(sub) && !UmountedOk(sub)
  }

  predicate BeforeJournal(pc: Pc) {
    pc.Registering? || pc.Mounting? || pc.MountFailed? || pc.Recovering? || pc.JournalStarting?
  }

  /** What the order of the calls of one id keeps at all times. */
  predicate KeepsOrder(sub: seq<Event>) {
    Disciplined(sub) && StopsAreStarted(sub) && StartsAreRecovered(sub) && UnregistersAreUnmounted(sub)
  }

  /** Every mount call asks for the mode of the instance. */
  predicate MountsInMode(sub: seq<Event>, readOnly: bool) {
    forall k :: 0 <= k < |sub| && sub[k].call.Mount? ==> sub[k].call.readOnly == readOnly
  }

  /** Which journal calls the instance has made, given where it is. */
  predicate JournalCallsFit(inst: Instance, sub: seq<Event>) {
    && (inst.journalActive <==> JournalStarted(sub))
    && (inst.journalActive ==> !BeforeJournal(inst.pc))
    && (inst.pc.UmStop? || inst.pc.DrStop? ==> inst.journalActive)
    && (inst.pc.UmFlush? || inst.pc.DrFlush? ==> inst.journalActive ==> EndsWithStop(sub))
    && (inst.pc.UmUnmount? || inst.pc.DrUnmount? ==> Quiesced(sub))
    && (inst.pc.JournalStarting? || inst.pc.Live? ==> RecoveredAfterMount(sub))
    && (inst.pc.Recovering? ==> MountedOk(sub))
    && (inst.pc.UmUnregister? || inst.pc.DrUnregister? ==> EndsWithUmount(sub))
    && KeepsOrder(sub)
  }

  /** Which mount and journal calls the mode of the instance has led to, given where it is. */
  predicate ModeFits(inst: Instance, sub: seq<Event>) {
    && MountsInMode(sub, inst.readOnly)
    && (inst.pc.Registering? || inst.pc.Mounting? || inst.pc.MountFailed? ==> !MountedOk(sub))
    && (inst.pc.JournalStarting? || JournalTried(sub) ==> !inst.readOnly)
    && (MountedOk(sub) && !inst.readOnly && !BeforeJournal(inst.pc) ==> JournalTried(sub))
  }

  /** The tables hold the names of id `i` exactly as its successful calls left them. */
  predicate TablesFit(lib: Library, i: nat, sub: seq<Event>) {
    && (DeviceName(i) in lib.registry <==> RegisteredOk(sub) && !UnregisteredOk(sub))
    && (MountPoint(i) in lib.mounts <==> MountedOk(sub) && !UmountedOk(sub))
  }

  /** Instance `i` and the library agree. */
  predicate Fits(lib: Library, inst: Instance, i: nat) {
    var sub := CallsOf(lib.log, i);
    && inst.id == i
    && TablesFit(lib, i, sub)
    && TableCallsFit(inst.pc, sub)
    && JournalCallsFit(inst, sub)
    && ModeFits(inst, sub)
  }

  /** Every name in a table leads to the wrapper of the instance the name was made for. */
  predicate TablesOwned(lib: Library, n: nat) {
    && (forall d :: d in lib.registry ==> lib.registry[d] < n && d == DeviceName(lib.registry[d]))
    && (forall m :: m in lib.mounts ==> lib.mounts[m] < n && m == MountPoint(lib.mounts[m]))
  }

  predicate CallOwned(c: Call, n: nat) {
    exists j | 0 <= j < n :: c.OfId(j)
  }

  /** Every recorded call was made for one of the first `n` instances. */
  predicate LogOwned(log: seq<Event>, n: nat) {
    forall k :: 0 <= k < |log| ==> CallOwned(log[k].call, n)
  }

  predicate Inv(s: State) {
    && TablesOwned(s.lib, |s.instances|)
    && LogOwned(s.lib.log, |s.instances|)
    && forall i :: 0 <= i < |s.instances| ==> Fits(s.lib, s.instances[i], i)
  }

  // ------------------------------------------------------------------------------------------
  // One more call of one id

  lemma NothingYet()
    ensures !RegisteredOk([]) && !UnregisteredOk([]) && !MountedOk([]) && !UmountedOk([])
    ensures !JournalStarted([]) && !JournalTried([]) && !UmountTried([]) && KeepsOrder([])
  {
  }

  lemma TableCallAppends(sub: seq<Event>, e: Event)
    ensures RegisteredOk(sub + [e]) <==> RegisteredOk(sub) || (e.call.DeviceRegister? && e.ok)
    ensures UnregisteredOk(sub + [e]) <==> UnregisteredOk(sub) || (e.call.DeviceUnregister? && e.ok)
    ensures MountedOk(sub + [e]) <==> MountedOk(sub) || (e.call.Mount? && e.ok)
    ensures UmountedOk(sub + [e]) <==> UmountedOk(sub) || (e.call.Umount? && e.ok)
    ensures UmountTried(sub + [e]) <==> UmountTried(sub) || e.call.Umount?
  {
    var t := sub + [e];
    assert t[|sub|] == e && forall k :: 0 <= k < |sub| ==> sub[k] == t[k];
  }

  lemma JournalStartAppends(sub: seq<Event>, e: Event)
    ensures JournalStarted(sub + [e]) <==> JournalStarted(sub) || Started(e)
    ensures JournalTried(sub + [e]) <==> JournalTried(sub) || e.call.JournalStart?
  {
    var t := sub + [e];
    assert t[|sub|] == e && forall k :: 0 <= k < |sub| ==> sub[k] == t[k];
  }

  lemma RecoverAppends(sub: seq<Event>, e: Event)
    ensures RecoveredAfterMount(sub) ==> RecoveredAfterMount(sub + [e])
    ensures MountedOk(sub) && e.call.Recover? ==> RecoveredAfterMount(sub + [e])
  {
    var t := sub + [e];
    assert t[|sub|] == e && forall k :: 0 <= k < |sub| ==> sub[k] == t[k];
  }

  lemma FlushAppends(sub: seq<Event>, e: Event)
    requires e.call.CacheFlush? && (JournalStarted(sub) ==> EndsWithStop(sub))
    ensures Quiesced(sub + [e])
  {
    JournalStartAppends(sub, e);
    assert (sub + [e])[..|sub|] == sub;
  }

  lemma OrderAppends(sub: seq<Event>, e: Event)
    requires KeepsOrder(sub)
    requires e.call.Umount? ==> Quiesced(sub)
    requires e.call.JournalStop? ==> JournalStarted(sub)
    requires e.call.JournalStart? ==> RecoveredAfterMount(sub)
    requires e.call.DeviceUnregister? ==> !MountedOk(sub) || EndsWithUmount(sub)
    ensures KeepsOrder(sub + [e])
  {
    hide Quiesced, JournalStarted, RecoveredAfterMount, MountedOk, EndsWithUmount;
    var t := sub + [e];
    assert t[..|sub|] == sub;
    forall k | 0 <= k < |sub| ensures t[..k] == sub[..k] && t[k] == sub[k] {
    }
  }

  lemma ModeStep(inst: Instance, w: nat, sub: seq<Event>, ok: bool)
    requires ModeFits(inst, sub) && CallAt(inst, w).Some?
    ensures ModeFits(Resume(inst, ok), sub + [Event(CallAt(inst, w).value, ok)])
  {
    hide JournalTried, MountedOk, DeviceName, MountPoint;
    var e := Event(CallAt(inst, w).value, ok);
    JournalStartAppends(sub, e);
    TableCallAppends(sub, e);
  }

  /** A call of the instance keeps its journal calls in shape. */
  lemma JournalCallsStep(inst: Instance, w: nat, sub: seq<Event>, ok: bool)
    requires JournalCallsFit(inst, sub) && ModeFits(inst, sub) && CallAt(inst, w).Some?
    ensures JournalCallsFit(Resume(inst, ok), sub + [Event(CallAt(inst, w).value, ok)])
  {
    hide KeepsOrder, JournalStarted, JournalTried, RecoveredAfterMount, MountedOk, Quiesced, MountsInMode;
    hide DeviceName, MountPoint;
    var e := Event(CallAt(inst, w).value, ok);
    JournalStartAppends(sub, e);
    TableCallAppends(sub, e);
    RecoverAppends(sub, e);
    OrderAppends(sub, e);
    if inst.pc.UmFlush? || inst.pc.DrFlush? {
      FlushAppends(sub, e);
    }
  }

  /** A call of the instance keeps its table calls in shape and the tables in step with them. */
  lemma TableCallsStep(lib: Library, inst: Instance, i: nat, sub: seq<Event>, ok: bool)
    requires inst.id == i && TablesFit(lib, i, sub) && TableCallsFit(inst.pc, sub)
    requires CallAt(inst, i).Some? && Permits(lib, CallAt(inst, i).value, ok)
    ensures var c := CallAt(inst, i).value;
            && TablesFit(After(lib, c, ok), i, sub + [Event(c, ok)])
            && TableCallsFit(Resume(inst, ok).pc, sub + [Event(c, ok)])
  {
    hide RegisteredOk, UnregisteredOk, MountedOk, UmountedOk, UmountTried, DeviceName, MountPoint;
    NothingYet();
    TableCallAppends(sub, Event(CallAt(inst, i).value, ok));
  }

  lemma CallIsOfId(inst: Instance, w: nat)
    requires CallAt(inst, w).Some?
    ensures CallAt(inst, w).value.OfId(inst.id)
  {
  }

  lemma CallKeepsFits(lib: Library, inst: Instance, i: nat, ok: bool)
    requires Fits(lib, inst, i)
    requires CallAt(inst, i).Some? && Permits(lib, CallAt(inst, i).value, ok)
    ensures Fits(After(lib, CallAt(inst, i).value, ok), Resume(inst, ok), i)
  {
    hide TablesFit, TableCallsFit, JournalCallsFit, ModeFits, CallsOf;
    var c := CallAt(inst, i).value;
    var sub := CallsOf(lib.log, i);
    CallIsOfId(inst, i);
    CallsOfAppend(lib.log, Event(c, ok), i);
    TableCallsStep(lib, inst, i, sub, ok);
    JournalCallsStep(inst, i, sub, ok);
    ModeStep(inst, i, sub, ok);
  }

  // ------------------------------------------------------------------------------------------
  // A call of one id leaves the others alone

  lemma CallOfOtherId(lib: Library, c: Call, ok: bool, i: nat, j: nat)
    requires c.OfId(i) && i != j && Permits(lib, c, ok)
    ensures var lib' := After(lib, c, ok);
            && CallsOf(lib'.log, j) == CallsOf(lib.log, j)
            && (DeviceName(j) in lib'.registry <==> DeviceName(j) in lib.registry)
            && (MountPoint(j) in lib'.mounts <==> MountPoint(j) in lib.mounts)
            && (DeviceName(j) in lib.registry ==> lib'.registry[DeviceName(j)] == lib.registry[DeviceName(j)])
            && (MountPoint(j) in lib.mounts ==> lib'.mounts[MountPoint(j)] == lib.mounts[MountPoint(j)])
  {
    hide DeviceName, MountPoint, CallsOf;
    CallsOfAppend(lib.log, Event(c, ok), j);
    if c.OfId(j) {
      OfIdUnique(c, i, j);
    }
    DeviceNameInjective(i, j);
    MountPointInjective(i, j);
  }

  lemma OthersKeepFits(lib: Library, c: Call, ok: bool, i: nat, j: nat, inst: Instance)
    requires c.OfId(i) && i != j && Permits(lib, c, ok) && Fits(lib, inst, j)
    ensures Fits(After(lib, c, ok), inst, j)
  {
    hide TableCallsFit, JournalCallsFit, ModeFits, CallsOf, After, DeviceName, MountPoint;
    CallOfOtherId(lib, c, ok, i, j);
  }

  /** The tables stay owned: a device is registered with its own wrapper and mounted from it. */
  lemma CallKeepsOwned(lib: Library, c: Call, ok: bool, i: nat, n: nat)
    requires c.OfId(i) && i < n && Permits(lib, c, ok)
    requires c.DeviceRegister? ==> c.wrapper == i
    requires TablesOwned(lib, n) && LogOwned(lib.log, n)
    ensures TablesOwned(After(lib, c, ok), n) && LogOwned(After(lib, c, ok).log, n)
  {
    hide DeviceName, MountPoint;
    var lib' := After(lib, c, ok);
    if c.Mount? && ok {
      DeviceNameInjective(i, lib.registry[c.dev]);
    }
    assert CallOwned(c, n);
    assert lib'.log == lib.log + [Event(c, ok)];
  }

  // ------------------------------------------------------------------------------------------
  // Steps and runs

  lemma CallKeepsInv(s: State, i: nat, ok: bool, c: Call, inst': Instance)
    requires Inv(s) && i < |s.instances|
    requires c.OfId(i) && Permits(s.lib, c, ok) && (c.DeviceRegister? ==> c.wrapper == i)
    requires Fits(After(s.lib, c, ok), inst', i)
    ensures Inv(State(s.instances[i := inst'], After(s.lib, c, ok)))
  {
    hide Fits, TablesOwned, LogOwned, After;
    CallKeepsOwned(s.lib, c, ok, i, |s.instances|);
    forall j | 0 <= j < |s.instances| && j != i ensures Fits(After(s.lib, c, ok), s.instances[j], j) {
      OthersKeepFits(s.lib, c, ok, i, j, s.instances[j]);
    }
  }

  lemma ReturnKeepsInv(s: State, i: nat, ok: bool)
    requires Inv(s) && Enabled(s, Return(i, ok))
    ensures Inv(Do(s, Return(i, ok)))
  {
    var inst := s.instances[i];
    assert Fits(s.lib, inst, i);
    CallIsOfId(inst, i);
    CallKeepsFits(s.lib, inst, i, ok);
    CallKeepsInv(s, i, ok, CallAt(inst, i).value, Resume(inst, ok));
  }

  lemma SyncKeepsInv(s: State, i: nat, ok: bool)
    requires Inv(s) && Enabled(s, Sync(i, ok))
    ensures Inv(Do(s, Sync(i, ok)))
  {
    hide TablesOwned, LogOwned, KeepsOrder, JournalStarted, JournalTried, RecoveredAfterMount, CallsOf;
    hide Quiesced, EndsWithStop;
    var inst := s.instances[i];
    assert Fits(s.lib, inst, i);
    var c := CacheFlush(inst.Mp());
    var sub := CallsOf(s.lib.log, i);
    CallsOfAppend(s.lib.log, Event(c, ok), i);
    TableCallAppends(sub, Event(c, ok));
    JournalStartAppends(sub, Event(c, ok));
    RecoverAppends(sub, Event(c, ok));
    OrderAppends(sub, Event(c, ok));
    assert Fits(After(s.lib, c, ok), inst, i);
    CallKeepsInv(s, i, ok, c, inst);
    assert s.instances[i := inst] == s.instances;
  }

  /** The next id is used by no recorded call and no table entry. */
  lemma NextIdIsFresh(lib: Library, n: nat)
    requires TablesOwned(lib, n) && LogOwned(lib.log, n)
    ensures CallsOf(lib.log, n) == [] && DeviceName(n) !in lib.registry && MountPoint(n) !in lib.mounts
    ensures TablesOwned(lib, n + 1) && LogOwned(lib.log, n + 1)
  {
    hide DeviceName, MountPoint;
    forall k | 0 <= k < |lib.log| ensures !lib.log[k].call.OfId(n) && CallOwned(lib.log[k].call, n + 1) {
      assert CallOwned(lib.log[k].call, n);
      var j: nat :| j < n && lib.log[k].call.OfId(j);
      if lib.log[k].call.OfId(n) {
        OfIdUnique(lib.log[k].call, j, n);
      }
    }
    CallsOfFresh(lib.log, n);
    if DeviceName(n) in lib.registry {
      DeviceNameInjective(n, lib.registry[DeviceName(n)]);
    }
    if MountPoint(n) in lib.mounts {
      MountPointInjective(n, lib.mounts[MountPoint(n)]);
    }
  }

  lemma NewInstanceFits(lib: Library, n: nat, readOnly: bool)
    requires n < TWO_64
    requires CallsOf(lib.log, n) == [] && DeviceName(n) !in lib.registry && MountPoint(n) !in lib.mounts
    ensures Fits(lib, Instance(n, readOnly, false, Registering), n)
  {
    hide DeviceName, MountPoint, CallsOf;
    NothingYet();
  }

  lemma BeginKeepsInv(s: State, readOnly: bool)
    requires Inv(s) && |s.instances| < TWO_64
    ensures Inv(Do(s, Begin(readOnly)))
  {
    hide Fits, TablesOwned, LogOwned, DeviceName, MountPoint;
    NextIdIsFresh(s.lib, |s.instances|);
    NewInstanceFits(s.lib, |s.instances|, readOnly);
  }

  /** A move between calls: the library is untouched. */
  lemma MoveKeepsInv(s: State, a: Action)
    requires Inv(s) && Enabled(s, a) && (a.StartUmount? || a.StartDrop? || a.Release?)
    ensures Inv(Do(s, a))
  {
    hide TablesOwned, LogOwned, TablesFit, DeviceName, MountPoint, CallsOf;
    hide KeepsOrder, JournalStarted, JournalTried, RecoveredAfterMount, Quiesced, EndsWithStop, EndsWithUmount;
    hide RegisteredOk, UnregisteredOk, MountedOk, UmountedOk, UmountTried;
    assert Fits(s.lib, s.instances[a.i], a.i);
    assert Fits(s.lib, Do(s, a).instances[a.i], a.i);
  }

  lemma StepKeepsInv(s: State, a: Action)
    requires Inv(s) && Enabled(s, a) && (a.Begin? ==> |s.instances| < TWO_64)
    ensures Inv(Do(s, a))
  {
    hide Inv, Enabled, Do;
    match a {
      case Begin(readOnly) => BeginKeepsInv(s, readOnly);
      case Return(i, ok) => ReturnKeepsInv(s, i, ok);
      case Sync(i, ok) => SyncKeepsInv(s, i, ok);
      case StartUmount(_) => MoveKeepsInv(s, a);
      case StartDrop(_) => MoveKeepsInv(s, a);
      case Release(_) => MoveKeepsInv(s, a);
    }
  }

  /** The invariant holds in every state any interleaving of at most 2^64 mounts can reach. */
  lemma {:induction false} ReachableInv(acts: seq<Action>, s: State)
    requires Exec(acts) == Some(s) && |s.instances| <= TWO_64
    ensures Inv(s)
  {
    if acts == [] {
    } else {
      var last := |acts| - 1;
      var t := Exec(acts[..last]).value;
      assert |t.instances| <= |s.instances|;
      ReachableInv(acts[..last], t);
      StepKeepsInv(t, acts[last]);
    }
  }
}
