/** `mount`, `umount` and `drop` as straight-line code, and their place in the lifecycle machine. */
module Ext4Filesystem {
  import opened MachineInts
  import opened Namespace
  import opened Lifecycle

  /** One instance makes its next calls with the outcomes `oks`, nobody else intervening. */
  function Solo(lib: Library, inst: Instance, w: nat, oks: seq<bool>): Option<(Library, Instance)> {
    if oks == [] then Some((lib, inst))
    else
      var ok := oks[|oks| - 1];
      match Solo(lib, inst, w, oks[..|oks| - 1])
      case None => None
      case Some((l, n)) =>
        var c := CallAt(n, w);
        if c.Some? && Permits(l, c.value, ok) then Some((After(l, c.value, ok), Resume(n, ok))) else None
  }

  lemma SoloMore(lib: Library, inst: Instance, w: nat, oks: seq<bool>, ok: bool)
    ensures Solo(lib, inst, w, oks + [ok])
            == match Solo(lib, inst, w, oks)
               case None => None
               case Some((l, n)) =>
                 var c := CallAt(n, w);
                 if c.Some? && Permits(l, c.value, ok) then Some((After(l, c.value, ok), Resume(n, ok))) else None
  {
    assert (oks + [ok])[..|oks|] == oks;
  }

  lemma SoloNothing(lib: Library, inst: Instance, w: nat)
    ensures Solo(lib, inst, w, []) == Some((lib, inst))
  {
  }

  /** Solo runs compose. */
  lemma {:induction false} SoloAppend(
    lib: Library, inst: Instance, w: nat, a: seq<bool>, l: Library, n: Instance, b: seq<bool>)
    requires Solo(lib, inst, w, a) == Some((l, n))
    ensures Solo(lib, inst, w, a + b) == Solo(l, n, w, b)
  {
    if b == [] {
      assert a + b == a;
    } else {
      var last := |b| - 1;
      SoloAppend(lib, inst, w, a, l, n, b[..last]);
      assert a + b == (a + b[..last]) + [b[last]];
      SoloMore(lib, inst, w, a + b[..last], b[last]);
      assert b == b[..last] + [b[last]];
      SoloMore(l, n, w, b[..last], b[last]);
    }
  }

  /** The machine's actions for calls of instance `i` with the outcomes `oks`. */
  function Returns(i: nat, oks: seq<bool>): (acts: seq<Action>)
    ensures |acts| == |oks|
  {
    seq(|oks|, k requires 0 <= k < |oks| => Return(i, oks[k]))
  }

  /** Whatever an instance does alone is a run of the machine, from any state a run can reach. */
  lemma {:induction false} SoloIsRun(acts: seq<Action>, s: State, i: nat, oks: seq<bool>, l: Library, n: Instance)
    requires Exec(acts) == Some(s) && i < |s.instances|
    requires Solo(s.lib, s.instances[i], i, oks) == Some((l, n))
    ensures Exec(acts + Returns(i, oks)) == Some(State(s.instances[i := n], l))
  {
    hide DeviceName, MountPoint, Permits, After, Resume, CallAt;
    var more := Returns(i, oks);
    if oks == [] {
      assert acts + more == acts;
      assert s.instances[i := n] == s.instances;
    } else {
      var last := |oks| - 1;
      var (l0, n0) := Solo(s.lib, s.instances[i], i, oks[..last]).value;
      SoloIsRun(acts, s, i, oks[..last], l0, n0);
      assert more[..last] == Returns(i, oks[..last]);
      assert (acts + more)[..|acts| + last] == acts + more[..last];
      assert s.instances[i := n0][i := n] == s.instances[i := n];
    }
  }

  /**
   * The proof's record of a solo run: from library `lib0` and instance `start`, the calls `calls`
   * with the outcomes `oks` have brought the instance to `now`.
   */
  datatype Track = Track(
    lib0: Library, start: Instance, wrapper: nat, calls: seq<Call>, oks: seq<bool>, now: Instance)
  {
    /** The run is one of the machine's, and with just these calls it has left the library as `lib`. */
    ghost predicate At(lib: Library) {
      && Solo(lib0, start, wrapper, oks) == Some((lib, now))
      && Calls(lib.log) == Calls(lib0.log) + calls
    }

    function Then(call: Call, ok: bool): Track {
      this.(calls := calls + [call], oks := oks + [ok], now := Resume(now, ok))
    }
  }

  lemma TrackNothing(lib: Library, start: Instance, w: nat)
    ensures Track(lib, start, w, [], [], start).At(lib)
  {
  }

  lemma TrackMore(t: Track, lib: Library, call: Call, ok: bool)
    requires t.At(lib) && CallAt(t.now, t.wrapper) == Some(call) && Permits(lib, call, ok)
    ensures t.Then(call, ok).At(After(lib, call, ok))
  {
    hide Solo, Resume, CallAt, Permits;
    SoloMore(t.lib0, t.start, t.wrapper, t.oks, ok);
  }

  /** A run followed by another. */
  lemma TrackAppend(t: Track, mid: Library, d: Track, lib: Library)
    requires t.At(mid) && d.At(lib) && d.lib0 == mid && d.start == t.now && d.wrapper == t.wrapper
    ensures t.(calls := t.calls + d.calls, oks := t.oks + d.oks, now := d.now).At(lib)
  {
    hide Solo;
    SoloAppend(t.lib0, t.start, t.wrapper, t.oks, mid, t.now, d.oks);
  }

  /** What the machine's instance calls at each point of `drop`, and where it goes from there. */
  lemma DropPoints(inst: Instance, w: nat)
    ensures CallAt(inst.(pc := DrStop), w) == Some(JournalStop(inst.Mp()))
    ensures CallAt(inst.(pc := DrFlush), w) == Some(CacheFlush(inst.Mp()))
    ensures CallAt(inst.(pc := DrUnmount), w) == Some(Umount(inst.Mp()))
    ensures CallAt(inst.(pc := DrUnregister), w) == Some(DeviceUnregister(inst.Dev()))
    ensures forall ok ::
              && Resume(inst.(pc := DrStop), ok) == inst.(pc := DrFlush)
              && Resume(inst.(pc := DrFlush), ok) == inst.(pc := DrUnmount)
              && Resume(inst.(pc := DrUnmount), ok) == inst.(pc := DrUnregister)
              && Resume(inst.(pc := DrUnregister), ok) == inst.(pc := Releasing)
  {
  }

  lemma UmountPoints(inst: Instance, w: nat)
    ensures CallAt(inst.(pc := UmStop), w) == Some(JournalStop(inst.Mp()))
    ensures CallAt(inst.(pc := UmFlush), w) == Some(CacheFlush(inst.Mp()))
    ensures CallAt(inst.(pc := UmUnmount), w) == Some(Umount(inst.Mp()))
    ensures CallAt(inst.(pc := UmUnregister), w) == Some(DeviceUnregister(inst.Dev()))
    ensures forall ok ::
              && Resume(inst.(pc := UmStop), ok) == inst.(pc := UmFlush)
              && Resume(inst.(pc := UmFlush), ok) == inst.(pc := UmUnmount)
              && Resume(inst.(pc := UmUnmount), ok) == (if ok then inst.(pc := UmUnregister) else EnterDrop(inst))
              && Resume(inst.(pc := UmUnregister), ok) == EnterDrop(inst)
  {
  }

  lemma MountPoints(inst: Instance, w: nat)
    ensures CallAt(inst.(pc := Registering), w) == Some(DeviceRegister(inst.Dev(), w))
    ensures CallAt(inst.(pc := Mounting), w) == Some(Lifecycle.Mount(inst.Dev(), inst.Mp(), inst.readOnly))
    ensures CallAt(inst.(pc := MountFailed), w) == Some(DeviceUnregister(inst.Dev()))
    ensures CallAt(inst.(pc := Recovering), w) == Some(Recover(inst.Mp()))
    ensures CallAt(inst.(pc := JournalStarting), w) == Some(JournalStart(inst.Mp()))
    ensures forall ok ::
              && Resume(inst.(pc := Registering), ok) == inst.(pc := if ok then Mounting else Releasing)
              && Resume(inst.(pc := Mounting), ok) == inst.(pc := if ok then Recovering else MountFailed)
              && Resume(inst.(pc := MountFailed), ok) == inst.(pc := Releasing)
              && Resume(inst.(pc := Recovering), ok) == inst.(pc := if inst.readOnly then Live else JournalStarting)
              && Resume(inst.(pc := JournalStarting), ok) == inst.(pc := Live, journalActive := ok)
  {
  }

  /**
   * The calls of a whole `mount` and what their outcomes mean for it: it fails exactly when the
   * registration or the mount does, and its journal is active exactly when the start succeeded.
   */
  predicate MountMade(t: Track, dev: string, mp: string, readOnly: bool, journal: Option<bool>) {
    var up := MountCalls(dev, mp, t.wrapper, readOnly);
    match journal
    case None =>
      || (t.calls == up[..1] && t.oks == [false])
      || (t.calls == up[..2] + [DeviceUnregister(dev)] && |t.oks| == 3 && t.oks[..2] == [true, false])
    case Some(active) =>
      && t.calls == up && |t.oks| == |up| && t.oks[..2] == [true, true]
      && (active <==> !readOnly && t.oks[3])
  }

  lemma MountFails(t: Track, dev: string, mp: string, readOnly: bool, ok: bool)
    requires t.calls == [] && t.oks == []
    ensures MountMade(t.Then(DeviceRegister(dev, t.wrapper), false), dev, mp, readOnly, None)
    ensures MountMade(t.Then(DeviceRegister(dev, t.wrapper), true)
                       .Then(Lifecycle.Mount(dev, mp, readOnly), false)
                       .Then(DeviceUnregister(dev), ok), dev, mp, readOnly, None)
  {
    hide Resume;
  }

  lemma MountSucceeds(t: Track, dev: string, mp: string, readOnly: bool, recovered: bool, active: bool)
    requires t.calls == [] && t.oks == []
    ensures var u := t.Then(DeviceRegister(dev, t.wrapper), true)
                      .Then(Lifecycle.Mount(dev, mp, readOnly), true)
                      .Then(Recover(mp), recovered);
            if readOnly then MountMade(u, dev, mp, readOnly, Some(false))
            else MountMade(u.Then(JournalStart(mp), active), dev, mp, readOnly, Some(active))
  {
    hide Resume;
  }

  /** The script of a teardown, call by call. */
  lemma TeardownPrefixes(dev: string, mp: string, journal: bool)
    ensures var down, k := TeardownCalls(dev, mp, journal), if journal then 1 else 0;
            && |down| == k + 3
            && down[..k] == (if journal then [] + [JournalStop(mp)] else [])
            && down[..k + 1] == down[..k] + [CacheFlush(mp)]
            && down[..k + 2] == down[..k + 1] + [Umount(mp)]
            && down == down[..k + 2] + [DeviceUnregister(dev)]
  {
  }

  /** The C library and the id counter, shared by all instances. */
  class Lwext4 {
    var lib: Library
    var counter: u64

    constructor ()
      ensures lib == INITIAL.lib && counter == 0
    {
      lib, counter := INITIAL.lib, 0;
    }

    /**
     * A C call of the tracked instance; its outcome is open as far as the contract permits. The
     * call has to be the one the machine's instance makes next.
     */
    method Invoke(call: Call, ghost t: Track) returns (ok: bool, ghost t': Track)
      requires t.At(lib) && CallAt(t.now, t.wrapper) == Some(call)
      modifies this`lib
      ensures t'.At(lib) && t' == t.Then(call, ok)
      ensures lib.registry == if ok && call.DeviceRegister? then old(lib.registry)[call.dev := call.wrapper]
                              else if ok && call.DeviceUnregister? then old(lib.registry) - {call.dev}
                              else old(lib.registry)
      ensures call.DeviceUnregister? ==> (ok <==> call.dev in old(lib.registry))
      ensures call.Mount? && ok ==>
                && call.dev in old(lib.registry)
                && lib.mounts == old(lib.mounts)[call.mp := old(lib.registry)[call.dev]]
      ensures call.Umount? && ok ==> call.mp in old(lib.mounts) && lib.mounts == old(lib.mounts) - {call.mp}
      ensures !ok || (!call.Mount? && !call.Umount?) ==> lib.mounts == old(lib.mounts)
    {
      hide Solo, Resume, DeviceName, MountPoint;
      assert Permits(lib, call, false) || Permits(lib, call, true);
      ok :| Permits(lib, call, ok);
      TrackMore(t, lib, call, ok);
      t' := t.Then(call, ok);
      lib := After(lib, call, ok);
    }

    /** `DEVICE_COUNTER.fetch_add(1)`. */
    method FetchAdd() returns (id: u64)
      modifies this`counter
      ensures id == old(counter) && counter == (old(counter) + 1) % TWO_64
    {
      id := counter;
      counter := (counter + 1) % TWO_64;
    }
  }

  class Ext4Fs {
    const wrapper: nat
    const deviceName: string
    const mountPoint: string
    const readOnly: bool
    const journalActive: bool

    constructor (wrapper: nat, deviceName: string, mountPoint: string, readOnly: bool, journalActive: bool)
      ensures this.wrapper == wrapper && this.deviceName == deviceName && this.mountPoint == mountPoint
      ensures this.readOnly == readOnly && this.journalActive == journalActive
    {
      this.wrapper, this.deviceName, this.mountPoint := wrapper, deviceName, mountPoint;
      this.readOnly, this.journalActive := readOnly, journalActive;
    }

    /** The filesystem object belongs to the machine's instance `inst`. */
    predicate Represents(inst: Instance) {
      && deviceName == inst.Dev() && mountPoint == inst.Mp()
      && readOnly == inst.readOnly && journalActive == inst.journalActive
    }

    /** The place of the unmount among the calls of a teardown. */
    function UmountIndex(): nat {
      if journalActive then 2 else 1
    }

    /**
     * `mount`. The calls made, their order and the branches taken are those of the machine's
     * instance from Registering on; it ends live, or failed with the wrapper about to go. With
     * a device name that is not registered, a failure leaves both tables as they were. It makes
     * all of `MountCalls` unless the registration or the mount fails, and no other failure counts.
     */
    static method Mount(c: Lwext4, wrapper: nat, readOnly: bool) returns (r: Option<Ext4Fs>, ghost t: Track)
      modifies c
      ensures c.counter == (old(c.counter) + 1) % TWO_64
      ensures t.At(c.lib) && t.lib0 == old(c.lib) && t.wrapper == wrapper
      ensures t.start == Instance(old(c.counter), readOnly, false, Registering)
      ensures r.Some? ==> t.now.pc.Live? && r.value.Represents(t.now) && r.value.wrapper == wrapper
      ensures r.None? ==> t.now.pc.Releasing?
      ensures MountMade(t, DeviceName(old(c.counter)), MountPoint(old(c.counter)), readOnly,
                        if r.Some? then Some(r.value.journalActive) else None)
      ensures r.None? && DeviceName(old(c.counter)) !in old(c.lib.registry) ==>
                c.lib.registry == old(c.lib.registry)
      ensures r.None? ==> c.lib.mounts == old(c.lib.mounts)
      ensures r.Some? ==> c.lib.registry == old(c.lib.registry)[r.value.deviceName := wrapper]
      ensures r.Some? ==> c.lib.mounts == old(c.lib.mounts)[r.value.mountPoint := wrapper]
    {
      hide Track.At, DeviceName, MountPoint;
      var id := c.FetchAdd();
      var deviceName, mountPoint := DeviceName(id), MountPoint(id);
      var ok;
      ghost var start := Instance(id, readOnly, false, Registering);
      t := Track(c.lib, start, wrapper, [], [], start);
      TrackNothing(c.lib, start, wrapper);
      MountPoints(start, wrapper);
      ghost var t0 := t;
      hide CallAt, Resume, MountMade;

      ok, t := c.Invoke(DeviceRegister(deviceName, wrapper), t);
      if !ok {
        MountFails(t0, deviceName, mountPoint, readOnly, ok);
        return None, t;
      }
      ok, t := c.Invoke(Lifecycle.Mount(deviceName, mountPoint, readOnly), t);
      if !ok {
        ok, t := c.Invoke(DeviceUnregister(deviceName), t);
        MountFails(t0, deviceName, mountPoint, readOnly, ok);
        return None, t;
      }
      ok, t := c.Invoke(Recover(mountPoint), t);
      var journalActive := false;
      if !readOnly {
        journalActive, t := c.Invoke(JournalStart(mountPoint), t);
      }
      MountSucceeds(t0, deviceName, mountPoint, readOnly, ok, journalActive);
      var fs := new Ext4Fs(wrapper, deviceName, mountPoint, readOnly, journalActive);
      r := Some(fs);
    }

    /**
     * `drop`: the machine's instance from the first `Dr` point to Releasing. It makes all of
     * `TeardownCalls` whatever fails, so the mount point goes if the unmount succeeds.
     */
    method Drop(c: Lwext4, ghost inst: Instance) returns (ghost t: Track)
      requires Represents(inst)
      modifies c`lib
      ensures t.At(c.lib) && t.lib0 == old(c.lib) && t.wrapper == wrapper && t.start == EnterDrop(inst)
      ensures t.now.pc.Releasing?
      ensures c.lib.registry == old(c.lib.registry) - {deviceName}
      ensures t.calls == TeardownCalls(deviceName, mountPoint, journalActive)
      ensures var k := UmountIndex();
              && |t.oks| == k + 2 && (t.oks[k] ==> mountPoint in old(c.lib.mounts))
              && c.lib.mounts == if t.oks[k] then old(c.lib.mounts) - {mountPoint} else old(c.lib.mounts)
    {
      hide Track.At, DeviceName, MountPoint;
      DropPoints(inst, wrapper);
      TeardownPrefixes(deviceName, mountPoint, journalActive);
      hide CallAt, Resume, TeardownCalls;
      var ok;
      t := Track(c.lib, EnterDrop(inst), wrapper, [], [], EnterDrop(inst));
      TrackNothing(c.lib, t.start, wrapper);
      if journalActive {
        ok, t := c.Invoke(JournalStop(mountPoint), t);
      }
      ok, t := c.Invoke(CacheFlush(mountPoint), t);
      ok, t := c.Invoke(Umount(mountPoint), t);
      ok, t := c.Invoke(DeviceUnregister(deviceName), t);
    }

    /**
     * `umount(self)`: the machine's instance from the first `Um` point on. On every way out
     * `self` goes out of scope, so `drop` runs before the method is left. `umount` makes all of
     * `TeardownCalls`, or all but the last if its unmount fails, and answers whether its unmount
     * succeeded and the device was there to unregister. No other name changes in either table;
     * success means both names were there and are gone.
     */
    method UmountSelf(c: Lwext4, ghost inst: Instance) returns (ok: bool, ghost t: Track)
      requires Represents(inst)
      modifies c`lib
      ensures t.At(c.lib) && t.lib0 == old(c.lib) && t.wrapper == wrapper && t.start == EnterUmount(inst)
      ensures t.now.pc.Releasing?
      ensures c.lib.registry == old(c.lib.registry) - {deviceName}
      ensures |t.oks| > UmountIndex() && (ok <==> t.oks[UmountIndex()] && deviceName in old(c.lib.registry))
      ensures var down := TeardownCalls(deviceName, mountPoint, journalActive);
              t.calls == (if t.oks[UmountIndex()] then down else down[..UmountIndex() + 1]) + down
      ensures t.oks[UmountIndex()] ==> mountPoint in old(c.lib.mounts)
      ensures c.lib.mounts == old(c.lib.mounts) || c.lib.mounts == old(c.lib.mounts) - {mountPoint}
      ensures ok ==> c.lib.mounts == old(c.lib.mounts) - {mountPoint}
    {
      hide Track.At, DeviceName, MountPoint;
      UmountPoints(inst, wrapper);
      TeardownPrefixes(deviceName, mountPoint, journalActive);
      hide CallAt, Resume, TeardownCalls;
      t := Track(c.lib, EnterUmount(inst), wrapper, [], [], EnterUmount(inst));
      TrackNothing(c.lib, t.start, wrapper);
      if journalActive {
        ok, t := c.Invoke(JournalStop(mountPoint), t);
      }
      ok, t := c.Invoke(CacheFlush(mountPoint), t);
      ok, t := c.Invoke(Umount(mountPoint), t);
      if ok {
        ok, t := c.Invoke(DeviceUnregister(deviceName), t);
      }
      ghost var d := Drop(c, inst);
      TrackAppend(t, d.lib0, d, c.lib);
      t := t.(calls := t.calls + d.calls, oks := t.oks + d.oks, now := d.now);
    }
  }

  /**
   * A tracked `mount`, begun when the machine is in `s`, takes the machine to the state where
   * the new instance is where `mount` left it. So what holds of all reachable states holds there.
   */
  lemma MountIsRun(acts: seq<Action>, s: State, t: Track, lib: Library) returns (acts': seq<Action>)
    requires Exec(acts) == Some(s) && t.lib0 == s.lib && t.wrapper == |s.instances| && t.At(lib)
    requires t.start == Instance(|s.instances| % TWO_64, t.start.readOnly, false, Registering)
    ensures Exec(acts') == Some(State(s.instances + [t.now], lib))
  {
    hide Exec, Solo;
    var b := Begin(t.start.readOnly);
    var s1 := Do(s, b);
    RunMore(acts, s, b);
    SoloIsRun(acts + [b], s1, t.wrapper, t.oks, lib, t.now);
    assert s1.instances[t.wrapper := t.now] == s.instances + [t.now];
    acts' := acts + [b] + Returns(t.wrapper, t.oks);
  }

  /** A tracked `umount` or `drop` of the live instance `i`, likewise. */
  lemma TeardownIsRun(acts: seq<Action>, s: State, i: nat, t: Track, lib: Library) returns (acts': seq<Action>)
    requires Exec(acts) == Some(s) && i < |s.instances| && s.instances[i].pc.Live?
    requires t.lib0 == s.lib && t.wrapper == i && t.At(lib)
    requires t.start == EnterUmount(s.instances[i]) || t.start == EnterDrop(s.instances[i])
    ensures Exec(acts') == Some(State(s.instances[i := t.now], lib))
  {
    hide Exec, Solo;
    var a := if t.start == EnterUmount(s.instances[i]) then StartUmount(i) else StartDrop(i);
    var s1 := Do(s, a);
    RunMore(acts, s, a);
    SoloIsRun(acts + [a], s1, i, t.oks, lib, t.now);
    assert s1.instances[i := t.now] == s.instances[i := t.now];
    acts' := acts + [a] + Returns(i, t.oks);
  }
}
