/** Safety of mounting and unmounting over every run, and where it ends. */
module LifecycleTheorems {
  import opened MachineInts
  import opened Namespace
  import opened Lifecycle
  import opened LifecycleSafety

  /** A run of at most 2^64 mounts leads from the initial state to `s`. */
  predicate Reachable(acts: seq<Action>, s: State) {
    Exec(acts) == Some(s) && |s.instances| <= TWO_64
  }

  lemma InstanceFits(acts: seq<Action>, s: State, i: nat)
    requires Reachable(acts, s) && i < |s.instances|
    ensures Fits(s.lib, s.instances[i], i) && TablesOwned(s.lib, |s.instances|)
  {
    ReachableInv(acts, s);
  }

  /** The points at which the instance has been registered and has not begun to drop. */
  predicate Holding(pc: Pc) {
    && !pc.Registering? && !pc.Releasing? && !pc.Freed?
    && !pc.DrStop? && !pc.DrFlush? && !pc.DrUnmount? && !pc.DrUnregister?
  }

  // ------------------------------------------------------------------------------------------
  // The device registry

  /** No registered device leads to a freed wrapper: every entry belongs to an unfinished instance. */
  lemma RegistryNeverDangles(acts: seq<Action>, s: State, d: string)
    requires Reachable(acts, s) && d in s.lib.registry
    ensures var w := s.lib.registry[d];
            && w < |s.instances| && d == s.instances[w].Dev()
            && !s.instances[w].pc.Registering? && !s.instances[w].pc.Releasing? && !s.instances[w].pc.Freed?
  {
    ReachableInv(acts, s);
    var w := s.lib.registry[d];
    assert Fits(s.lib, s.instances[w], w);
    NothingYet();
  }

  /** Until it begins to drop, a registered instance stays registered with its own wrapper. */
  lemma HoldersStayRegistered(acts: seq<Action>, s: State, i: nat)
    requires Reachable(acts, s) && i < |s.instances| && Holding(s.instances[i].pc)
    ensures var d := s.instances[i].Dev(); d in s.lib.registry && s.lib.registry[d] == i
  {
    InstanceFits(acts, s, i);
    DeviceNameInjective(i, s.lib.registry[DeviceName(i)]);
  }

  /** Inside `umount`, once the unmount has succeeded, unregistering cannot fail. */
  lemma UmountUnregisterSucceeds(acts: seq<Action>, s: State, i: nat, ok: bool)
    requires Reachable(acts, s) && i < |s.instances| && s.instances[i].pc.UmUnregister?
    ensures Enabled(s, Return(i, ok)) <==> ok
  {
    HoldersStayRegistered(acts, s, i);
  }

  // ------------------------------------------------------------------------------------------
  // Isolation

  /** The entries of id `j` and the instance `j` itself are the same in both states. */
  predicate SameFor(s: State, s': State, j: nat)
    requires j < |s.instances| <= |s'.instances|
  {
    var d, m := DeviceName(j), MountPoint(j);
    && s'.instances[j] == s.instances[j]
    && (d in s'.lib.registry <==> d in s.lib.registry)
    && (m in s'.lib.mounts <==> m in s.lib.mounts)
    && (d in s.lib.registry ==> s'.lib.registry[d] == s.lib.registry[d])
    && (m in s.lib.mounts ==> s'.lib.mounts[m] == s.lib.mounts[m])
  }

  /** No step of one instance, teardown included, touches another instance or its table entries. */
  lemma StepsTouchOnlyTheirOwn(acts: seq<Action>, s: State, a: Action, j: nat)
    requires Reachable(acts, s) && Enabled(s, a) && j < |s.instances|
    requires a.Begin? || a.i != j
    ensures SameFor(s, Do(s, a), j)
  {
    if a.Return? || a.Sync? {
      InstanceFits(acts, s, a.i);
      var inst := s.instances[a.i];
      var c := if a.Return? then CallAt(inst, a.i).value else CacheFlush(inst.Mp());
      if a.Return? {
        CallIsOfId(inst, a.i);
      }
      CallOfOtherId(s.lib, c, a.ok, a.i, j);
    }
  }

  /**
   * `umount` consumes the instance, so `drop` runs the whole teardown again. Once `umount` has
   * unregistered the device, no call of that second teardown changes either table, and its
   * unmount and unregister calls can only fail.
   */
  lemma SecondTeardownChangesNothing(acts: seq<Action>, s: State, i: nat, ok: bool)
    requires Reachable(acts, s) && Enabled(s, Return(i, ok))
    requires s.instances[i].InDrop() && UnregisteredOk(CallsOf(s.lib.log, i))
    ensures var s' := Do(s, Return(i, ok));
            && s'.lib.registry == s.lib.registry && s'.lib.mounts == s.lib.mounts
            && (s.instances[i].pc.DrUnmount? || s.instances[i].pc.DrUnregister? ==> !ok)
  {
    hide Exec, TablesOwned, JournalCallsFit, DeviceName, MountPoint;
    InstanceFits(acts, s, i);
  }

  // ------------------------------------------------------------------------------------------
  // The journal

  lemma StartedMonotone(sub: seq<Event>, k: nat)
    requires k <= |sub|
    ensures JournalStarted(sub[..k]) ==> JournalStarted(sub)
  {
    assert forall a :: 0 <= a < k ==> sub[..k][a] == sub[a];
  }

  /**
   * Every unmount attempt, by `umount` or by `drop`, comes right after a cache flush and that,
   * if the journal was started, right after a stop of the journal. The journal is started only
   * after a recovery of the mounted filesystem, and stopped only after it was started; a
   * read-only instance does neither.
   */
  lemma JournalQuiescedBeforeUnmount(acts: seq<Action>, s: State, i: nat)
    requires Reachable(acts, s) && i < |s.instances|
    ensures var sub := CallsOf(s.lib.log, i);
            Disciplined(sub) && StopsAreStarted(sub) && StartsAreRecovered(sub)
    ensures s.instances[i].readOnly ==>
              forall e <- CallsOf(s.lib.log, i) :: !e.call.JournalStop? && !e.call.JournalStart?
  {
    InstanceFits(acts, s, i);
    var sub := CallsOf(s.lib.log, i);
    forall k | 0 <= k < |sub| ensures JournalStarted(sub[..k]) ==> JournalStarted(sub) {
      StartedMonotone(sub, k);
    }
  }

  /**
   * Every mount call asks for the mode of its instance. A read-write instance that got mounted has
   * attempted to start its journal by the time `mount` returns, and its journal is active exactly
   * if that succeeded; a read-only instance never attempts it.
   */
  lemma ModeIsFollowed(acts: seq<Action>, s: State, i: nat)
    requires Reachable(acts, s) && i < |s.instances|
    ensures var inst, sub := s.instances[i], CallsOf(s.lib.log, i);
            && (forall e <- sub :: e.call.Mount? ==> e.call.readOnly == inst.readOnly)
            && (MountedOk(sub) && !BeforeJournal(inst.pc) ==>
                  (inst.readOnly <==> forall e <- sub :: !e.call.JournalStart?))
            && (inst.journalActive <==> exists e <- sub :: e.call.JournalStart? && e.ok)
  {
    hide Exec, TablesOwned, TablesFit, TableCallsFit, KeepsOrder, DeviceName, MountPoint, CallsOf;
    InstanceFits(acts, s, i);
  }

  // ------------------------------------------------------------------------------------------
  // What is left at the end

  /**
   * No mounted device is unregistered without an unmount attempt: `umount` and `drop` make one
   * right before they unregister it.
   */
  lemma UnmountTriedBeforeUnregister(acts: seq<Action>, s: State, i: nat, k: nat)
    requires Reachable(acts, s) && i < |s.instances|
    ensures var sub := CallsOf(s.lib.log, i);
            k < |sub| && sub[k].call.DeviceUnregister? && MountedOk(sub[..k]) ==>
              k > 0 && sub[k - 1].call.Umount?
  {
    hide Exec, TablesOwned, TablesFit, TableCallsFit, ModeFits, MountedOk, DeviceName, MountPoint, CallsOf;
    hide Disciplined, StopsAreStarted, StartsAreRecovered, JournalStarted, RecoveredAfterMount, EndsWithStop, Quiesced;
    InstanceFits(acts, s, i);
    assert UnregistersAreUnmounted(CallsOf(s.lib.log, i));
  }

  /** The names given to a new instance are in neither table. */
  lemma NewNamesAreFree(acts: seq<Action>, s: State, readOnly: bool)
    requires Reachable(acts, s) && |s.instances| < TWO_64
    ensures var inst := Do(s, Begin(readOnly)).instances[|s.instances|];
            inst.Dev() !in s.lib.registry && inst.Mp() !in s.lib.mounts
  {
    hide Exec, Fits, DeviceName, MountPoint;
    ReachableInv(acts, s);
    var n := |s.instances|;
    if DeviceName(n) in s.lib.registry {
      DeviceNameInjective(n, s.lib.registry[DeviceName(n)]);
    }
    if MountPoint(n) in s.lib.mounts {
      MountPointInjective(n, s.lib.mounts[MountPoint(n)]);
    }
  }

  /**
   * When an instance's wrapper is about to go or gone, its device is unregistered. Its mount
   * point is left exactly when it was mounted and no unmount attempt succeeded, and then one was
   * made. So nothing is left after a failed `mount`, nor when all its calls succeeded.
   */
  lemma LeftBehindIff(acts: seq<Action>, s: State, i: nat)
    requires Reachable(acts, s) && i < |s.instances|
    requires s.instances[i].pc.Releasing? || s.instances[i].pc.Freed?
    ensures s.instances[i].Dev() !in s.lib.registry
    ensures s.instances[i].Mp() in s.lib.mounts
            <==> MountedOk(CallsOf(s.lib.log, i)) && !UmountedOk(CallsOf(s.lib.log, i))
    ensures s.instances[i].Mp() in s.lib.mounts ==> exists e <- CallsOf(s.lib.log, i) :: e.call.Umount? && !e.ok
  {
    hide Exec, TablesOwned, JournalCallsFit, ModeFits, DeviceName, MountPoint, CallsOf;
    InstanceFits(acts, s, i);
    var sub := CallsOf(s.lib.log, i);
    if MountedOk(sub) && !UmountedOk(sub) {
      var k :| 0 <= k < |sub| && sub[k].call.Umount?;
      assert sub[k] in sub && !sub[k].ok;
    }
  }

  /** Every mount point leads to a wrapper that still exists. */
  predicate MountsNeverDangle(s: State) {
    forall m :: m in s.lib.mounts ==>
      s.lib.mounts[m] < |s.instances| && !s.instances[s.lib.mounts[m]].pc.Freed?
  }

  /** An instance got mounted and all its unmount attempts failed. */
  predicate NeverUnmounted(s: State, i: nat) {
    MountedOk(CallsOf(s.lib.log, i)) && !UmountedOk(CallsOf(s.lib.log, i))
  }

  /** A mount point can outlive its wrapper: exactly when a freed instance was never unmounted. */
  lemma MountsDangleIff(acts: seq<Action>, s: State)
    requires Reachable(acts, s)
    ensures MountsNeverDangle(s)
            <==> forall i :: 0 <= i < |s.instances| && s.instances[i].pc.Freed? ==> !NeverUnmounted(s, i)
  {
    ReachableInv(acts, s);
    forall i | 0 <= i < |s.instances|
      ensures NeverUnmounted(s, i) ==> MountPoint(i) in s.lib.mounts && s.lib.mounts[MountPoint(i)] == i
    {
      assert Fits(s.lib, s.instances[i], i);
      if MountPoint(i) in s.lib.mounts {
        MountPointInjective(i, s.lib.mounts[MountPoint(i)]);
      }
    }
    forall m | m in s.lib.mounts ensures NeverUnmounted(s, s.lib.mounts[m]) {
      var i := s.lib.mounts[m];
      assert Fits(s.lib, s.instances[i], i);
    }
  }

  /**
   * In any reachable state, with the mount table scanned in any order, a path made by an instance
   * reaches that instance's own wrapper while its mount point is present, and no mount otherwise.
   */
  lemma PathsReachTheirMount(acts: seq<Action>, s: State, order: seq<string>, i: nat, path: string)
    requires Reachable(acts, s) && i < |s.instances| && '\0' !in path
    requires forall m :: m in order <==> m in s.lib.mounts
    ensures var full := MakePath(s.instances[i].Mp(), path);
            && full.Ok?
            && (s.instances[i].Mp() in s.lib.mounts ==>
                  Route(order, full.value) == Some(s.instances[i].Mp())
                  && s.lib.mounts[s.instances[i].Mp()] == i)
            && (s.instances[i].Mp() !in s.lib.mounts ==> Route(order, full.value) == None)
  {
    ReachableInv(acts, s);
    assert Fits(s.lib, s.instances[i], i);
    assert forall k :: 0 <= k < |order| ==> order[k] in s.lib.mounts;
    var ids := seq(|order|, k requires 0 <= k < |order| => s.lib.mounts[order[k]]);
    var mp := MountPoint(i);
    assert forall k :: 0 <= k < |order| ==> order[k] == MountPoint(ids[k]);
    RoutesHome(order, ids, i, path);
    if mp in s.lib.mounts {
      MountPointInjective(i, s.lib.mounts[mp]);
      var k :| 0 <= k < |order| && order[k] == mp;
      assert ids[k] == i;
    }
  }

  // ------------------------------------------------------------------------------------------
  // Two runs that mark the limits

  lemma NoAction()
    ensures Exec([]) == Some(INITIAL)
  {
  }

  /** One more enabled action on a run. */
  lemma Act(acts: seq<Action>, s: State, a: Action) returns (acts': seq<Action>, s': State)
    requires Exec(acts) == Some(s) && Enabled(s, a)
    ensures Exec(acts') == Some(s') && s' == Do(s, a)
  {
    RunMore(acts, s, a);
    acts', s' := acts + [a], Do(s, a);
  }

  /** One read-only instance has been mounted, as instance 0. */
  lemma MountFirst() returns (acts: seq<Action>, s: State)
    ensures Exec(acts) == Some(s) && |s.instances| == 1
    ensures s.instances[0] == Instance(0, true, false, Live)
    ensures s.lib.registry == map[DeviceName(0) := 0] && s.lib.mounts == map[MountPoint(0) := 0]
  {
    hide Exec, DeviceName, MountPoint;
    NoAction();
    acts, s := [], INITIAL;
    acts, s := Act(acts, s, Begin(true));
    acts, s := Act(acts, s, Return(0, true));
    acts, s := Act(acts, s, Return(0, true));
    acts, s := Act(acts, s, Return(0, true));
  }

  /** A drop whose unmount fails leaves a mount point that leads to a freed wrapper. */
  lemma DanglingMountRun() returns (acts: seq<Action>, s: State)
    ensures Reachable(acts, s) && !MountsNeverDangle(s)
  {
    hide Exec, DeviceName, MountPoint;
    acts, s := MountFirst();
    acts, s := Act(acts, s, StartDrop(0));
    acts, s := Act(acts, s, Return(0, true));
    acts, s := Act(acts, s, Return(0, false));
    acts, s := Act(acts, s, Return(0, true));
    acts, s := Act(acts, s, Release(0));
    assert MountPoint(0) in s.lib.mounts;
  }

  lemma {:induction false} BeginMany(acts: seq<Action>, s: State, n: nat) returns (acts': seq<Action>, s': State)
    requires Exec(acts) == Some(s)
    ensures Exec(acts') == Some(s') && s'.lib == s.lib
    ensures |s'.instances| == |s.instances| + n && s'.instances[..|s.instances|] == s.instances
    ensures n > 0 ==>
              s'.instances[|s'.instances| - 1]
              == Instance((|s'.instances| - 1) % TWO_64, false, false, Registering)
  {
    hide Exec, DeviceName, MountPoint;
    acts', s' := acts, s;
    if n > 0 {
      acts', s' := BeginMany(acts, s, n - 1);
      acts', s' := Act(acts', s', Begin(false));
    }
  }

  /** Every instance that holds its device is registered with its own wrapper. */
  predicate HoldersRegistered(s: State) {
    forall i :: 0 <= i < |s.instances| && Holding(s.instances[i].pc) ==>
      s.instances[i].Dev() in s.lib.registry && s.lib.registry[s.instances[i].Dev()] == i
  }

  /** Instance 0 is mounted and unmounted, and about to be torn down again by `drop`. */
  lemma UmountFirst() returns (acts: seq<Action>, s: State)
    ensures Exec(acts) == Some(s) && s.instances == [Instance(0, true, false, DrFlush)]
    ensures s.lib.registry == map[] && s.lib.mounts == map[]
  {
    hide Exec, DeviceName, MountPoint;
    acts, s := MountFirst();
    acts, s := Act(acts, s, StartUmount(0));
    acts, s := Act(acts, s, Return(0, true));
    acts, s := Act(acts, s, Return(0, true));
    acts, s := Act(acts, s, Return(0, true));
  }

  /** After 2^64 more mounts have begun, the last one has id 0 again and has just registered. */
  lemma ReuseId() returns (acts: seq<Action>, s: State)
    ensures Exec(acts) == Some(s) && |s.instances| == TWO_64 + 1
    ensures s.instances[0] == Instance(0, true, false, DrFlush)
    ensures s.instances[TWO_64] == Instance(0, false, false, Mounting)
    ensures s.lib.registry == map[DeviceName(0) := TWO_64] && s.lib.mounts == map[]
  {
    hide Exec, DeviceName, MountPoint;
    acts, s := UmountFirst();
    var one := s.instances;
    acts, s := BeginMany(acts, s, TWO_64);
    assert s.instances[0] == s.instances[..|one|][0];
    acts, s := Act(acts, s, Return(TWO_64, true));
  }

  /**
   * The id counter wraps: the second teardown of instance 0 unregisters the device of the
   * instance that got id 0 again.
   */
  lemma WrappedCounterRun() returns (acts: seq<Action>, s: State)
    ensures Exec(acts) == Some(s) && |s.instances| == TWO_64 + 1 && !HoldersRegistered(s)
  {
    hide Exec, DeviceName, MountPoint;
    acts, s := ReuseId();
    acts, s := Act(acts, s, Return(0, true));
    acts, s := Act(acts, s, Return(0, false));
    acts, s := Act(acts, s, Return(0, true));
    assert s.instances[TWO_64].Dev() !in s.lib.registry;
  }

  /** Instances keep their registrations in all runs of up to `n` mounts exactly when `n` is at most 2^64. */
  lemma IsolationIff(n: nat)
    ensures (forall acts, s :: Exec(acts) == Some(s) && |s.instances| <= n ==> HoldersRegistered(s))
            <==> n <= TWO_64
  {
    if n <= TWO_64 {
      forall acts, s | Exec(acts) == Some(s) && |s.instances| <= n ensures HoldersRegistered(s) {
        forall i | 0 <= i < |s.instances| && Holding(s.instances[i].pc)
          ensures s.instances[i].Dev() in s.lib.registry && s.lib.registry[s.instances[i].Dev()] == i
        {
          HoldersStayRegistered(acts, s, i);
        }
      }
    } else {
      var acts, s := WrappedCounterRun();
      assert Exec(acts) == Some(s) && |s.instances| <= n && !HoldersRegistered(s);
    }
  }
}
