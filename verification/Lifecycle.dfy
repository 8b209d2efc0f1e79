/**
 * The life of mounted filesystems as a step machine. Any number of instances run `mount`,
 * `umount` and `drop` interleaved call by call; they share the id counter and lwext4's two
 * global tables, and every C call may fail as far as its contract permits.
 */
module Lifecycle {
  import opened MachineInts
  import opened Namespace

  // ------------------------------------------------------------------------------------------
  // The library

  datatype Call =
    | DeviceRegister(dev: string, wrapper: nat)
    | DeviceUnregister(dev: string)
    | Mount(dev: string, mp: string, readOnly: bool)
    | Recover(mp: string)
    | JournalStart(mp: string)
    | JournalStop(mp: string)
    | CacheFlush(mp: string)
    | Umount(mp: string)
  {
    /** Every name in the call is the device name or the mount point of the given id. */
    predicate OfId(id: nat) {
      && ((DeviceRegister? || DeviceUnregister? || Mount?) ==> dev == DeviceName(id))
      && ((!DeviceRegister? && !DeviceUnregister?) ==> mp == MountPoint(id))
    }
  }

  datatype Event = Event(call: Call, ok: bool)

  /** Registered devices and mount points, each leading to a wrapper; `log` records the calls made. */
  datatype Library = Library(registry: map<string, nat>, mounts: map<string, nat>, log: seq<Event>)

  /** The outcomes the contract allows: an absent name cannot be removed, a present device can. */
  predicate Permits(lib: Library, c: Call, ok: bool) {
    match c
    case DeviceUnregister(dev) => ok <==> dev in lib.registry
    case Mount(dev, _, _) => ok ==> dev in lib.registry
    case Umount(mp) => ok ==> mp in lib.mounts
    case _ => true
  }

  /** The library after a call; a failed call leaves both tables as they were. */
  function After(lib: Library, c: Call, ok: bool): Library
    requires Permits(lib, c, ok)
  {
    var logged := lib.(log := lib.log + [Event(c, ok)]);
    if !ok then logged
    else
      match c
      case DeviceRegister(dev, wrapper) => logged.(registry := lib.registry[dev := wrapper])
      case DeviceUnregister(dev) => logged.(registry := lib.registry - {dev})
      case Mount(dev, mp, _) => logged.(mounts := lib.mounts[mp := lib.registry[dev]])
      case Umount(mp) => logged.(mounts := lib.mounts - {mp})
      case _ => logged
  }

  // ------------------------------------------------------------------------------------------
  // One instance

  /**
   * Where an instance is: the C call it makes next, or a point between calls. `Um` points lie in
   * `umount`, `Dr` points in `drop`; at Releasing the fields, and with them the wrapper, go.
   */
  datatype Pc =
    | Registering | Mounting | MountFailed | Recovering | JournalStarting
    | Live
    | UmStop | UmFlush | UmUnmount | UmUnregister
    | DrStop | DrFlush | DrUnmount | DrUnregister
    | Releasing | Freed

  datatype Instance = Instance(id: u64, readOnly: bool, journalActive: bool, pc: Pc)
  {
    function Dev(): string { DeviceName(id) }
    function Mp(): string { MountPoint(id) }
    predicate InDrop() { pc.DrStop? || pc.DrFlush? || pc.DrUnmount? || pc.DrUnregister? }
  }

  /** The next C call of an instance whose wrapper is `wrapper`. */
  function CallAt(inst: Instance, wrapper: nat): Option<Call> {
    match inst.pc
    case Registering => Some(DeviceRegister(inst.Dev(), wrapper))
    case Mounting => Some(Mount(inst.Dev(), inst.Mp(), inst.readOnly))
    case MountFailed => Some(DeviceUnregister(inst.Dev()))
    case Recovering => Some(Recover(inst.Mp()))
    case JournalStarting => Some(JournalStart(inst.Mp()))
    case UmStop => Some(JournalStop(inst.Mp()))
    case UmFlush => Some(CacheFlush(inst.Mp()))
    case UmUnmount => Some(Umount(inst.Mp()))
    case UmUnregister => Some(DeviceUnregister(inst.Dev()))
    case DrStop => Some(JournalStop(inst.Mp()))
    case DrFlush => Some(CacheFlush(inst.Mp()))
    case DrUnmount => Some(Umount(inst.Mp()))
    case DrUnregister => Some(DeviceUnregister(inst.Dev()))
    case Live => None
    case Releasing => None
    case Freed => None
  }

  function EnterUmount(inst: Instance): Instance {
    inst.(pc := if inst.journalActive then UmStop else UmFlush)
  }

  /** `drop` runs when a live instance goes out of scope and at every way out of `umount`. */
  function EnterDrop(inst: Instance): Instance {
    inst.(pc := if inst.journalActive then DrStop else DrFlush)
  }

  /** Where the instance continues once its C call has returned. */
  function Resume(inst: Instance, ok: bool): Instance {
    match inst.pc
    case Registering => inst.(pc := if ok then Mounting else Releasing)
    case Mounting => inst.(pc := if ok then Recovering else MountFailed)
    case MountFailed => inst.(pc := Releasing)
    case Recovering => inst.(pc := if inst.readOnly then Live else JournalStarting)
    case JournalStarting => inst.(pc := Live, journalActive := ok)
    case UmStop => inst.(pc := UmFlush)
    case UmFlush => inst.(pc := UmUnmount)
    case UmUnmount => if ok then inst.(pc := UmUnregister) else EnterDrop(inst)
    case UmUnregister => EnterDrop(inst)
    case DrStop => inst.(pc := DrFlush)
    case DrFlush => inst.(pc := DrUnmount)
    case DrUnmount => inst.(pc := DrUnregister)
    case DrUnregister => inst.(pc := Releasing)
    case _ => inst
  }

  // ------------------------------------------------------------------------------------------
  // All instances

  /** Instance `i` is the `i`-th to begin mounting, and `i` also stands for its wrapper. */
  datatype State = State(instances: seq<Instance>, lib: Library)

  const INITIAL: State := State([], Library(map[], map[], []))

  datatype Action =
    | Begin(readOnly: bool)
    | Return(i: nat, ok: bool)
    | Sync(i: nat, ok: bool)
    | StartUmount(i: nat)
    | StartDrop(i: nat)
    | Release(i: nat)

  predicate Enabled(s: State, a: Action) {
    match a
    case Begin(_) => true
    case Return(i, ok) =>
      && i < |s.instances|
      && var c := CallAt(s.instances[i], i);
         c.Some? && Permits(s.lib, c.value, ok)
    case Sync(i, _) => i < |s.instances| && s.instances[i].pc.Live?
    case StartUmount(i) => i < |s.instances| && s.instances[i].pc.Live?
    case StartDrop(i) => i < |s.instances| && s.instances[i].pc.Live?
    case Release(i) => i < |s.instances| && s.instances[i].pc.Releasing?
  }

  /** One step. The counter is a u64 that wraps, so instance number `n` gets the id `n` mod 2^64. */
  function Do(s: State, a: Action): State
    requires Enabled(s, a)
  {
    match a
    case Begin(readOnly) =>
      s.(instances := s.instances + [Instance(|s.instances| % TWO_64, readOnly, false, Registering)])
    case Return(i, ok) =>
      var inst := s.instances[i];
      State(s.instances[i := Resume(inst, ok)], After(s.lib, CallAt(inst, i).value, ok))
    case Sync(i, ok) => s.(lib := After(s.lib, CacheFlush(s.instances[i].Mp()), ok))
    case StartUmount(i) => s.(instances := s.instances[i := EnterUmount(s.instances[i])])
    case StartDrop(i) => s.(instances := s.instances[i := EnterDrop(s.instances[i])])
    case Release(i) => s.(instances := s.instances[i := s.instances[i].(pc := Freed)])
  }

  /** The state a sequence of actions leads to from the initial state, if every one is enabled. */
  function Exec(acts: seq<Action>): Option<State> {
    if acts == [] then Some(INITIAL)
    else
      var last := |acts| - 1;
      match Exec(acts[..last])
      case None => None
      case Some(s) => if Enabled(s, acts[last]) then Some(Do(s, acts[last])) else None
  }

  /** Appending one enabled action to a run. */
  lemma RunMore(acts: seq<Action>, s: State, a: Action)
    requires Exec(acts) == Some(s) && Enabled(s, a)
    ensures Exec(acts + [a]) == Some(Do(s, a))
  {
    assert (acts + [a])[..|acts|] == acts;
  }

  // ------------------------------------------------------------------------------------------
  // Reading the log

  /** The calls that use the names of one id, in order. */
  function CallsOf(log: seq<Event>, id: nat): seq<Event> {
    if log == [] then []
    else
      var last := log[|log| - 1];
      CallsOf(log[..|log| - 1], id) + if last.call.OfId(id) then [last] else []
  }

  /** The calls of a log, without their outcomes. */
  function Calls(log: seq<Event>): (r: seq<Call>)
    ensures |r| == |log| && forall k :: 0 <= k < |log| ==> r[k] == log[k].call
  {
    seq(|log|, k requires 0 <= k < |log| => log[k].call)
  }

  /** All that a `mount` that gets through has to call. */
  function MountCalls(dev: string, mp: string, wrapper: nat, readOnly: bool): seq<Call> {
    [DeviceRegister(dev, wrapper), Mount(dev, mp, readOnly), Recover(mp)]
    + if readOnly then [] else [JournalStart(mp)]
  }

  /** All that a teardown has to call, by `umount` or by `drop`. */
  function TeardownCalls(dev: string, mp: string, journal: bool): seq<Call> {
    (if journal then [JournalStop(mp)] else [])
    + [CacheFlush(mp), Umount(mp), DeviceUnregister(dev)]
  }

  predicate RegisteredOk(sub: seq<Event>) {
    exists k :: 0 <= k < |sub| && sub[k].call.DeviceRegister? && sub[k].ok
  }

  predicate UnregisteredOk(sub: seq<Event>) {
    exists k :: 0 <= k < |sub| && sub[k].call.DeviceUnregister? && sub[k].ok
  }

  predicate MountedOk(sub: seq<Event>) {
    exists k :: 0 <= k < |sub| && sub[k].call.Mount? && sub[k].ok
  }

  predicate UmountedOk(sub: seq<Event>) {
    exists k :: 0 <= k < |sub| && sub[k].call.Umount? && sub[k].ok
  }

  predicate UmountTried(sub: seq<Event>) {
    exists k :: 0 <= k < |sub| && sub[k].call.Umount?
  }

  predicate JournalTried(sub: seq<Event>) {
    exists k :: 0 <= k < |sub| && sub[k].call.JournalStart?
  }

  predicate EndsWithUmount(sub: seq<Event>) {
    sub != [] && sub[|sub| - 1].call.Umount?
  }

  predicate Started(e: Event) {
    e.call.JournalStart? && e.ok
  }

  predicate JournalStarted(sub: seq<Event>) {
    exists a :: 0 <= a < |sub| && Started(sub[a])
  }

  predicate EndsWithStop(sub: seq<Event>) {
    sub != [] && sub[|sub| - 1].call.JournalStop?
  }

  /** The last call is a cache flush and, if the journal was started, the one before it stops it. */
  predicate Quiesced(sub: seq<Event>) {
    && sub != [] && sub[|sub| - 1].call.CacheFlush?
    && (JournalStarted(sub) ==> EndsWithStop(sub[..|sub| - 1]))
  }

  /** Every unmount attempt comes right after the journal was stopped and the cache flushed. */
  predicate Disciplined(sub: seq<Event>) {
    forall k :: 0 <= k < |sub| && sub[k].call.Umount? ==> Quiesced(sub[..k])
  }

  /** A mount has succeeded and a recovery has been attempted after it. */
  predicate RecoveredAfterMount(sub: seq<Event>) {
    exists a, b :: 0 <= a < b < |sub| && sub[a].call.Mount? && sub[a].ok && sub[b].call.Recover?
  }

  /** The journal is only started on a mount point whose recovery has been attempted. */
  predicate StartsAreRecovered(sub: seq<Event>) {
    forall k :: 0 <= k < |sub| && sub[k].call.JournalStart? ==> RecoveredAfterMount(sub[..k])
  }

  /** No stop is issued before the journal was started. */
  predicate StopsAreStarted(sub: seq<Event>) {
    forall k :: 0 <= k < |sub| && sub[k].call.JournalStop? ==> JournalStarted(sub[..k])
  }

  /** A device that got mounted is unregistered only right after an unmount attempt. */
  predicate UnregistersAreUnmounted(sub: seq<Event>) {
    forall k :: 0 <= k < |sub| && sub[k].call.DeviceUnregister? && MountedOk(sub[..k]) ==> EndsWithUmount(sub[..k])
  }

  lemma CallsOfAppend(log: seq<Event>, e: Event, id: nat)
    ensures CallsOf(log + [e], id) == CallsOf(log, id) + if e.call.OfId(id) then [e] else []
  {
    assert (log + [e])[..|log|] == log;
  }

  lemma {:induction false} CallsOfFresh(log: seq<Event>, id: nat)
    requires forall k :: 0 <= k < |log| ==> !log[k].call.OfId(id)
    ensures CallsOf(log, id) == []
  {
    if log != [] {
      CallsOfFresh(log[..|log| - 1], id);
    }
  }

  /** A call of one id is not a call of another. */
  lemma OfIdUnique(c: Call, i: nat, j: nat)
    requires c.OfId(i) && c.OfId(j)
    ensures i == j
  {
    if c.DeviceRegister? || c.DeviceUnregister? {
      DeviceNameInjective(i, j);
    } else {
      MountPointInjective(i, j);
    }
  }
}
