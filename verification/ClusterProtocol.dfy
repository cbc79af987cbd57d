/**
The UUID lock, the daemon hub and the reconciler of remote clusters as one interleaved protocol
(pkg/controllers/multicluster/uuid_mutex.go, pkg/managerruntime/daemonhub.go,
pkg/controllers/multicluster/remotecluster_controller.go). Every call that takes a lock is one atomic
step; reconciles of different clusters, UUID locking and the status checker run in any order.
*/
module ClusterProtocol {
  import opened Addresses
  import opened Finite

  type UUID = string
  type Name = string

  // ---- the lock on UUIDs -----------------------------------------------------------------------------

  datatype LockResult = New | Held | Refused

  datatype Mutex = Mutex(idName: map<UUID, Name>, latest: map<Name, UUID>)
  {
    /** New: locked now. Held: locked by this name before, which becomes its latest. Refused: empty or held by
        another name. */
    function Lock(u: UUID, n: Name): (r: (Mutex, LockResult)) {
      if u == "" then (this, Refused)
      else if u in idName then
        if idName[u] == n then (this.(latest := latest[n := u]), Held) else (this, Refused)
      else (Mutex(idName[u := n], latest[n := u]), New)
    }

    function Unlock(u: UUID): (r: (Mutex, bool)) {
      if u !in idName then (this, false)
      else
        var n := idName[u];
        (Mutex(idName - {u}, if n in latest && latest[n] == u then latest - {n} else latest), true)
    }

    /** Every name's latest UUID is locked by that name. */
    ghost predicate Inv() {
      forall n :: n in latest ==> latest[n] in idName && idName[latest[n]] == n
    }
  }

  /** Unlocking what was newly locked leaves every UUID with the holder it had. */
  lemma UnlockUndoesLock(m: Mutex, u: UUID, n: Name)
    requires m.Lock(u, n).1 == New
    ensures m.Lock(u, n).0.Unlock(u).0.idName == m.idName
  {
  }

  ghost predicate OwnedBy(m: Mutex, n: Name, us: seq<UUID>) {
    Distinct(us) && forall u :: u in us <==> u in m.idName && m.idName[u] == n
  }

  class UUIDMutex {
    var idNameMap: map<UUID, Name>
    var nameLatestIDMap: map<Name, UUID>

    constructor ()
      ensures State() == Mutex(map[], map[])
    {
      idNameMap, nameLatestIDMap := map[], map[];
    }

    function State(): (m: Mutex)
      reads this
    {
      Mutex(idNameMap, nameLatestIDMap)
    }

    /** The name that holds the UUID. */
    function Holder(u: UUID): (n: Option<Name>)
      reads this
    {
      if u in idNameMap then Some(idNameMap[u]) else None
    }

    function LatestOf(n: Name): (u: Option<UUID>)
      reads this
    {
      if n in nameLatestIDMap then Some(nameLatestIDMap[n]) else None
    }

    /** A free UUID is locked and becomes the latest of the name; one the name holds becomes its latest; the empty
        one, and one that another name holds, are refused. No other UUID changes hands, no other name its latest. */
    method Lock(u: UUID, n: Name) returns (r: LockResult)
      modifies this
      ensures r == New <==> u != "" && u !in old(idNameMap)
      ensures r == Held <==> u != "" && u in old(idNameMap) && old(idNameMap)[u] == n
      ensures r != Refused ==> Holder(u) == Some(n) && LatestOf(n) == Some(u)
      ensures r == Refused ==> State() == old(State())
      ensures forall v :: v != u ==> Holder(v) == old(Holder(v))
      ensures forall m :: m != n ==> LatestOf(m) == old(LatestOf(m))
      ensures old(State().Inv()) ==> State().Inv()
      ensures State() == old(State()).Lock(u, n).0
    {
      if u == "" {
        return Refused;
      }
      if u in idNameMap {
        if idNameMap[u] == n {
          nameLatestIDMap := nameLatestIDMap[n := u];
          return Held;
        }
        return Refused;
      }
      idNameMap := idNameMap[u := n];
      nameLatestIDMap := nameLatestIDMap[n := u];
      return New;
    }

    /** The UUID is free and no longer the latest of the name that held it; nothing else changes. */
    method Unlock(u: UUID) returns (ok: bool)
      modifies this
      ensures ok <==> old(Holder(u)).Some?
      ensures Holder(u).None? && forall v :: v != u ==> Holder(v) == old(Holder(v))
      ensures forall m :: LatestOf(m) == if old(Holder(u)) == Some(m) && old(LatestOf(m)) == Some(u) then None
                                         else old(LatestOf(m))
      ensures old(State().Inv()) ==> State().Inv() && forall m :: LatestOf(m) != Some(u)
      ensures State() == old(State()).Unlock(u).0
    {
      if u in idNameMap {
        var n := idNameMap[u];
        idNameMap := idNameMap - {u};
        if n in nameLatestIDMap && nameLatestIDMap[n] == u {
          nameLatestIDMap := nameLatestIDMap - {n};
        }
        return true;
      }
      return false;
    }

    method GetLatestUUID(n: Name) returns (r: Option<UUID>)
      ensures r == LatestOf(n)
      ensures State().Inv() && r.Some? ==> Holder(r.value) == Some(n)
    {
      return if n in nameLatestIDMap then Some(nameLatestIDMap[n]) else None;
    }

    /** Every UUID locked by the name, each once, in any order. */
    method GetUUIDs(n: Name) returns (r: seq<UUID>)
      ensures OwnedBy(State(), n, r)
    {
      r := [];
      var todo := idNameMap.Keys;
      while todo != {}
        invariant todo <= idNameMap.Keys && Distinct(r)
        invariant forall u :: u in r <==> u in idNameMap && u !in todo && idNameMap[u] == n
      {
        var u :| u in todo;
        if idNameMap[u] == n {
          r := r + [u];
        }
        todo := todo - {u};
      }
    }
  }

  // ---- the daemon hub ---------------------------------------------------------------------------------

  /** A manager runtime, built for one cluster; the serial number tells instances apart. */
  datatype Daemon = Daemon(serial: nat, cluster: Name)

  /** Which daemon is registered under which ID, and which daemons run. */
  datatype Hub = Hub(registered: map<UUID, Daemon>, running: set<Daemon>)
  {
    function Register(u: UUID, d: Daemon): (r: (Hub, bool)) {
      if u in registered then (this, false) else (this.(registered := registered[u := d]), true)
    }

    /** A running daemon is not unregistered; an unknown ID is no error. */
    function Unregister(u: UUID): (r: (Hub, bool)) {
      if u !in registered then (this, true)
      else if registered[u] in running then (this, false)
      else (this.(registered := registered - {u}), true)
    }

    function Run(u: UUID): (r: (Hub, bool)) {
      if u !in registered || registered[u] in running then (this, false)
      else (this.(running := running + {registered[u]}), true)
    }

    function Stop(u: UUID): (r: (Hub, bool)) {
      if u !in registered then (this, false) else (this.(running := running - {registered[u]}), true)
    }

    /** Daemons are registered once, under one ID, and run only while registered. */
    ghost predicate Inv(next: nat) {
      && (forall u :: u in registered ==> registered[u].serial < next)
      && (forall u, v :: u in registered && v in registered && registered[u] == registered[v] ==> u == v)
      && (forall d :: d in running ==> IsRegistered(d))
    }

    ghost predicate IsRegistered(d: Daemon) {
      exists u :: u in registered && registered[u] == d
    }
  }

  lemma RunKeeps(h: Hub, u: UUID, next: nat)
    requires h.Inv(next)
    ensures h.Run(u).0.Inv(next)
  {
    var h' := h.Run(u).0;
    forall d | d in h'.running
      ensures h'.IsRegistered(d)
    {
      if d in h.running {
        assert h.IsRegistered(d);
      }
    }
  }

  lemma StopKeeps(h: Hub, u: UUID, next: nat)
    requires h.Inv(next)
    ensures h.Stop(u).0.Inv(next)
  {
    var h' := h.Stop(u).0;
    forall d | d in h'.running
      ensures h'.IsRegistered(d)
    {
      assert h.IsRegistered(d);
    }
  }

  lemma UnregisterKeeps(h: Hub, u: UUID, next: nat)
    requires h.Inv(next)
    ensures h.Unregister(u).0.Inv(next)
  {
    var h' := h.Unregister(u).0;
    forall d | d in h'.running
      ensures h'.IsRegistered(d)
    {
      assert h.IsRegistered(d);
      var v :| v in h.registered && h.registered[v] == d;
      assert v in h'.registered;
    }
  }

  lemma RegisterKeeps(h: Hub, u: UUID, next: nat, n: Name)
    requires h.Inv(next)
    ensures h.Register(u, Daemon(next, n)).0.Inv(next + 1)
  {
    var h' := h.Register(u, Daemon(next, n)).0;
    forall d | d in h'.running
      ensures h'.IsRegistered(d)
    {
      assert h.IsRegistered(d);
      var v :| v in h.registered && h.registered[v] == d;
      assert v in h'.registered && h'.registered[v] == d;
    }
  }

  class DaemonHub {
    var hub: map<UUID, Daemon>
    var running: set<Daemon>

    constructor ()
      ensures State() == Hub(map[], {})
    {
      hub, running := map[], {};
    }

    function State(): (h: Hub)
      reads this
    {
      Hub(hub, running)
    }

    /** The daemon under an ID; none if nothing is registered. */
    function Under(u: UUID): (d: Option<Daemon>)
      reads this
    {
      if u in hub then Some(hub[u]) else None
    }

    /** An ID has one daemon at a time; a fresh daemon is registered once only, and does not run yet. */
    method Register(u: UUID, d: Daemon) returns (ok: bool)
      modifies this
      ensures ok <==> old(Under(u)).None?
      ensures Under(u) == if ok then Some(d) else old(Under(u))
      ensures running == old(running) && forall v :: v != u ==> Under(v) == old(Under(v))
      ensures old(State().Inv(d.serial)) ==> State().Inv(d.serial + 1) && (ok ==> d !in running)
      ensures State() == old(State()).Register(u, d).0
    {
      if u in hub {
        return false;
      }
      hub := hub[u := d];
      if old(State().Inv(d.serial)) {
        RegisterKeeps(old(State()), u, d.serial, d.cluster);
        assert !old(State()).IsRegistered(d);
      }
      return true;
    }

    method IsRegistered(u: UUID) returns (r: bool)
      ensures r <==> Under(u).Some?
    {
      return u in hub;
    }

    /** Only a daemon that does not run is unregistered, so that every running daemon stays registered. */
    method Unregister(u: UUID) returns (ok: bool)
      modifies this
      ensures !ok <==> old(Under(u)).Some? && old(Under(u)).value in old(running)
      ensures Under(u) == if ok then None else old(Under(u))
      ensures running == old(running) && forall v :: v != u ==> Under(v) == old(Under(v))
      ensures forall next :: old(State().Inv(next)) ==> State().Inv(next)
      ensures State() == old(State()).Unregister(u).0
    {
      if u !in hub {
        return true;
      }
      if hub[u] in running {
        return false;
      }
      hub := hub - {u};
      forall next | old(State().Inv(next))
        ensures State().Inv(next)
      {
        UnregisterKeeps(old(State()), u, next);
      }
      return true;
    }

    /** Of all daemons only a registered, stopped one is started. */
    method Run(u: UUID) returns (ok: bool)
      modifies this
      ensures ok <==> old(Under(u)).Some? && old(Under(u)).value !in old(running)
      ensures hub == old(hub) && forall d :: d in running <==> d in old(running) || (ok && Under(u) == Some(d))
      ensures forall next :: old(State().Inv(next)) ==> State().Inv(next)
      ensures State() == old(State()).Run(u).0
    {
      if u !in hub || hub[u] in running {
        return false;
      }
      running := running + {hub[u]};
      return true;
    }

    /** A registered daemon runs no more; no other daemon is affected. */
    method Stop(u: UUID) returns (ok: bool)
      modifies this
      ensures ok <==> old(Under(u)).Some?
      ensures hub == old(hub) && forall d :: d in running <==> d in old(running) && Under(u) != Some(d)
      ensures forall next :: old(State().Inv(next)) ==> State().Inv(next)
      ensures State() == old(State()).Stop(u).0
    {
      if u !in hub {
        return false;
      }
      running := running - {hub[u]};
      return true;
    }
  }

  // ---- the protocol -----------------------------------------------------------------------------------

  /** Where the reconcile of one cluster stands. `rest` are the orphan UUIDs still to be recycled, the first one
      being worked on; `guard` is the UUID to guard afterwards, none when the cluster goes away. */
  datatype Reconcile =
    | Latest(keep: UUID)
    | Recycling(rest: seq<UUID>, guard: Option<UUID>)
    | Stopping(rest: seq<UUID>, guard: Option<UUID>)
    | Unregistering(rest: seq<UUID>, guard: Option<UUID>)
    | Unlocking(rest: seq<UUID>, guard: Option<UUID>)
    | Guarding(keep: UUID)
    | GuardStopping(keep: UUID)
    | GuardUnregistering(keep: UUID)
    | Registering(keep: UUID)

  datatype World = World(mutex: Mutex, hub: Hub, next: nat, procs: map<Name, Reconcile>)

  /** `us` is the list the lock hands out, in whatever order the map is walked. */
  datatype Event =
    | LockUUID(u: UUID, n: Name)
    | RunDaemon(u: UUID)
    | StopDaemon(u: UUID)
    | StartRecycle(n: Name, us: seq<UUID>)
    | StartGuard(n: Name)
    | ListOrphans(n: Name, us: seq<UUID>)
    | Advance(n: Name)
    | Fail(n: Name)

  /** The list with one UUID skipped. */
  function Without(us: seq<UUID>, u: UUID): (r: seq<UUID>) {
    if us == [] then [] else if us[0] == u then Without(us[1..], u) else [us[0]] + Without(us[1..], u)
  }

  ghost predicate Enabled(w: World, e: Event) {
    match e
    case LockUUID(_, _) => true
    case RunDaemon(_) => true
    case StopDaemon(_) => true
    case StartRecycle(n, us) => n !in w.procs && OwnedBy(w.mutex, n, us)
    case StartGuard(n) => n !in w.procs && n in w.mutex.latest
    case ListOrphans(n, us) => n in w.procs && w.procs[n].Latest? && OwnedBy(w.mutex, n, us)
    case Advance(n) => n in w.procs && !w.procs[n].Latest?
    case Fail(n) => n in w.procs
  }

  function Goto(w: World, n: Name, p: Reconcile): (r: World) {
    w.(procs := w.procs[n := p])
  }

  function Done(w: World, n: Name): (r: World) {
    w.(procs := w.procs - {n})
  }

  /** A hub call, after which the reconcile goes on or, on an error, ends. */
  function Call(w: World, n: Name, r: (Hub, bool), p: Reconcile): (w': World) {
    if r.1 then Goto(w.(hub := r.0), n, p) else Done(w, n)
  }

  /** The next atomic step of a reconcile that is past reading the lock. */
  function Proceed(w: World, n: Name): (r: World)
    requires n in w.procs && !w.procs[n].Latest?
  {
    match w.procs[n]
    case Recycling(rest, guard) =>
      if rest == [] then (if guard.None? then Done(w, n) else Goto(w, n, Guarding(guard.value)))
      else if rest[0] in w.hub.registered then Goto(w, n, Stopping(rest, guard))
      else Goto(w, n, Unlocking(rest, guard))
    case Stopping(rest, guard) =>
      if rest == [] then Done(w, n) else Call(w, n, w.hub.Stop(rest[0]), Unregistering(rest, guard))
    case Unregistering(rest, guard) =>
      if rest == [] then Done(w, n) else Call(w, n, w.hub.Unregister(rest[0]), Unlocking(rest, guard))
    case Unlocking(rest, guard) =>
      if rest == [] then Done(w, n) else Goto(w.(mutex := w.mutex.Unlock(rest[0]).0), n, Recycling(rest[1..], guard))
    case Guarding(u) => if u in w.hub.registered then Goto(w, n, GuardStopping(u)) else Goto(w, n, Registering(u))
    case GuardStopping(u) => Call(w, n, w.hub.Stop(u), GuardUnregistering(u))
    case GuardUnregistering(u) => Call(w, n, w.hub.Unregister(u), Registering(u))
    case Registering(u) => Done(w.(hub := w.hub.Register(u, Daemon(w.next, n)).0, next := w.next + 1), n)
  }

  function Step(w: World, e: Event): (r: World)
    requires Enabled(w, e)
  {
    match e
    case LockUUID(u, n) => w.(mutex := w.mutex.Lock(u, n).0)
    case RunDaemon(u) => w.(hub := w.hub.Run(u).0)
    case StopDaemon(u) => w.(hub := w.hub.Stop(u).0)
    case StartRecycle(n, us) => Goto(w, n, Recycling(us, None))
    case StartGuard(n) => Goto(w, n, Latest(w.mutex.latest[n]))
    case ListOrphans(n, us) => Goto(w, n, Recycling(Without(us, w.procs[n].keep), Some(w.procs[n].keep)))
    case Advance(n) => Proceed(w, n)
    case Fail(n) => Done(w, n)
  }

  /** Every event of the run is enabled when its turn comes. */
  ghost predicate Runs(w: World, es: seq<Event>)
    decreases |es|
  {
    es == [] || (Enabled(w, es[0]) && Runs(Step(w, es[0]), es[1..]))
  }

  ghost function After(w: World, es: seq<Event>): (r: World)
    requires Runs(w, es)
    decreases |es|
  {
    if es == [] then w else After(Step(w, es[0]), es[1..])
  }

  // ---- the invariant ------------------------------------------------------------------------------------

  ghost predicate Owns(w: World, n: Name, u: UUID) {
    u in w.mutex.idName && w.mutex.idName[u] == n
  }

  ghost predicate OwnsList(w: World, n: Name, rest: seq<UUID>, guard: Option<UUID>) {
    && Distinct(rest)
    && (forall i :: 0 <= i < |rest| ==> Owns(w, n, rest[i]))
    && (guard.Some? ==> Owns(w, n, guard.value) && guard.value !in rest)
  }

  /** A reconcile only works on UUIDs that its cluster still owns; a UUID about to be unlocked, or to get a new
      daemon, has none. */
  ghost predicate ProcInv(w: World, n: Name, p: Reconcile) {
    match p
    case Latest(u) => Owns(w, n, u)
    case Recycling(rest, guard) => OwnsList(w, n, rest, guard)
    case Stopping(rest, guard) => rest != [] && OwnsList(w, n, rest, guard)
    case Unregistering(rest, guard) => rest != [] && OwnsList(w, n, rest, guard)
    case Unlocking(rest, guard) => rest != [] && OwnsList(w, n, rest, guard) && rest[0] !in w.hub.registered
    case Guarding(u) => Owns(w, n, u)
    case GuardStopping(u) => Owns(w, n, u)
    case GuardUnregistering(u) => Owns(w, n, u)
    case Registering(u) => Owns(w, n, u) && u !in w.hub.registered
  }

  /** The shared state: latest UUIDs are owned, daemons run only while registered, and whatever is registered
      under a UUID was built for the cluster that owns that UUID now. */
  ghost predicate Shared(w: World) {
    && w.mutex.Inv()
    && w.hub.Inv(w.next)
    && (forall u :: u in w.hub.registered ==> Owns(w, w.hub.registered[u].cluster, u))
  }

  ghost predicate Inv(w: World) {
    Shared(w) && forall n :: n in w.procs ==> ProcInv(w, n, w.procs[n])
  }

  // ---- every step keeps it ------------------------------------------------------------------------------

  /** What one reconcile relies on: its cluster's UUIDs stay its own, and no one else registers them. */
  ghost predicate Undisturbed(w: World, w': World, n: Name) {
    && (forall u :: Owns(w, n, u) ==> Owns(w', n, u))
    && (forall u :: Owns(w, n, u) && u !in w.hub.registered ==> u !in w'.hub.registered)
  }

  lemma ProcStays(w: World, w': World, n: Name, p: Reconcile)
    requires ProcInv(w, n, p) && Undisturbed(w, w', n)
    ensures ProcInv(w', n, p)
  {
  }

  /** A step of one reconcile, or of none, that leaves all others undisturbed. */
  lemma InvFrom(w: World, w': World, mover: Option<Name>)
    requires Inv(w) && Shared(w')
    requires forall m :: m in w'.procs && mover != Some(m) ==> m in w.procs && w'.procs[m] == w.procs[m]
    requires forall m :: m in w'.procs && mover != Some(m) ==> Undisturbed(w, w', m)
    requires mover.Some? && mover.value in w'.procs ==> ProcInv(w', mover.value, w'.procs[mover.value])
    ensures Inv(w')
  {
    forall m | m in w'.procs
      ensures ProcInv(w', m, w'.procs[m])
    {
      if mover != Some(m) {
        ProcStays(w, w', m, w.procs[m]);
      }
    }
  }

  lemma {:induction false} WithoutKeeps(us: seq<UUID>, u: UUID)
    requires Distinct(us)
    ensures forall v :: v in Without(us, u) <==> v in us && v != u
    ensures Distinct(Without(us, u))
  {
    if us != [] {
      var tail := us[1..];
      assert us == [us[0]] + tail;
      assert Distinct(tail) && us[0] !in tail;
      WithoutKeeps(tail, u);
    }
  }

  /** Locking, and the status checker running or stopping a daemon, disturb no reconcile. */
  lemma OutsideKeeps(w: World, e: Event)
    requires Inv(w) && (e.LockUUID? || e.RunDaemon? || e.StopDaemon?)
    ensures Inv(Step(w, e))
  {
    var w' := Step(w, e);
    match e {
      case LockUUID(u, n) =>
      case RunDaemon(u) => RunKeeps(w.hub, u, w.next);
      case StopDaemon(u) => StopKeeps(w.hub, u, w.next);
    }
    InvFrom(w, w', None);
  }

  /** A reconcile starts, lists its orphans, or ends with an error. */
  lemma StartKeeps(w: World, e: Event)
    requires Inv(w) && Enabled(w, e) && (e.StartRecycle? || e.StartGuard? || e.ListOrphans? || e.Fail?)
    ensures Inv(Step(w, e))
  {
    if e.ListOrphans? {
      WithoutKeeps(e.us, w.procs[e.n].keep);
    }
    InvFrom(w, Step(w, e), Some(e.n));
  }

  /** A hub call that registers nothing. */
  lemma CallKeeps(w: World, n: Name, r: (Hub, bool), p: Reconcile)
    requires Inv(w) && n in w.procs && r.0.Inv(w.next)
    requires forall u :: u in r.0.registered ==> u in w.hub.registered && r.0.registered[u] == w.hub.registered[u]
    requires r.1 ==> ProcInv(w.(hub := r.0), n, p)
    ensures Inv(Call(w, n, r, p))
  {
    var w' := Call(w, n, r, p);
    if r.1 {
      assert ProcInv(w', n, p) by {
        ProcStays(w.(hub := r.0), w', n, p);
      }
    }
    InvFrom(w, w', Some(n));
  }

  lemma RegisteringKeeps(w: World, n: Name)
    requires Inv(w) && n in w.procs && w.procs[n].Registering?
    ensures Inv(Proceed(w, n))
  {
    RegisterKeeps(w.hub, w.procs[n].keep, w.next, n);
    InvFrom(w, Proceed(w, n), Some(n));
  }

  /** A UUID is unlocked when it has no daemon any more. */
  lemma UnlockingKeeps(w: World, n: Name)
    requires Inv(w) && n in w.procs && w.procs[n].Unlocking?
    ensures Inv(Proceed(w, n))
  {
    InvFrom(w, Proceed(w, n), Some(n));
  }

  /** The steps that only read the hub. */
  lemma LookKeeps(w: World, n: Name)
    requires Inv(w) && n in w.procs && (w.procs[n].Recycling? || w.procs[n].Guarding?)
    ensures Inv(Proceed(w, n))
  {
    var w' := Proceed(w, n);
    if n in w'.procs {
      CallKeeps(w, n, (w.hub, true), w'.procs[n]);
    } else {
      CallKeeps(w, n, (w.hub, false), w.procs[n]);
    }
  }

  lemma AdvanceKeeps(w: World, n: Name)
    requires Inv(w) && n in w.procs && !w.procs[n].Latest?
    ensures Inv(Proceed(w, n))
  {
    match w.procs[n] {
      case Recycling(_, _) => LookKeeps(w, n);
      case Guarding(_) => LookKeeps(w, n);
      case Unlocking(_, _) => UnlockingKeeps(w, n);
      case Registering(_) => RegisteringKeeps(w, n);
      case Stopping(rest, guard) =>
        StopKeeps(w.hub, rest[0], w.next);
        CallKeeps(w, n, w.hub.Stop(rest[0]), Unregistering(rest, guard));
      case Unregistering(rest, guard) =>
        UnregisterKeeps(w.hub, rest[0], w.next);
        CallKeeps(w, n, w.hub.Unregister(rest[0]), Unlocking(rest, guard));
      case GuardStopping(u) =>
        StopKeeps(w.hub, u, w.next);
        CallKeeps(w, n, w.hub.Stop(u), GuardUnregistering(u));
      case GuardUnregistering(u) =>
        UnregisterKeeps(w.hub, u, w.next);
        CallKeeps(w, n, w.hub.Unregister(u), Registering(u));
    }
  }

  lemma StepKeepsInv(w: World, e: Event)
    requires Inv(w) && Enabled(w, e)
    ensures Inv(Step(w, e))
  {
    match e {
      case LockUUID(_, _) => OutsideKeeps(w, e);
      case RunDaemon(_) => OutsideKeeps(w, e);
      case StopDaemon(_) => OutsideKeeps(w, e);
      case StartRecycle(_, _) => StartKeeps(w, e);
      case StartGuard(_) => StartKeeps(w, e);
      case ListOrphans(_, _) => StartKeeps(w, e);
      case Fail(_) => StartKeeps(w, e);
      case Advance(n) =>
        AdvanceKeeps(w, n);
    }
  }

  lemma {:induction false} RunKeepsInv(w: World, es: seq<Event>)
    requires Inv(w) && Runs(w, es)
    ensures Inv(After(w, es))
    decreases |es|
  {
    if es != [] {
      StepKeepsInv(w, es[0]);
      RunKeepsInv(Step(w, es[0]), es[1..]);
    }
  }

  // ---- what holds over every run --------------------------------------------------------------------

  const START := World(Mutex(map[], map[]), Hub(map[], {}), 0, map[])

  ghost function Guarded(guard: Option<UUID>): (us: set<UUID>) {
    if guard.Some? then {guard.value} else {}
  }

  /** The UUIDs a reconcile will still touch. */
  ghost function WorkedOn(p: Reconcile): (us: set<UUID>) {
    match p
    case Recycling(rest, guard) => Elements(rest) + Guarded(guard)
    case Stopping(rest, guard) => Elements(rest) + Guarded(guard)
    case Unregistering(rest, guard) => Elements(rest) + Guarded(guard)
    case Unlocking(rest, guard) => Elements(rest) + Guarded(guard)
    case _ => {p.keep}
  }

  lemma WorksOnOwn(w: World, n: Name)
    requires n in w.procs && ProcInv(w, n, w.procs[n])
    ensures forall u :: u in WorkedOn(w.procs[n]) ==> Owns(w, n, u)
  {
  }

  /** Whatever the interleaving and wherever reconciles fail: a name's latest UUID is locked by it; a running
      daemon is registered, under a UUID locked by the cluster it was built for; two reconciles never work on the
      same UUID. */
  lemma Safety(es: seq<Event>)
    requires Runs(START, es)
    ensures var w := After(START, es);
      && (forall n :: n in w.mutex.latest ==> Owns(w, n, w.mutex.latest[n]))
      && (forall d :: d in w.hub.running ==>
        exists u :: u in w.hub.registered && w.hub.registered[u] == d && Owns(w, d.cluster, u))
      && (forall u :: u in w.hub.registered ==> Owns(w, w.hub.registered[u].cluster, u))
      && (forall n, m :: n in w.procs && m in w.procs && n != m ==> WorkedOn(w.procs[n]) !! WorkedOn(w.procs[m]))
  {
    var w := After(START, es);
    RunKeepsInv(START, es);
    forall d | d in w.hub.running
      ensures exists u :: u in w.hub.registered && w.hub.registered[u] == d && Owns(w, d.cluster, u)
    {
      assert w.hub.IsRegistered(d);
      var u :| u in w.hub.registered && w.hub.registered[u] == d;
      assert Owns(w, d.cluster, u);
    }
    forall n, m | n in w.procs && m in w.procs && n != m
      ensures WorkedOn(w.procs[n]) !! WorkedOn(w.procs[m])
    {
      WorksOnOwn(w, n);
      WorksOnOwn(w, m);
    }
  }

  /** The event is a reconcile unlocking this UUID. */
  ghost predicate Unlocks(w: World, e: Event, u: UUID) {
    e.Advance? && e.n in w.procs && w.procs[e.n].Unlocking? && w.procs[e.n].rest != [] && w.procs[e.n].rest[0] == u
  }

  /** A locked UUID changes hands in no step but an unlock, which only the owner's own reconcile takes, when no
      daemon is registered under the UUID. */
  lemma OwnerStep(w: World, e: Event, n: Name, u: UUID)
    requires Inv(w) && Enabled(w, e) && Owns(w, n, u)
    ensures Owns(Step(w, e), n, u) <==> !Unlocks(w, e, u)
    ensures Unlocks(w, e, u) ==> e.n == n && u !in w.hub.registered && u !in Step(w, e).mutex.idName
  {
    if e.Advance? && w.procs[e.n].Unlocking? {
      assert ProcInv(w, e.n, w.procs[e.n]);
    }
  }

  /** Some event of the run unlocks the UUID. */
  ghost predicate UnlockedIn(w: World, es: seq<Event>, u: UUID)
    requires Runs(w, es)
    decreases |es|
  {
    es != [] && (Unlocks(w, es[0], u) || UnlockedIn(Step(w, es[0]), es[1..], u))
  }

  /** Over a whole run, a UUID held by one name is held by another at the end only if it was unlocked between. */
  lemma {:induction false} OwnerChangesByUnlock(w: World, es: seq<Event>, n: Name, u: UUID)
    requires Inv(w) && Runs(w, es) && Owns(w, n, u) && !UnlockedIn(w, es, u)
    ensures Owns(After(w, es), n, u)
    decreases |es|
  {
    if es != [] {
      OwnerStep(w, es[0], n, u);
      StepKeepsInv(w, es[0]);
      OwnerChangesByUnlock(Step(w, es[0]), es[1..], n, u);
    }
  }

  // ---- what a reconcile that runs to its end achieves ---------------------------------------------------

  /** Every UUID of the cluster is on the reconcile's list. */
  ghost predicate Drains(w: World, n: Name) {
    n in w.procs && !w.procs[n].Latest? && forall u :: Owns(w, n, u) ==> u in WorkedOn(w.procs[n])
  }

  lemma ListedDrains(w: World, e: Event)
    requires Inv(w) && Enabled(w, e) && (e.StartRecycle? || e.ListOrphans?)
    ensures Drains(Step(w, e), e.n)
  {
    if e.ListOrphans? {
      WithoutKeeps(e.us, w.procs[e.n].keep);
    }
  }

  lemma DrainOwnStep(w: World, n: Name)
    requires Inv(w) && Drains(w, n) && n in Proceed(w, n).procs
    ensures Drains(Proceed(w, n), n)
  {
    var p, w' := w.procs[n], Proceed(w, n);
    if p.Unlocking? {
      assert p.rest == [p.rest[0]] + p.rest[1..];
      assert WorkedOn(w'.procs[n]) + {p.rest[0]} == WorkedOn(p);
    } else {
      assert w'.mutex == w.mutex;
      assert WorkedOn(w'.procs[n]) == WorkedOn(p);
    }
  }

  lemma DrainStep(w: World, e: Event, n: Name)
    requires Inv(w) && Enabled(w, e) && Drains(w, n) && !(e.LockUUID? && e.n == n) && n in Step(w, e).procs
    ensures Drains(Step(w, e), n)
  {
    if e.Advance? && e.n == n {
      DrainOwnStep(w, n);
    } else {
      assert Step(w, e).procs[n] == w.procs[n];
    }
  }

  /** The reconcile is still under way after each event, and none of them locks a UUID for its cluster. */
  ghost predicate Alone(w: World, es: seq<Event>, n: Name)
    requires Runs(w, es)
    decreases |es|
  {
    es != [] ==>
      var w' := Step(w, es[0]);
      !(es[0].LockUUID? && es[0].n == n) && n in w'.procs && Alone(w', es[1..], n)
  }

  lemma {:induction false} DrainRun(w: World, es: seq<Event>, n: Name)
    requires Inv(w) && Drains(w, n) && Runs(w, es) && Alone(w, es, n)
    ensures Inv(After(w, es)) && Drains(After(w, es), n)
    decreases |es|
  {
    if es != [] {
      DrainStep(w, es[0], n);
      StepKeepsInv(w, es[0]);
      DrainRun(Step(w, es[0]), es[1..], n);
    }
  }

  /** The last step of a reconcile that goes away leaves the cluster without any UUID. */
  lemma RecycleEnd(w: World, n: Name)
    requires Inv(w) && Drains(w, n) && w.procs[n] == Recycling([], None)
    ensures var w' := Proceed(w, n); n !in w'.procs && n !in w'.mutex.latest && forall u :: !Owns(w', n, u)
  {
    var w' := Proceed(w, n);
    assert w' == Done(w, n) && WorkedOn(w.procs[n]) == {};
    forall u
      ensures !Owns(w', n, u)
    {
      assert !Owns(w, n, u);
    }
    assert n in w.mutex.latest ==> Owns(w, n, w.mutex.latest[n]);
  }

  /** The last step of a guarding reconcile leaves the cluster with exactly the guarded UUID and a fresh, stopped
      daemon under it. */
  lemma GuardEnd(w: World, n: Name)
    requires Inv(w) && Drains(w, n) && w.procs[n].Registering?
    ensures var (w', keep) := (Proceed(w, n), w.procs[n].keep);
      && n !in w'.procs && (forall u :: Owns(w', n, u) <==> u == keep)
      && w'.hub.registered == w.hub.registered[keep := Daemon(w.next, n)] && keep !in w.hub.registered
      && Daemon(w.next, n) !in w'.hub.running
  {
    var w', keep := Proceed(w, n), w.procs[n].keep;
    assert ProcInv(w, n, w.procs[n]);
    forall u
      ensures Owns(w', n, u) <==> u == keep
    {
      assert Owns(w, n, u) ==> u in WorkedOn(w.procs[n]);
    }
    assert !w.hub.IsRegistered(Daemon(w.next, n));
  }

  /** A reconcile that lists its cluster's UUIDs and is not overtaken by a new lock of its cluster gets there,
      whatever else runs in between. */
  lemma ReconcileComplete(w: World, start: Event, es: seq<Event>, n: Name)
    requires Inv(w) && Enabled(w, start) && (start.StartRecycle? || start.ListOrphans?) && start.n == n
    requires Runs(Step(w, start), es) && Alone(Step(w, start), es, n)
    ensures var end := After(Step(w, start), es);
      && n in end.procs
      && (end.procs[n] == Recycling([], None) ==> forall u :: !Owns(Proceed(end, n), n, u))
      && (end.procs[n].Registering? ==>
        && (forall u :: Owns(Proceed(end, n), n, u) <==> u == end.procs[n].keep)
        && Proceed(end, n).hub.registered == end.hub.registered[end.procs[n].keep := Daemon(end.next, n)])
  {
    ListedDrains(w, start);
    StepKeepsInv(w, start);
    DrainRun(Step(w, start), es, n);
    var end := After(Step(w, start), es);
    if end.procs[n] == Recycling([], None) {
      RecycleEnd(end, n);
    } else if end.procs[n].Registering? {
      GuardEnd(end, n);
    }
  }
}
