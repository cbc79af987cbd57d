/**
One reconcile of a remote cluster from its start to its end (pkg/controllers/multicluster/remotecluster_controller.go):
in the protocol of `ClusterProtocol`, where anything may come in between, and on the objects, where nothing does.
*/
module ClusterReconcile {
  import opened Addresses
  import opened Finite
  import opened ClusterProtocol

  // ---- what a reconcile sets out to keep ------------------------------------------------------------------

  /** The UUID that is to have a daemon in the end, none when the cluster goes away. */
  function Target(p: Reconcile): (u: Option<UUID>) {
    match p
    case Recycling(_, guard) => guard
    case Stopping(_, guard) => guard
    case Unregistering(_, guard) => guard
    case Unlocking(_, guard) => guard
    case _ => Some(p.keep)
  }

  /** The hub refuses the call that the reconcile is about to make: nothing is registered to be stopped, or what is to
      be unregistered runs. */
  ghost predicate HubRefuses(h: Hub, p: Reconcile) {
    match p
    case Stopping(rest, _) => rest == [] || rest[0] !in h.registered
    case Unregistering(rest, _) => rest == [] || (rest[0] in h.registered && h.registered[rest[0]] in h.running)
    case GuardStopping(u) => u !in h.registered
    case GuardUnregistering(u) => u in h.registered && h.registered[u] in h.running
    case _ => false
  }

  lemma TargetAdvance(w: World, n: Name)
    requires n in w.procs && !w.procs[n].Latest? && n in Proceed(w, n).procs
    ensures Target(Proceed(w, n).procs[n]) == Target(w.procs[n])
  {
  }

  /** Whatever comes in between, a reconcile does not change its mind while it is under way. */
  lemma TargetStays(w: World, e: Event, n: Name)
    requires Enabled(w, e) && n in w.procs && n in Step(w, e).procs
    ensures Target(Step(w, e).procs[n]) == Target(w.procs[n])
  {
    if e.Advance? {
      if e.n == n {
        TargetAdvance(w, n);
      } else {
        assert Proceed(w, e.n).procs - {e.n} == w.procs - {e.n};
        assert n in w.procs - {e.n};
      }
    }
  }

  /** A reconcile that ends in a step of its own has done what it set out for, unless the hub refused that step: the
      UUID to keep is registered with a new daemon of the cluster, which does not run yet, and every other registration
      is as before the step. */
  lemma LeavesGuarded(w: World, n: Name)
    requires Inv(w) && Enabled(w, Advance(n)) && n !in Step(w, Advance(n)).procs && !HubRefuses(w.hub, w.procs[n])
    ensures var (w', u) := (Step(w, Advance(n)), Target(w.procs[n]));
      if u.Some? then
        && w'.hub.registered == w.hub.registered[u.value := Daemon(w.next, n)]
        && Daemon(w.next, n) !in w'.hub.running && Owns(w', n, u.value)
      else w'.hub == w.hub && w'.mutex == w.mutex && w.procs[n] == Recycling([], None)
  {
    assert ProcInv(w, n, w.procs[n]);
    if w.procs[n].Registering? {
      assert !w.hub.IsRegistered(Daemon(w.next, n));
    }
  }

  /** The reconcile is under way after each event. */
  ghost predicate UnderWay(w: World, es: seq<Event>, n: Name)
    requires Runs(w, es)
    decreases |es|
  {
    n in w.procs && (es != [] ==> UnderWay(Step(w, es[0]), es[1..], n))
  }

  lemma {:induction false} TargetRun(w: World, es: seq<Event>, n: Name)
    requires Inv(w) && Runs(w, es) && UnderWay(w, es, n)
    ensures Inv(After(w, es)) && n in After(w, es).procs && Target(After(w, es).procs[n]) == Target(w.procs[n])
    decreases |es|
  {
    if es != [] {
      StepKeepsInv(w, es[0]);
      TargetStays(w, es[0], n);
      TargetRun(Step(w, es[0]), es[1..], n);
    }
  }

  /** Over every run: once a reconcile has set out to keep a UUID it can end, apart from failures, only with that UUID
      registered for its cluster. */
  lemma GuardedInTheEnd(w: World, es: seq<Event>, n: Name)
    requires Inv(w) && Runs(w, es) && UnderWay(w, es, n) && Target(w.procs[n]).Some?
    requires Enabled(After(w, es), Advance(n)) && n !in Step(After(w, es), Advance(n)).procs
    ensures var (end, u) := (After(w, es), Target(w.procs[n]).value);
      var h := Step(end, Advance(n)).hub;
      HubRefuses(end.hub, end.procs[n]) || (u in h.registered && h.registered[u] == Daemon(end.next, n))
  {
    TargetRun(w, es, n);
    if !HubRefuses(After(w, es).hub, After(w, es).procs[n]) {
      LeavesGuarded(After(w, es), n);
    }
  }

  // ---- a reconcile that nothing interferes with ------------------------------------------------------------

  function Lookup<K, V>(m: map<K, V>, k: K): (v: Option<V>) {
    if k in m then Some(m[k]) else None
  }

  ghost function HolderIn(w: World, u: UUID): (n: Option<Name>) {
    Lookup(w.mutex.idName, u)
  }

  ghost function LatestIn(w: World, n: Name): (u: Option<UUID>) {
    Lookup(w.mutex.latest, n)
  }

  ghost function UnderIn(w: World, u: UUID): (d: Option<Daemon>) {
    Lookup(w.hub.registered, u)
  }

  /** What a complete reconcile of a cluster makes of the lock and the hub. `status` is the UUID to keep, none when the
      cluster goes away. The cluster holds that UUID alone, with a fresh daemon that does not run; its other UUIDs are
      free and without a daemon, none of its daemons runs, and no other cluster notices. */
  ghost predicate Reconciled(w: World, w': World, n: Name, status: Option<UUID>) {
    && (forall v :: HolderIn(w, v) != Some(n) ==> HolderIn(w', v) == HolderIn(w, v) && UnderIn(w', v) == UnderIn(w, v))
    && (forall v :: HolderIn(w, v) == Some(n) && status != Some(v) ==> HolderIn(w', v).None? && UnderIn(w', v).None?)
    && (status.Some? ==>
          HolderIn(w', status.value) == Some(n) && UnderIn(w', status.value) == Some(Daemon(w.next, n)))
    && w'.next == w.next + (if status.Some? then 1 else 0)
    && (forall d :: d in w'.hub.running <==> d in w.hub.running && d.cluster != n)
    && LatestIn(w', n) == status && (forall m :: m != n ==> LatestIn(w', m) == LatestIn(w, m))
  }

  lemma SameMap<K(!new), V>(a: map<K, V>, b: map<K, V>)
    requires forall k :: Lookup(a, k) == Lookup(b, k)
    ensures a == b
  {
    forall k
      ensures k in a <==> k in b
      ensures k in a && k in b ==> a[k] == b[k]
    {
      assert Lookup(a, k) == Lookup(b, k);
    }
  }

  /** That leaves nothing open. */
  lemma ReconciledDetermines(w: World, a: World, b: World, n: Name, status: Option<UUID>)
    requires Reconciled(w, a, n, status) && Reconciled(w, b, n, status)
    requires status.Some? ==> HolderIn(w, status.value) == Some(n)
    ensures a.mutex == b.mutex && a.hub == b.hub && a.next == b.next
  {
    forall v
      ensures Lookup(a.mutex.idName, v) == Lookup(b.mutex.idName, v)
      ensures Lookup(a.hub.registered, v) == Lookup(b.hub.registered, v)
    {
      assert HolderIn(a, v) == HolderIn(b, v) && UnderIn(a, v) == UnderIn(b, v);
    }
    forall m
      ensures Lookup(a.mutex.latest, m) == Lookup(b.mutex.latest, m)
    {
      assert LatestIn(a, m) == LatestIn(b, m);
    }
    SameMap(a.mutex.idName, b.mutex.idName);
    SameMap(a.mutex.latest, b.mutex.latest);
    SameMap(a.hub.registered, b.hub.registered);
    assert a.hub.running == b.hub.running;
  }

  /** The hub will not refuse: nobody else has touched the daemon being killed. */
  ghost predicate Steady(h: Hub, p: Reconcile) {
    match p
    case Stopping(rest, _) => rest != [] && rest[0] in h.registered
    case Unregistering(rest, _) => rest != [] && rest[0] in h.registered && h.registered[rest[0]] !in h.running
    case GuardStopping(u) => u in h.registered
    case GuardUnregistering(u) => u in h.registered && h.registered[u] !in h.running
    case _ => true
  }

  /** How many steps are left at most: four for each orphan and five for the UUID to keep. */
  function StepsLeft(p: Reconcile): (k: nat)
    requires !p.Latest?
  {
    match p
    case Recycling(rest, _) => 4 * |rest| + 5
    case Stopping(rest, _) => 4 * |rest| + 4
    case Unregistering(rest, _) => 4 * |rest| + 3
    case Unlocking(rest, _) => 4 * |rest| + 2
    case Guarding(_) => 4
    case GuardStopping(_) => 3
    case GuardUnregistering(_) => 2
    case Registering(_) => 1
  }

  /** The reconcile is under way with every UUID of its cluster on its list and its latest UUID the one to keep, and
      nothing has come in between. */
  ghost predicate OnItsWay(w: World, n: Name) {
    && Inv(w) && Drains(w, n) && Steady(w.hub, w.procs[n])
    && (Target(w.procs[n]).Some? ==> LatestIn(w, n) == Target(w.procs[n]))
  }

  /** The step changes nothing but the daemon, or the lock, of one UUID of the cluster. */
  ghost predicate OwnChange(w: World, w': World, n: Name) {
    && w'.next == w.next && LatestIn(w', n) in {LatestIn(w, n), None}
    && (forall m :: m != n ==> LatestIn(w', m) == LatestIn(w, m))
    && (forall v :: HolderIn(w, v) != Some(n) ==> HolderIn(w', v) == HolderIn(w, v) && UnderIn(w', v) == UnderIn(w, v))
    && (forall v :: HolderIn(w, v) == Some(n) ==> HolderIn(w', v) in {Some(n), None})
    && (forall v :: HolderIn(w, v) == Some(n) && HolderIn(w', v).None? ==> UnderIn(w', v).None?)
    && (forall d :: d in w'.hub.running ==> d in w.hub.running)
    && (forall d :: d in w.hub.running && d.cluster != n ==> d in w'.hub.running)
  }

  lemma StopChange(w: World, w': World, n: Name, u: UUID)
    requires Inv(w) && Owns(w, n, u) && u in w.hub.registered
    requires w'.mutex == w.mutex && w'.next == w.next && w'.hub == w.hub.Stop(u).0
    ensures OwnChange(w, w', n)
  {
    assert w.hub.registered[u].cluster == n;
  }

  lemma UnregisterChange(w: World, w': World, n: Name, u: UUID)
    requires Inv(w) && Owns(w, n, u)
    requires w'.mutex == w.mutex && w'.next == w.next && w'.hub == w.hub.Unregister(u).0
    ensures OwnChange(w, w', n)
  {
  }

  lemma UnlockChange(w: World, w': World, n: Name, u: UUID)
    requires Inv(w) && Owns(w, n, u) && u !in w.hub.registered
    requires w'.mutex == w.mutex.Unlock(u).0 && w'.next == w.next && w'.hub == w.hub
    ensures OwnChange(w, w', n)
  {
  }

  ghost predicate AtTheEnd(p: Reconcile) {
    p == Recycling([], None) || p.Registering?
  }

  lemma StepChange(w: World, n: Name)
    requires OnItsWay(w, n) && !AtTheEnd(w.procs[n])
    ensures OwnChange(w, Proceed(w, n), n)
  {
    var p, w' := w.procs[n], Proceed(w, n);
    assert ProcInv(w, n, p);
    match p
    case Stopping(rest, _) => StopChange(w, w', n, rest[0]);
    case Unregistering(rest, _) => UnregisterChange(w, w', n, rest[0]);
    case Unlocking(rest, _) => UnlockChange(w, w', n, rest[0]);
    case GuardStopping(u) => StopChange(w, w', n, u);
    case GuardUnregistering(u) => UnregisterChange(w, w', n, u);
    case _ =>
  }

  lemma StepGoesOn(w: World, n: Name)
    requires n in w.procs && ProcInv(w, n, w.procs[n]) && Steady(w.hub, w.procs[n])
    requires !w.procs[n].Latest? && !AtTheEnd(w.procs[n])
    ensures var w' := Proceed(w, n);
      && n in w'.procs && !w'.procs[n].Latest? && w'.procs - {n} == w.procs - {n} && Steady(w'.hub, w'.procs[n])
      && StepsLeft(w'.procs[n]) < StepsLeft(w.procs[n])
  {
  }

  lemma LatestStays(w: World, n: Name, u: UUID)
    requires n in w.procs && ProcInv(w, n, w.procs[n]) && Steady(w.hub, w.procs[n])
    requires !w.procs[n].Latest? && Target(w.procs[n]) == Some(u) && LatestIn(w, n) == Some(u)
    ensures LatestIn(Proceed(w, n), n) == Some(u)
  {
  }

  /** A step that is not the last one goes on towards the end. */
  lemma StepOn(w: World, n: Name)
    requires OnItsWay(w, n) && !AtTheEnd(w.procs[n])
    ensures var w' := Proceed(w, n);
      && OnItsWay(w', n) && Target(w'.procs[n]) == Target(w.procs[n])
      && StepsLeft(w'.procs[n]) < StepsLeft(w.procs[n]) && w'.procs - {n} == w.procs - {n}
  {
    assert ProcInv(w, n, w.procs[n]);
    StepGoesOn(w, n);
    TargetAdvance(w, n);
    DrainOwnStep(w, n);
    StepKeepsInv(w, Advance(n));
    assert Step(w, Advance(n)) == Proceed(w, n);
    if Target(w.procs[n]).Some? {
      LatestStays(w, n, Target(w.procs[n]).value);
    }
  }

  /** The last step. */
  lemma LastStep(w: World, n: Name)
    requires OnItsWay(w, n) && AtTheEnd(w.procs[n])
    ensures Proceed(w, n).procs == w.procs - {n} && Reconciled(w, Proceed(w, n), n, Target(w.procs[n]))
  {
    if w.procs[n].Registering? {
      GuardEnd(w, n);
    } else {
      RecycleEnd(w, n);
    }
    forall v | HolderIn(w, v) == Some(n)
      ensures Target(w.procs[n]) == Some(v)
    {
      assert Owns(w, n, v);
      assert v in WorkedOn(w.procs[n]);
    }
    forall d | d in w.hub.running
      ensures d.cluster != n
    {
      assert w.hub.IsRegistered(d);
      var u :| u in w.hub.registered && w.hub.registered[u] == d;
      assert Owns(w, d.cluster, u);
    }
  }

  /** What is right after a step of the cluster's own was right before it. */
  lemma Backwards(w: World, w1: World, w': World, n: Name, status: Option<UUID>)
    requires OwnChange(w, w1, n) && Reconciled(w1, w', n, status)
    requires status.Some? ==> HolderIn(w, status.value) == Some(n)
    ensures Reconciled(w, w', n, status)
  {
  }

  lemma Before(w: World, e: Event, es: seq<Event>)
    requires Enabled(w, e) && Runs(Step(w, e), es)
    ensures Runs(w, [e] + es) && After(w, [e] + es) == After(Step(w, e), es)
  {
    assert ([e] + es)[1..] == es;
  }

  /** Left alone, the reconcile ends after a bounded number of steps, and complete. */
  lemma {:induction false} SoloRun(w: World, n: Name) returns (es: seq<Event>)
    requires OnItsWay(w, n)
    ensures |es| <= StepsLeft(w.procs[n]) && (forall i :: 0 <= i < |es| ==> es[i] == Advance(n)) && Runs(w, es)
    ensures After(w, es).procs == w.procs - {n} && Reconciled(w, After(w, es), n, Target(w.procs[n]))
    decreases StepsLeft(w.procs[n])
  {
    var w1 := Proceed(w, n);
    if AtTheEnd(w.procs[n]) {
      LastStep(w, n);
      Before(w, Advance(n), []);
      es := [Advance(n)] + [];
    } else {
      StepOn(w, n);
      StepChange(w, n);
      var rest := SoloRun(w1, n);
      Before(w, Advance(n), rest);
      es := [Advance(n)] + rest;
      Backwards(w, w1, After(w1, rest), n, Target(w.procs[n]));
    }
  }

  lemma {:induction false} WithoutShorter(us: seq<UUID>, u: UUID)
    ensures |Without(us, u)| <= |us|
  {
    if us != [] {
      WithoutShorter(us[1..], u);
    }
  }

  /** Where a reconcile starts on its list, it is on its way. */
  lemma ListedOnItsWay(w: World, e: Event)
    requires Inv(w) && Enabled(w, e) && (e.StartRecycle? || e.ListOrphans?)
    requires e.ListOrphans? ==> LatestIn(w, e.n) == Some(w.procs[e.n].keep)
    ensures OnItsWay(Step(w, e), e.n)
  {
    ListedDrains(w, e);
    StepKeepsInv(w, e);
  }

  /** Reconciles that differ only in what else is under way. */
  lemma SameStart(w: World, w1: World, w': World, n: Name, status: Option<UUID>)
    requires w1 == w.(procs := w1.procs) && Reconciled(w1, w', n, status)
    ensures Reconciled(w, w', n, status)
  {
  }

  lemma WholeRecycle(w: World, n: Name, us: seq<UUID>) returns (es: seq<Event>)
    requires Inv(w) && n !in w.procs && OwnedBy(w.mutex, n, us)
    ensures |es| <= 4 * |us| + 7 && Runs(w, es)
    ensures forall i :: 0 <= i < |es| ==> es[i] == StartRecycle(n, us) || es[i] == Advance(n)
    ensures After(w, es).procs == w.procs && Reconciled(w, After(w, es), n, None)
  {
    var w1 := Step(w, StartRecycle(n, us));
    ListedOnItsWay(w, StartRecycle(n, us));
    var rest := SoloRun(w1, n);
    Before(w, StartRecycle(n, us), rest);
    es := [StartRecycle(n, us)] + rest;
    assert w1.procs - {n} == w.procs;
    SameStart(w, w1, After(w1, rest), n, None);
  }

  lemma WholeGuard(w: World, n: Name, u: UUID, us: seq<UUID>) returns (es: seq<Event>)
    requires Inv(w) && n !in w.procs && OwnedBy(w.mutex, n, us) && LatestIn(w, n) == Some(u)
    ensures |es| <= 4 * |us| + 7 && Runs(w, es)
    ensures forall i :: 0 <= i < |es| ==> es[i] == StartGuard(n) || es[i] == ListOrphans(n, us) || es[i] == Advance(n)
    ensures After(w, es).procs == w.procs && Reconciled(w, After(w, es), n, Some(u))
  {
    var w1 := Step(w, StartGuard(n));
    StepKeepsInv(w, StartGuard(n));
    var w2 := Step(w1, ListOrphans(n, us));
    ListedOnItsWay(w1, ListOrphans(n, us));
    WithoutShorter(us, u);
    var rest := SoloRun(w2, n);
    Before(w1, ListOrphans(n, us), rest);
    Before(w, StartGuard(n), [ListOrphans(n, us)] + rest);
    es := [StartGuard(n)] + ([ListOrphans(n, us)] + rest);
    assert w2.procs - {n} == w.procs;
    SameStart(w, w2, After(w2, rest), n, Some(u));
  }

  /** The event is one of the cluster's own reconcile, and no failure. */
  predicate OwnEvent(e: Event, n: Name) {
    (e.StartRecycle? || e.StartGuard? || e.ListOrphans? || e.Advance?) && e.n == n
  }

  /** Every reconcile of a cluster, started when none of it is under way and its status names the latest UUID or none,
      ends complete if nothing comes in between: after at most four steps for each of its UUIDs and seven more. */
  lemma WholeReconcile(w: World, n: Name, status: Option<UUID>, us: seq<UUID>) returns (es: seq<Event>)
    requires Inv(w) && n !in w.procs && OwnedBy(w.mutex, n, us) && (status.Some? ==> LatestIn(w, n) == status)
    ensures |es| <= 4 * |us| + 7 && Runs(w, es)
    ensures forall i :: 0 <= i < |es| ==> OwnEvent(es[i], n)
    ensures After(w, es).procs == w.procs && Reconciled(w, After(w, es), n, status)
  {
    if status.None? {
      es := WholeRecycle(w, n, us);
    } else {
      es := WholeGuard(w, n, status.value, us);
    }
  }

  // ---- the reconciler on the objects, without interference ------------------------------------------------

  /** The UUID is one of the first `i` on the list, and not the one to keep. */
  ghost predicate Recycled(us: seq<UUID>, i: nat, keep: Option<UUID>, u: UUID)
    requires i <= |us|
  {
    u in us[..i] && keep != Some(u)
  }

  /** None of the cluster's daemons runs, since each that did was registered under one of its UUIDs. */
  lemma RunningExact(w: World, w1: World, w': World, n: Name, status: Option<UUID>)
    requires Shared(w) && Shared(w') && forall v :: HolderIn(w', v) == Some(n) ==> status == Some(v)
    requires status.Some? ==> HolderIn(w, status.value) == Some(n)
    requires status.Some? ==> UnderIn(w1, status.value) == UnderIn(w, status.value)
    requires forall d :: d in w1.hub.running ==> d in w.hub.running
    requires forall d :: d in w.hub.running && d.cluster != n ==> d in w1.hub.running
    requires status.None? ==> w'.hub == w1.hub
    requires status.Some? ==>
               && UnderIn(w', status.value).Some? && UnderIn(w', status.value).value !in w'.hub.running
               && (forall d :: d in w'.hub.running <==>
                     (d in w1.hub.running && UnderIn(w1, status.value) != Some(d)))
    ensures forall d :: d in w'.hub.running <==> d in w.hub.running && d.cluster != n
  {
    forall d | d in w'.hub.running
      ensures d.cluster != n
    {
      assert w'.hub.IsRegistered(d);
      var u :| u in w'.hub.registered && w'.hub.registered[u] == d;
      assert Owns(w', d.cluster, u) && UnderIn(w', u) == Some(d);
      assert HolderIn(w', u) == Some(d.cluster);
    }
    assert status.Some? && UnderIn(w, status.value).Some? ==> UnderIn(w, status.value).value.cluster == n;
  }

  /** The worlds before a reconcile, after the orphans are gone, and at the end. */
  lemma OrphansThenGuard(w: World, w1: World, w': World, n: Name, us: seq<UUID>, status: Option<UUID>)
    requires Shared(w) && Shared(w') && OwnedBy(w.mutex, n, us) && (status.Some? ==> LatestIn(w, n) == status)
    requires forall v :: if Recycled(us, |us|, status, v) then HolderIn(w1, v).None? && UnderIn(w1, v).None?
                         else HolderIn(w1, v) == HolderIn(w, v) && UnderIn(w1, v) == UnderIn(w, v)
    requires forall m :: m != n || LatestIn(w, m) == status ==> LatestIn(w1, m) == LatestIn(w, m)
    requires w1.next == w.next && forall d :: d in w1.hub.running ==> d in w.hub.running
    requires forall d :: d in w.hub.running && d.cluster != n ==> d in w1.hub.running
    requires status.None? ==> w' == w1
    requires status.Some? ==>
               && w'.mutex == w1.mutex && w'.next == w1.next + 1
               && UnderIn(w', status.value) == Some(Daemon(w1.next, n)) && Daemon(w1.next, n) !in w'.hub.running
               && (forall v :: v != status.value ==> UnderIn(w', v) == UnderIn(w1, v))
               && (forall d :: d in w'.hub.running <==>
                     (d in w1.hub.running && UnderIn(w1, status.value) != Some(d)))
    ensures Reconciled(w, w', n, status)
  {
    assert us[..|us|] == us;
    forall v
      ensures Recycled(us, |us|, status, v) <==> HolderIn(w, v) == Some(n) && status != Some(v)
    {
      assert v in us <==> HolderIn(w, v) == Some(n);
    }
    RunningExact(w, w1, w', n, status);
  }

  class Reconciler {
    const mutex: UUIDMutex
    const hub: DaemonHub
    var next: nat

    constructor (mutex: UUIDMutex, hub: DaemonHub)
      ensures this.mutex == mutex && this.hub == hub && next == 0
    {
      this.mutex, this.hub, next := mutex, hub, 0;
    }

    ghost function State(): (w: World)
      reads this, mutex, hub
    {
      World(mutex.State(), hub.State(), next, map[])
    }

    /** The objects and the world tell the same. */
    ghost predicate AsWorld()
      reads this, mutex, hub
    {
      && (forall v :: HolderIn(State(), v) == mutex.Holder(v) && UnderIn(State(), v) == hub.Under(v))
      && (forall m :: LatestIn(State(), m) == mutex.LatestOf(m))
    }

    /** The shared state of the protocol's invariant. */
    ghost predicate Valid()
      reads this, mutex, hub
    {
      Shared(State())
    }

    /** Nothing is registered under the ID any more; other daemons are as they were. Left alone, it cannot fail. */
    method KillDaemon(u: UUID) returns (ok: bool)
      requires Valid()
      modifies hub
      ensures ok && Valid() && hub.Under(u).None?
      ensures forall v :: v != u ==> hub.Under(v) == old(hub.Under(v))
      ensures forall d :: d in hub.running <==> d in old(hub.running) && old(hub.Under(u)) != Some(d)
    {
      var registered := hub.IsRegistered(u);
      if !registered {
        return true;
      }
      ok := hub.Stop(u);
      if !ok {
        return;
      }
      ok := hub.Unregister(u);
    }

    /** One orphan: its daemon is gone, then the UUID is free. */
    method RecycleOne(u: UUID) returns (ok: bool)
      requires Valid()
      modifies hub, mutex
      ensures ok && Valid() && hub.Under(u).None? && mutex.Holder(u).None?
      ensures forall v :: v != u ==> hub.Under(v) == old(hub.Under(v)) && mutex.Holder(v) == old(mutex.Holder(v))
      ensures forall m :: old(mutex.LatestOf(m)) != Some(u) ==> mutex.LatestOf(m) == old(mutex.LatestOf(m))
      ensures forall d :: d in hub.running <==> d in old(hub.running) && old(hub.Under(u)) != Some(d)
    {
      ok := KillDaemon(u);
      if !ok {
        return;
      }
      var _ := mutex.Unlock(u);
    }

    /** The UUIDs on the list, but for the one to keep, are free and without a daemon; all others are as they were, and
        so are the daemons of other clusters. */
    method RecycleOrphans(n: Name, us: seq<UUID>, keep: Option<UUID>) returns (ok: bool)
      requires Valid() && OwnedBy(mutex.State(), n, us)
      modifies hub, mutex
      ensures ok && Valid()
      ensures forall v :: if Recycled(us, |us|, keep, v) then mutex.Holder(v).None? && hub.Under(v).None?
                          else mutex.Holder(v) == old(mutex.Holder(v)) && hub.Under(v) == old(hub.Under(v))
      ensures forall m :: m != n || old(mutex.LatestOf(m)) == keep ==> mutex.LatestOf(m) == old(mutex.LatestOf(m))
      ensures forall d :: d in hub.running ==> d in old(hub.running)
      ensures forall d :: d in old(hub.running) && d.cluster != n ==> d in hub.running
    {
      for i := 0 to |us|
        invariant Valid()
        invariant forall v :: if Recycled(us, i, keep, v) then mutex.Holder(v).None? && hub.Under(v).None?
                              else mutex.Holder(v) == old(mutex.Holder(v)) && hub.Under(v) == old(hub.Under(v))
        invariant forall m :: m != n || old(mutex.LatestOf(m)) == keep ==> mutex.LatestOf(m) == old(mutex.LatestOf(m))
        invariant forall d :: d in hub.running ==> d in old(hub.running)
        invariant forall d :: d in old(hub.running) && d.cluster != n ==> d in hub.running
      {
        assert forall v :: Recycled(us, i + 1, keep, v) <==>
                 (Recycled(us, i, keep, v) || (v == us[i] && keep != Some(v)));
        if keep != Some(us[i]) {
          assert us[i] in us && old(mutex.Holder(us[i])) == Some(n);
          assert !Recycled(us, i, keep, us[i]);
          ok := RecycleOne(us[i]);
          if !ok {
            return;
          }
        }
      }
      return true;
    }

    /** The UUID of a cluster gets a fresh daemon, in place of any it had. */
    method GuardDaemon(n: Name, u: UUID) returns (ok: bool)
      requires Valid() && mutex.Holder(u) == Some(n)
      modifies this, hub
      ensures ok && Valid() && next == old(next) + 1
      ensures hub.Under(u) == Some(Daemon(old(next), n)) && Daemon(old(next), n) !in hub.running
      ensures forall v :: v != u ==> hub.Under(v) == old(hub.Under(v))
      ensures forall d :: d in hub.running <==> d in old(hub.running) && old(hub.Under(u)) != Some(d)
    {
      ok := KillDaemon(u);
      if !ok {
        return;
      }
      ok := hub.Register(u, Daemon(next, n));
      next := next + 1;
    }

    /** One reconcile that nothing interferes with. `status` is the UUID in the cluster's status, none when the cluster
        goes away or has none; `ready` says whether the API server and the remote cluster let it finish. It gets
        through exactly if the status names the latest UUID of the cluster, and is then complete; with an outdated
        status it changes nothing, and even where it breaks off no other cluster notices. */
    method Reconcile(n: Name, status: Option<UUID>, ready: bool) returns (ok: bool)
      requires Valid()
      modifies this, mutex, hub
      ensures Valid()
      ensures ok <==> ready && (status.Some? ==> old(mutex.LatestOf(n)) == status)
      ensures status.Some? && old(mutex.LatestOf(n)) != status ==> State() == old(State())
      ensures ok ==> Reconciled(old(State()), State(), n, status)
      ensures forall v :: old(mutex.Holder(v)) != Some(n) ==>
                mutex.Holder(v) == old(mutex.Holder(v)) && hub.Under(v) == old(hub.Under(v))
      ensures forall d: Daemon :: d.cluster != n ==> (d in hub.running <==> d in old(hub.running))
    {
      if status.Some? {
        var latest := mutex.GetLatestUUID(n);
        if latest != status {
          return false;
        }
      }
      var us := mutex.GetUUIDs(n);
      assert us[..|us|] == us;
      assert AsWorld();
      ok := RecycleOrphans(n, us, status);
      assert AsWorld();
      ghost var w1 := State();
      if !ok || !ready {
        return false;
      }
      if status.Some? {
        ok := GuardDaemon(n, status.value);
      }
      assert AsWorld();
      OrphansThenGuard(old(State()), w1, State(), n, us, status);
    }
  }
}
