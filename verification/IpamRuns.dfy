/**
What runs of allocator operations keep: the invariant of every subnet and the owner of every address
that is not released or reserved.
*/
module IpamRuns {
  import opened Addresses
  import opened Ipam
  import opened IpamNetwork
  import opened IpamOutcomes

  // ---- one step never takes an address from its owner -----------------------------------------------

  /** From `s` to `t`, the subnet stays the same subnet and no allocated address of it outside
      `touched`, which names subnets and addresses, changes its owner. */
  ghost predicate Keeps(s: Subnet, t: Subnet, touched: set<Suite>) {
    && t.spec == s.spec && t.avail.ips == s.avail.ips
    && (s.Inv() ==> t.Inv())
    && forall a :: a in s.using && Suite(s.spec.name, a) !in touched && s.using[a].status == Allocated ==>
                     a in t.using && t.using[a].status == Allocated && t.using[a].pod == s.using[a].pod
  }

  ghost predicate SliceKeeps(s: Slice, t: Slice, touched: set<Suite>) {
    && |t.subnets| == |s.subnets| && t.names == s.names && (s.Valid() ==> t.Valid())
    && forall i :: 0 <= i < |s.subnets| ==> Keeps(s.subnets[i], t.subnets[i], touched)
  }

  ghost predicate NetKeeps(n: Network, m: Network, touched: set<Suite>) {
    SliceKeeps(n.v4, m.v4, touched) && SliceKeeps(n.v6, m.v6, touched)
  }

  lemma SliceKeepsTransitive(s: Slice, t: Slice, u: Slice, touched: set<Suite>)
    requires SliceKeeps(s, t, touched) && SliceKeeps(t, u, touched)
    ensures SliceKeeps(s, u, touched)
  {
    forall i | 0 <= i < |s.subnets|
      ensures Keeps(s.subnets[i], u.subnets[i], touched)
    {
      assert Keeps(s.subnets[i], t.subnets[i], touched) && Keeps(t.subnets[i], u.subnets[i], touched);
    }
  }

  lemma NetKeepsTransitive(n: Network, m: Network, k: Network, touched: set<Suite>)
    requires NetKeeps(n, m, touched) && NetKeeps(m, k, touched)
    ensures NetKeeps(n, k, touched)
  {
    SliceKeepsTransitive(n.v4, m.v4, k.v4, touched);
    SliceKeepsTransitive(n.v6, m.v6, k.v6, touched);
  }

  lemma SlicePutKeeps(s: Slice, i: nat, cursor: nat, t: Subnet, touched: set<Suite>)
    requires i < |s.subnets| && cursor < |s.subnets| && Keeps(s.subnets[i], t, touched)
    ensures SliceKeeps(s, Slice(s.subnets[i := t], cursor, s.names), touched)
  {
  }

  lemma SliceSameKeeps(s: Slice, touched: set<Suite>)
    ensures SliceKeeps(s, s, touched)
  {
  }

  lemma SideKeeps(n: Network, six: bool, s: Slice, touched: set<Suite>)
    requires SliceKeeps(n.Side(six), s, touched)
    ensures NetKeeps(n, n.WithSide(six, s), touched)
  {
    SliceSameKeeps(n.Side(!six), touched);
  }

  lemma PutKeeps(n: Network, six: bool, i: nat, t: Subnet, touched: set<Suite>)
    requires n.Valid() && i < |n.Side(six).subnets| && Keeps(n.Side(six).subnets[i], t, touched)
    ensures NetKeeps(n, n.PutAt(six, i, t), touched)
  {
    SlicePutKeeps(n.Side(six), i, n.Side(six).index, t, touched);
    SideKeeps(n, six, n.Side(six).Put(i, t), touched);
  }

  lemma AllocateKeeps(s: Subnet, pod: Pod)
    requires s.Inv()
    ensures Keeps(s, s.AllocateNext(pod).0, {})
  {
    AllocateNextOutcome(s, pod);
  }

  /** A subnet of a slice changed, the cursor moved to it if it was found by availability. */
  lemma PointPutKeeps(s: Slice, name: string, i: nat, t: Subnet, touched: set<Suite>)
    requires s.Valid() && i < |s.subnets| && Keeps(s.subnets[i], t, touched)
    ensures SliceKeeps(s, s.Point(name, i).Put(i, t), touched)
  {
    SlicePutKeeps(s, i, if name == "" then i else s.index, t, touched);
  }

  lemma AllocateOneKeeps(n: Network, six: bool, names: seq<string>, pod: Pod)
    requires n.Inv()
    ensures NetKeeps(n, AllocateOne(n, six, names, pod).0, {})
  {
    var name := if names == [] then "" else names[0];
    var s := n.Side(six);
    var found := s.Select(name, six);
    if |names| > 1 || found.None? {
      SliceSameKeeps(s, {});
      SideKeeps(n, six, s, {});
    } else {
      var i := found.value;
      AllocateKeeps(s.subnets[i], pod);
      PointPutKeeps(s, name, i, s.subnets[i].AllocateNext(pod).0, {});
      SideKeeps(n, six, s.Point(name, i).Put(i, s.subnets[i].AllocateNext(pod).0), {});
    }
  }

  lemma RollbackKeeps(s: Subnet, pod: Pod)
    requires s.Inv() && s.AllocateNext(pod).1.Some?
    ensures Keeps(s, s.AllocateNext(pod).0.Release(s.AllocateNext(pod).1.value.addr), {})
    ensures s.AllocateNext(pod).0.Release(s.AllocateNext(pod).1.value.addr).using == s.using
  {
    AllocateNextOutcome(s, pod);
    var (t, ip) := s.AllocateNext(pod);
    ReleaseUndoesTake(s, t, ip.value, pod);
  }

  lemma PutBothKeeps(n: Network, i: nat, t4: Subnet, j: nat, t6: Subnet)
    requires n.Valid() && i < |n.v4.subnets| && j < |n.v6.subnets|
    requires Keeps(n.v4.subnets[i], t4, {}) && Keeps(n.v6.subnets[j], t6, {})
    ensures NetKeeps(n, n.PutAt(false, i, t4).PutAt(true, j, t6), {})
  {
    SlicePutKeeps(n.v4, i, n.v4.index, t4, {});
    SlicePutKeeps(n.v6, j, n.v6.index, t6, {});
  }

  lemma TakeBothKeeps(n: Network, i: nat, j: nat, pod: Pod)
    requires n.Inv() && i < |n.v4.subnets| && j < |n.v6.subnets|
    ensures NetKeeps(n, TakeBoth(n, i, j, pod).0, {})
  {
    var r4, r6 := n.v4.subnets[i].AllocateNext(pod), n.v6.subnets[j].AllocateNext(pod);
    AllocateKeeps(n.v4.subnets[i], pod);
    AllocateKeeps(n.v6.subnets[j], pod);
    if r4.1.None? {
      PutKeeps(n, false, i, r4.0, {});
    } else if r6.1.None? {
      RollbackKeeps(n.v4.subnets[i], pod);
      PutBothKeeps(n, i, r4.0.Release(r4.1.value.addr), j, r6.0);
    } else {
      PutBothKeeps(n, i, r4.0, j, r6.0);
    }
  }

  lemma PointKeeps(s: Slice, name: string, i: nat)
    requires s.Valid() && i < |s.subnets|
    ensures SliceKeeps(s, s.Point(name, i), {})
  {
  }

  lemma PointKeepsInv(s: Slice, name: string, i: nat)
    requires s.Inv() && i < |s.subnets|
    ensures s.Point(name, i).Inv()
  {
  }

  lemma DualFoundKeeps(n: Network, name4: string, i: nat, name6: string, j: nat, pod: Pod)
    requires n.Inv() && i < |n.v4.subnets| && j < |n.v6.subnets|
    ensures var m := Network(n.v4.Point(name4, i), n.v6.Point(name6, j));
      m.Inv() && NetKeeps(n, TakeBoth(m, i, j, pod).0, {})
  {
    var m := Network(n.v4.Point(name4, i), n.v6.Point(name6, j));
    PointKeeps(n.v4, name4, i);
    PointKeeps(n.v6, name6, j);
    PointKeepsInv(n.v4, name4, i);
    PointKeepsInv(n.v6, name6, j);
    TakeBothKeeps(m, i, j, pod);
    NetKeepsTransitive(n, m, TakeBoth(m, i, j, pod).0, {});
  }

  lemma AllocateDualKeeps(n: Network, names: seq<string>, pod: Pod)
    requires n.Inv()
    ensures NetKeeps(n, AllocateDual(n, names, pod).0, {})
  {
    SliceSameKeeps(n.v4, {});
    SliceSameKeeps(n.v6, {});
    if |names| == 0 || |names| == 2 {
      var name4, name6 := if names == [] then "" else names[0], if names == [] then "" else names[1];
      var found4, found6 := n.v4.Select(name4, false), n.v6.Select(name6, true);
      if found4.Some? {
        if found6.Some? {
          DualFoundKeeps(n, name4, found4.value, name6, found6.value, pod);
        } else {
          PointKeeps(n.v4, name4, found4.value);
        }
      }
    }
  }

  lemma AssignKeeps(s: Subnet, pod: Pod, a: Addr, forced: bool)
    ensures Keeps(s, s.Assign(pod, a, forced).0, {})
  {
  }

  lemma AssignAtKeeps(n: Network, s: Suite, pod: Pod, forced: bool)
    requires n.Valid()
    ensures NetKeeps(n, AssignAt(n, s, pod, forced).0, {})
  {
    var p := n.ByNameOrIP(s.subnet, s.ip);
    if p.None? {
      SliceSameKeeps(n.v4, {});
      SliceSameKeeps(n.v6, {});
    } else {
      var (six, i) := p.value;
      AssignKeeps(n.Side(six).subnets[i], pod, s.ip, forced);
      PutKeeps(n, six, i, n.Side(six).subnets[i].Assign(pod, s.ip, forced).0, {});
    }
  }

  lemma NetSameKeeps(n: Network, touched: set<Suite>)
    ensures NetKeeps(n, n, touched)
  {
    SliceSameKeeps(n.v4, touched);
    SliceSameKeeps(n.v6, touched);
  }

  lemma AssignDualKeeps(n: Network, suites: seq<Suite>, pod: Pod, forced: bool)
    requires n.Valid()
    ensures NetKeeps(n, AssignDual(n, suites, pod, forced).0, {})
  {
    NetSameKeeps(n, {});
    if |suites| == 2 {
      var m := AssignAt(n, suites[0], pod, forced).0;
      AssignAtKeeps(n, suites[0], pod, forced);
      AssignAtKeeps(m, suites[1], pod, forced);
      NetKeepsTransitive(n, m, AssignAt(m, suites[1], pod, forced).0, {});
    }
  }

  lemma ReleaseKeeps(s: Subnet, a: Addr, touched: set<Suite>)
    requires Suite(s.spec.name, a) in touched
    ensures Keeps(s, s.Release(a), touched) && Keeps(s, s.Reserve(a), touched)
  {
  }

  ghost predicate AllTouched(suites: seq<Suite>, touched: set<Suite>) {
    forall k :: 0 <= k < |suites| ==> suites[k] in touched
  }

  lemma {:induction false} ReleaseAllKeeps(n: Network, suites: seq<Suite>, touched: set<Suite>)
    requires n.Valid() && AllTouched(suites, touched)
    ensures NetKeeps(n, ReleaseAll(n, suites).0, touched)
    decreases |suites|
  {
    NetSameKeeps(n, touched);
    if suites != [] && n.ByName(suites[0].subnet).Some? {
      var (six, i) := n.ByName(suites[0].subnet).value;
      var s := n.Side(six).subnets[i];
      var m := n.PutAt(six, i, s.Release(suites[0].ip));
      ReleaseKeeps(s, suites[0].ip, touched);
      PutKeeps(n, six, i, s.Release(suites[0].ip), touched);
      ReleaseAllKeeps(m, suites[1..], touched);
      NetKeepsTransitive(n, m, ReleaseAll(m, suites[1..]).0, touched);
    }
  }

  lemma {:induction false} ReserveAllKeeps(n: Network, suites: seq<Suite>, touched: set<Suite>)
    requires n.Valid() && AllTouched(suites, touched)
    ensures NetKeeps(n, ReserveAll(n, suites).0, touched)
    decreases |suites|
  {
    NetSameKeeps(n, touched);
    if suites != [] && n.ByName(suites[0].subnet).Some? {
      var (six, i) := n.ByName(suites[0].subnet).value;
      var s := n.Side(six).subnets[i];
      var m := n.PutAt(six, i, s.Reserve(suites[0].ip));
      ReleaseKeeps(s, suites[0].ip, touched);
      PutKeeps(n, six, i, s.Reserve(suites[0].ip), touched);
      ReserveAllKeeps(m, suites[1..], touched);
      NetKeepsTransitive(n, m, ReserveAll(m, suites[1..]).0, touched);
    }
  }

  // ---- runs -------------------------------------------------------------------------------------------

  datatype Mode = V4 | V6 | DualStack | Unsupported

  datatype Op =
    | Allocate(network: string, mode: Mode, names: seq<string>, pod: Pod)
    | Assign(network: string, mode: Mode, suites: seq<Suite>, pod: Pod, forced: bool)
    | Release(network: string, suites: seq<Suite>)
    | Reserve(network: string, suites: seq<Suite>)
  {
    /** No empty network, pod or namespace name. */
    predicate Valid() {
      network != "" && (Allocate? || Assign? ==> pod.name != "" && pod.namespace != "")
    }

    /** The addresses, each in its subnet, that the operation may take from their owner. */
    function Touched(): (t: set<Suite>) {
      if Release? || Reserve? then set s | s in suites else {}
    }
  }

  type Store = map<string, Network>

  ghost predicate StoreInv(m: Store) {
    forall x :: x in m ==> m[x].Inv()
  }

  function Apply(n: Network, op: Op): (r: Network)
    requires n.Inv()
  {
    match op
    case Allocate(_, V4, names, pod) => AllocateOne(n, false, names, pod).0
    case Allocate(_, V6, names, pod) => AllocateOne(n, true, names, pod).0
    case Allocate(_, DualStack, names, pod) => AllocateDual(n, names, pod).0
    case Assign(_, V4, suites, pod, forced) => AssignOne(n, false, suites, pod, forced).0
    case Assign(_, V6, suites, pod, forced) => AssignOne(n, true, suites, pod, forced).0
    case Assign(_, DualStack, suites, pod, forced) => AssignDual(n, suites, pod, forced).0
    case Release(_, suites) => ReleaseAll(n, suites).0
    case Reserve(_, suites) => ReserveAll(n, suites).0
    case _ => n
  }

  lemma NetKeepsInv(n: Network, m: Network, touched: set<Suite>)
    requires n.Inv() && NetKeeps(n, m, touched)
    ensures m.Inv()
  {
    assert forall i :: 0 <= i < |n.v4.subnets| ==> Keeps(n.v4.subnets[i], m.v4.subnets[i], touched);
    assert forall i :: 0 <= i < |n.v6.subnets| ==> Keeps(n.v6.subnets[i], m.v6.subnets[i], touched);
  }

  lemma AssignOneKeeps(n: Network, six: bool, suites: seq<Suite>, pod: Pod, forced: bool)
    requires n.Valid()
    ensures NetKeeps(n, AssignOne(n, six, suites, pod, forced).0, {})
  {
    NetSameKeeps(n, {});
    if |suites| == 1 {
      AssignAtKeeps(n, suites[0], pod, forced);
    }
  }

  lemma ApplyKeeps(n: Network, op: Op)
    requires n.Inv()
    ensures NetKeeps(n, Apply(n, op), op.Touched())
  {
    match op
    case Allocate(_, V4, names, pod) => AllocateOneKeeps(n, false, names, pod);
    case Allocate(_, V6, names, pod) => AllocateOneKeeps(n, true, names, pod);
    case Allocate(_, DualStack, names, pod) => AllocateDualKeeps(n, names, pod);
    case Assign(_, V4, suites, pod, forced) => AssignOneKeeps(n, false, suites, pod, forced);
    case Assign(_, V6, suites, pod, forced) => AssignOneKeeps(n, true, suites, pod, forced);
    case Assign(_, DualStack, suites, pod, forced) => AssignDualKeeps(n, suites, pod, forced);
    case Release(_, suites) => ReleaseAllKeeps(n, suites, op.Touched());
    case Reserve(_, suites) => ReserveAllKeeps(n, suites, op.Touched());
    case _ => NetSameKeeps(n, {});
  }

  function Step(m: Store, op: Op): (r: Store)
    requires StoreInv(m)
  {
    if op.Valid() && op.network in m then m[op.network := Apply(m[op.network], op)] else m
  }

  /** What an operation on a network promises, whatever it answers. */
  ghost predicate Promised(n: Network, op: Op, m: Network) {
    match op
    case Allocate(_, V4, names, pod) => exists ips :: SingleAllocated(n, false, names, pod, m, ips)
    case Allocate(_, V6, names, pod) => exists ips :: SingleAllocated(n, true, names, pod, m, ips)
    case Allocate(_, DualStack, names, pod) => exists ips :: DualAllocated(n, names, pod, m, ips)
    case Assign(_, V4, suites, pod, forced) => exists ips :: SingleAssigned(n, false, suites, pod, forced, m, ips)
    case Assign(_, V6, suites, pod, forced) => exists ips :: SingleAssigned(n, true, suites, pod, forced, m, ips)
    case Assign(_, DualStack, suites, pod, forced) => exists ips :: DualAssigned(n, suites, pod, forced, m, ips)
    case Release(_, suites) => exists ok :: ListDone(n, suites, true, m, ok)
    case Reserve(_, suites) => exists ok :: ListDone(n, suites, false, m, ok)
    case _ => m == n
  }

  lemma ApplyPromised(n: Network, op: Op)
    requires n.Inv()
    ensures Promised(n, op, Apply(n, op))
  {
    match op
    case Allocate(_, V4, names, pod) =>
      AllocateOneOutcome(n, false, names, pod);
      assert SingleAllocated(n, false, names, pod, Apply(n, op), AllocateOne(n, false, names, pod).1);
    case Allocate(_, V6, names, pod) =>
      AllocateOneOutcome(n, true, names, pod);
      assert SingleAllocated(n, true, names, pod, Apply(n, op), AllocateOne(n, true, names, pod).1);
    case Allocate(_, DualStack, names, pod) =>
      AllocateDualOutcome(n, names, pod);
      assert DualAllocated(n, names, pod, Apply(n, op), AllocateDual(n, names, pod).1);
    case Assign(_, V4, suites, pod, forced) =>
      AssignOneOutcome(n, false, suites, pod, forced);
      assert SingleAssigned(n, false, suites, pod, forced, Apply(n, op), AssignOne(n, false, suites, pod, forced).1);
    case Assign(_, V6, suites, pod, forced) =>
      AssignOneOutcome(n, true, suites, pod, forced);
      assert SingleAssigned(n, true, suites, pod, forced, Apply(n, op), AssignOne(n, true, suites, pod, forced).1);
    case Assign(_, DualStack, suites, pod, forced) =>
      AssignDualOutcome(n, suites, pod, forced);
      assert DualAssigned(n, suites, pod, forced, Apply(n, op), AssignDual(n, suites, pod, forced).1);
    case Release(_, suites) =>
      ReleaseOutcome(n, suites);
      assert ListDone(n, suites, true, Apply(n, op), ReleaseAll(n, suites).1);
    case Reserve(_, suites) =>
      ReserveOutcome(n, suites);
      assert ListDone(n, suites, false, Apply(n, op), ReserveAll(n, suites).1);
    case _ =>
  }

  /** An operation with complete names works on the network it names, and on no other. */
  lemma StepPromised(m: Store, op: Op)
    requires StoreInv(m)
    ensures Step(m, op).Keys == m.Keys
    ensures forall x :: x in m ==>
              if op.Valid() && op.network == x then Promised(m[x], op, Step(m, op)[x]) else Step(m, op)[x] == m[x]
  {
    if op.network in m {
      ApplyPromised(m[op.network], op);
    }
  }

  lemma StepKeepsInv(m: Store, op: Op)
    requires StoreInv(m)
    ensures StoreInv(Step(m, op)) && Step(m, op).Keys == m.Keys
  {
    if op.network in m {
      ApplyKeeps(m[op.network], op);
      NetKeepsInv(m[op.network], Apply(m[op.network], op), op.Touched());
    }
  }

  function Run(m: Store, ops: seq<Op>): (r: Store)
    requires StoreInv(m)
    decreases |ops|
  {
    if ops == [] then m
    else
      StepKeepsInv(m, ops[0]);
      Run(Step(m, ops[0]), ops[1..])
  }

  /** A longer run goes on from where the shorter one stopped. */
  lemma {:induction false} RunOn(m: Store, ops: seq<Op>, more: seq<Op>)
    requires StoreInv(m)
    ensures StoreInv(Run(m, ops)) && Run(m, ops + more) == Run(Run(m, ops), more)
    decreases |ops|
  {
    if ops == [] {
      assert ops + more == more;
    } else {
      StepKeepsInv(m, ops[0]);
      RunOn(Step(m, ops[0]), ops[1..], more);
      assert (ops + more)[1..] == ops[1..] + more;
    }
  }

  /** The addresses of a network, each in its subnet, that a run may take from their owner. */
  function TouchedIn(ops: seq<Op>, x: string): (t: set<Suite>) {
    if ops == [] then {}
    else (if ops[0].network == x then ops[0].Touched() else {}) + TouchedIn(ops[1..], x)
  }

  lemma TouchedGrows(n: Network, m: Network, t: set<Suite>, u: set<Suite>)
    requires NetKeeps(n, m, t) && t <= u
    ensures NetKeeps(n, m, u)
  {
    assert forall i :: 0 <= i < |n.v4.subnets| ==> Keeps(n.v4.subnets[i], m.v4.subnets[i], t);
    assert forall i :: 0 <= i < |n.v6.subnets| ==> Keeps(n.v6.subnets[i], m.v6.subnets[i], t);
  }

  lemma {:induction false} RunKeeps(m: Store, ops: seq<Op>, x: string)
    requires StoreInv(m) && x in m
    ensures StoreInv(Run(m, ops)) && Run(m, ops).Keys == m.Keys
    ensures NetKeeps(m[x], Run(m, ops)[x], TouchedIn(ops, x))
    decreases |ops|
  {
    NetSameKeeps(m[x], {});
    if ops != [] {
      var next := Step(m, ops[0]);
      StepKeepsInv(m, ops[0]);
      RunKeeps(next, ops[1..], x);
      var all := TouchedIn(ops, x);
      ApplyKeeps(m[x], ops[0]);
      NetSameKeeps(m[x], all);
      if ops[0].network == x {
        TouchedGrows(m[x], Apply(m[x], ops[0]), ops[0].Touched(), all);
      }
      TouchedGrows(next[x], Run(next, ops[1..])[x], TouchedIn(ops[1..], x), all);
      NetKeepsTransitive(m[x], next[x], Run(m, ops)[x], all);
    }
  }

  /** In every run, an address allocated to a pod stays with that pod unless it is released or reserved
      in its own subnet. */
  lemma OwnershipHolds(m: Store, ops: seq<Op>, x: string, six: bool, i: nat, a: Addr)
    requires StoreInv(m) && x in m && i < |m[x].Side(six).subnets|
    requires a in m[x].Side(six).subnets[i].using && m[x].Side(six).subnets[i].using[a].status == Allocated
    requires Suite(m[x].Side(six).subnets[i].spec.name, a) !in TouchedIn(ops, x)
    ensures var s, n := m[x].Side(six).subnets[i], Run(m, ops);
      && x in n && i < |n[x].Side(six).subnets|
      && var t := n[x].Side(six).subnets[i];
         a in t.using && t.using[a].status == Allocated && t.using[a].pod == s.using[a].pod
  {
    RunKeeps(m, ops, x);
    var t := Run(m, ops)[x];
    assert SliceKeeps(m[x].Side(six), t.Side(six), TouchedIn(ops, x));
    assert Keeps(m[x].Side(six).subnets[i], t.Side(six).subnets[i], TouchedIn(ops, x));
  }

  /** No address may be held in two subnets of the network by configuration. */
  ghost predicate DisjointSubnets(n: Network) {
    forall p, i: nat, q, j: nat, a ::
      (&& i < |n.Side(p).subnets| && j < |n.Side(q).subnets|
       && n.Side(p).subnets[i].spec.Contains(a) && n.Side(q).subnets[j].spec.Contains(a)) ==> p == q && i == j
  }

  /** In every run, no address of a network with disjoint subnets is held in two of them. */
  lemma NoDoubleHolding(m: Store, ops: seq<Op>, x: string, p: bool, i: nat, q: bool, j: nat, a: Addr)
    requires StoreInv(m) && x in m && DisjointSubnets(m[x]) && x in Run(m, ops)
    requires i < |Run(m, ops)[x].Side(p).subnets| && a in Run(m, ops)[x].Side(p).subnets[i].using
    requires j < |Run(m, ops)[x].Side(q).subnets| && a in Run(m, ops)[x].Side(q).subnets[j].using
    ensures p == q && i == j
  {
    RunKeeps(m, ops, x);
    var n := Run(m, ops)[x];
    assert n.Inv();
    assert Keeps(m[x].Side(p).subnets[i], n.Side(p).subnets[i], TouchedIn(ops, x));
    assert Keeps(m[x].Side(q).subnets[j], n.Side(q).subnets[j], TouchedIn(ops, x));
  }
}
