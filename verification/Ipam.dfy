/**
The in-memory state of one subnet in the IPAM allocator and its operations, on values
(pkg/ipam/types/subnet.go, pkg/ipam/types/ip.go). The classes of module `IpamObjects` update this
state in place and are proved to do what these functions say. Addresses stand for their canonical text.
*/
module Ipam {
  import opened Addresses
  import opened Finite
  import Powers

  datatype Status = Allocated | Reserved

  datatype Pod = Pod(name: string, namespace: string)

  const NO_POD := Pod("", "")

  datatype IP = IP(
    addr: Addr, gateway: Option<Addr>, netID: Option<nat>, subnet: string, network: string, pod: Pod, status: Status)

  /** The configuration of a subnet; missing bounds are filled in by Canonicalize. */
  datatype Spec = Spec(
    name: string, network: string, netID: Option<nat>, start: Option<Addr>, end: Option<Addr>, cidr: Net,
    gateway: Option<Addr>, reserved: set<Addr>, black: set<Addr>, lastAllocated: Option<Addr>, private: bool,
    ipv6: bool)
  {
    /** The address may be given to a pod: in the block and the bounds, not the gateway, not excluded. */
    predicate Contains(a: Addr) {
      && cidr.Contains(a)
      && (start.Some? ==> !(Cmp(a, start.value) < 0))
      && (end.Some? ==> !(Cmp(a, end.value) > 0))
      && gateway != Some(a)
      && a !in black
    }

    /** Validate: names given, a block of at least four addresses without host bits, all addresses inside. */
    predicate Acceptable() {
      && name != "" && network != ""
      && cidr.plen + 2 <= Width(cidr.fam)
      && Powers.Aligned(cidr.base, cidr.HostBits())
      && (gateway.Some? ==> cidr.Contains(gateway.value))
      && (start.Some? ==> cidr.Contains(start.value))
      && (end.Some? ==> cidr.Contains(end.value))
    }

    /** The bounds, with missing ones filled in: all but the first address of the block and, for IPv4, the last. */
    function First(): (a: Addr) {
      if start.Some? then start.value else Addr(cidr.fam, cidr.base + 1)
    }

    function Last(): (a: Addr) {
      if end.Some? then end.value else LastUsable(cidr)
    }

    function Bounded(): (s: Spec) {
      this.(start := Some(First()), end := Some(Last()))
    }

    /** What Canonicalize and Sync leave of the configuration: the bounds filled in, the parent's net ID taken over
        where there was none, and only those reserved addresses that may be allocated at all. */
    function Prepared(parentNetID: Option<nat>): (s: Spec) {
      Bounded().(
        netID := if netID.None? then parentNetID else netID,
        reserved := set a | a in reserved && Bounded().Contains(a))
    }

    /** The record was given for this subnet. */
    predicate Given(ipSet: map<Addr, IP>, a: Addr) {
      a in ipSet && ipSet[a].subnet == name && Contains(ipSet[a].addr)
    }

    /** A record for an address of this subnet. */
    function Record(a: Addr, pod: Pod, status: Status): (ip: IP) {
      IP(a, gateway, netID, name, network, pod, status)
    }
  }

  function NextIndex(i: int, n: nat): (j: nat)
    requires n > 0 && -1 <= i < n
    ensures j < n
    ensures j == if i + 1 == n then 0 else i + 1
  {
    (i + 1) % n
  }

  /** The addresses to hand out and the cursor over them, -1 before the first. */
  datatype IPSlice = IPSlice(ips: seq<Addr>, index: int)
  {
    predicate Valid() {
      -1 <= index < |ips|
    }

    function Add(ip: Addr, isDefault: bool): (s: IPSlice) {
      IPSlice(ips + [ip], if isDefault then |ips| else index)
    }

    function Advance(): (s: IPSlice)
      requires Valid() && ips != []
      ensures s.Valid() && 0 <= s.index
    {
      IPSlice(ips, NextIndex(index, |ips|))
    }

    function Current(): (ip: Option<Addr>)
      requires Valid()
    {
      if index < 0 then None else Some(ips[index])
    }
  }

  datatype Subnet = Subnet(spec: Spec, avail: IPSlice, using: map<Addr, IP>, reservedCount: int)
  {
    /** What every subnet state that comes from Sync keeps: the slice lists exactly the allocatable
        addresses that are not reserved, the reserved ones are in use, and nothing outside is. */
    ghost predicate Inv() {
      && avail.Valid() && Distinct(avail.ips)
      && (forall a :: a in avail.ips <==> spec.Contains(a) && a !in spec.reserved)
      && (forall a :: a in spec.reserved ==> spec.Contains(a))
      && spec.reserved <= using.Keys
      && (forall a :: a in using ==> spec.Contains(a) && using[a].addr == a && using[a].subnet == spec.name)
      && reservedCount == |spec.reserved|
    }

    ghost function Free(): set<Addr> {
      set a | a in avail.ips && a !in using
    }

    function UsingIPCount(): (n: int) {
      |using| - reservedCount
    }

    predicate IsAvailable() {
      |avail.ips| > UsingIPCount() && !spec.private
    }

    /** The next `n` addresses are tried in turn; the first one not in use is taken. */
    function Try(n: nat, pod: Pod): (r: (Subnet, Option<IP>))
      requires avail.Valid() && (n > 0 ==> avail.ips != [])
      decreases n
    {
      if n == 0 then (this, None)
      else
        var next := avail.Advance();
        var candidate := next.ips[next.index];
        if candidate in using then this.(avail := next).Try(n - 1, pod)
        else
          var ip := spec.Record(candidate, pod, Allocated);
          (this.(avail := next, using := using[candidate := ip]), Some(ip))
    }

    function AllocateNext(pod: Pod): (r: (Subnet, Option<IP>))
      requires avail.Valid()
    {
      Try(|avail.ips|, pod)
    }

    /** A reserved address goes back to its reservation, any other out of use. */
    function Release(a: Addr): (s: Subnet) {
      if a in spec.reserved then
        if a in using then this.(using := using[a := using[a].(pod := NO_POD, status := Reserved)]) else this
      else this.(using := using - {a})
    }

    function Reserve(a: Addr): (s: Subnet) {
      if a in using then this.(using := using[a := using[a].(status := Reserved)]) else this
    }

    /** Takes a given address: a free one, the pod's own, or, by force, a reserved one. */
    function Assign(pod: Pod, a: Addr, forced: bool): (r: (Subnet, Option<IP>)) {
      if !spec.Contains(a) then (this, None)
      else if a !in using then
        var ip := spec.Record(a, pod, Allocated);
        (this.(using := using[a := ip]), Some(ip))
      else if using[a].pod == pod || (forced && using[a].status == Reserved) then
        var ip := using[a].(pod := pod, status := Allocated);
        (this.(using := using[a := ip]), Some(ip))
      else (this, None)
    }
  }

  /** Each part of a new record from its own source. */
  ghost predicate RecordOf(ip: IP, spec: Spec, a: Addr, pod: Pod, status: Status) {
    && ip.addr == a && ip.gateway == spec.gateway && ip.netID == spec.netID
    && ip.subnet == spec.name && ip.network == spec.network && ip.pod == pod && ip.status == status
  }

  /** In use are exactly the reserved addresses and the given ones of this subnet; a given record wins. */
  ghost predicate InUseFrom(s: Subnet, ipSet: map<Addr, IP>) {
    && (forall a :: a in s.using <==> a in s.spec.reserved || s.spec.Given(ipSet, a))
    && (forall a :: a in s.using ==>
          if s.spec.Given(ipSet, a) then s.using[a] == ipSet[a] else RecordOf(s.using[a], s.spec, a, NO_POD, Reserved))
  }

  // ---- counting ---------------------------------------------------------------------------------

  lemma SplitCounts<T>(all: set<T>, used: set<T>, reserved: set<T>)
    requires reserved !! all && reserved <= used <= reserved + all
    ensures |used| == |reserved| + |used * all|
    ensures |all| == |used * all| + |all - used|
  {
    assert used == reserved + used * all;
    assert all == used * all + (all - used);
  }

  /** The counter arithmetic of the code counts the free addresses: nothing goes below zero. */
  lemma FreeCount(s: Subnet)
    requires s.Inv()
    ensures |s.Free()| == |s.avail.ips| - s.UsingIPCount()
    ensures 0 <= s.UsingIPCount() <= |s.avail.ips|
  {
    var all := Elements(s.avail.ips);
    DistinctSize(s.avail.ips);
    SplitCounts(all, s.using.Keys, s.spec.reserved);
    assert s.Free() == all - s.using.Keys;
    assert |s.using| == |s.using.Keys|;
  }

  // ---- what the operations do ---------------------------------------------------------------------

  /** What AllocateNext leaves unchanged besides the cursor. */
  ghost predicate SameButUse(s: Subnet, t: Subnet) {
    t.spec == s.spec && t.avail.ips == s.avail.ips && t.reservedCount == s.reservedCount && t.avail.Valid()
  }

  /** `t` is `s` with one more address, free before, now held by the pod; or no address was found. */
  ghost predicate Took(s: Subnet, t: Subnet, ip: Option<IP>, pod: Pod) {
    && SameButUse(s, t)
    && (ip.None? ==> t.using == s.using)
    && (ip.Some? ==>
          && ip.value.addr in s.avail.ips && ip.value.addr !in s.using
          && RecordOf(ip.value, s.spec, ip.value.addr, pod, Allocated)
          && t.using == s.using[ip.value.addr := ip.value])
  }

  lemma TookKeepsInv(s: Subnet, t: Subnet, ip: Option<IP>, pod: Pod)
    requires s.Inv() && Took(s, t, ip, pod)
    ensures t.Inv()
    ensures t.UsingIPCount() == s.UsingIPCount() + if ip.Some? then 1 else 0
    ensures ip.Some? ==> |s.Free()| > 0
  {
    if ip.Some? {
      assert t.using.Keys == s.using.Keys + {ip.value.addr};
      assert ip.value.addr in s.Free();
    }
  }

  /** The index `k` steps after a cursor in a cycle of `n`. */
  function Ahead(index: int, n: nat, k: nat): (i: nat)
    requires -1 <= index < n && 1 <= k <= n
  {
    if index + k < n then index + k else index + k - n
  }

  /** The search takes the first free address within its reach, and only that. */
  lemma {:induction false} TryOutcome(s: Subnet, n: nat, pod: Pod)
    requires s.avail.Valid() && n <= |s.avail.ips|
    ensures Took(s, s.Try(n, pod).0, s.Try(n, pod).1, pod)
    ensures s.Try(n, pod).1.None? ==>
              forall k :: 1 <= k <= n ==> s.avail.ips[Ahead(s.avail.index, |s.avail.ips|, k)] in s.using
    decreases n
  {
    if n > 0 {
      var next := s.avail.Advance();
      var u := s.(avail := next);
      if next.ips[next.index] in s.using {
        TryOutcome(u, n - 1, pod);
        assert forall k :: 1 < k <= n ==>
                 Ahead(s.avail.index, |s.avail.ips|, k) == Ahead(next.index, |next.ips|, k - 1);
      }
    }
  }

  /** Every index is within reach of a full turn. */
  lemma FullTurn(index: int, n: nat, i: nat) returns (k: nat)
    requires -1 <= index < n && i < n
    ensures 1 <= k <= n && Ahead(index, n, k) == i
  {
    k := if i > index then i - index else i - index + n;
  }

  lemma NoneFree(s: Subnet)
    requires s.avail.Valid()
    requires forall k :: 1 <= k <= |s.avail.ips| ==> s.avail.ips[Ahead(s.avail.index, |s.avail.ips|, k)] in s.using
    ensures s.Free() == {}
  {
    forall a | a in s.avail.ips
      ensures a in s.using
    {
      var i :| 0 <= i < |s.avail.ips| && s.avail.ips[i] == a;
      var k := FullTurn(s.avail.index, |s.avail.ips|, i);
      assert s.avail.ips[Ahead(s.avail.index, |s.avail.ips|, k)] in s.using;
    }
  }

  /** From any cursor position an address is found exactly if one is free; it was free, it is now held by
      the pod, and nothing else changed. */
  lemma AllocateNextOutcome(s: Subnet, pod: Pod)
    requires s.Inv()
    ensures var (t, ip) := s.AllocateNext(pod);
      && Took(s, t, ip, pod) && t.Inv()
      && (ip.Some? <==> |s.avail.ips| > s.UsingIPCount())
      && t.UsingIPCount() == s.UsingIPCount() + if ip.Some? then 1 else 0
  {
    TryOutcome(s, |s.avail.ips|, pod);
    FreeCount(s);
    var (t, ip) := s.AllocateNext(pod);
    TookKeepsInv(s, t, ip, pod);
    if ip.None? {
      NoneFree(s);
    }
  }

  /** An address given out and released at once leaves the addresses in use as they were. */
  lemma ReleaseUndoesTake(s: Subnet, t: Subnet, ip: IP, pod: Pod)
    requires s.Inv() && Took(s, t, Some(ip), pod)
    ensures t.Release(ip.addr).using == s.using && SameButUse(s, t.Release(ip.addr)) && t.Release(ip.addr).Inv()
  {
    assert ip.addr !in s.spec.reserved;
    assert t.Release(ip.addr).using == s.using;
  }

  lemma ReleaseKeepsInv(s: Subnet, a: Addr)
    requires s.Inv()
    ensures s.Release(a).Inv()
  {
  }

  lemma ReserveKeepsInv(s: Subnet, a: Addr)
    requires s.Inv()
    ensures s.Reserve(a).Inv()
  {
  }

  lemma AssignKeepsInv(s: Subnet, pod: Pod, a: Addr, forced: bool)
    requires s.Inv()
    ensures s.Assign(pod, a, forced).0.Inv()
  {
  }

  // ---- how the operations on one address fit together --------------------------------------------------

  /** Assign succeeds exactly for an allocatable address that is free, the pod's own, or, by force, reserved. Then
      the pod holds it, no other address changes, and asking again changes nothing. */
  lemma AssignOutcome(s: Subnet, pod: Pod, a: Addr, forced: bool)
    requires s.Inv()
    ensures var (t, ip) := s.Assign(pod, a, forced);
      && (ip.Some? <==>
            && s.spec.Contains(a)
            && (a !in s.using || s.using[a].pod == pod || (forced && s.using[a].status == Reserved)))
      && (ip.None? ==> t == s)
      && (ip.Some? ==>
            && t.using == s.using[a := ip.value] && SameButUse(s, t)
            && ip.value.addr == a && ip.value.subnet == s.spec.name && ip.value.pod == pod
            && ip.value.status == Allocated && (a !in s.using ==> RecordOf(ip.value, s.spec, a, pod, Allocated))
            && t.Assign(pod, a, false) == (t, ip))
  {
    var (t, ip) := s.Assign(pod, a, forced);
    if ip.Some? {
      assert t.using[a := ip.value] == t.using;
    }
  }

  /** Releasing a free address that was assigned puts the subnet back as it was. */
  lemma ReleaseUndoesAssign(s: Subnet, pod: Pod, a: Addr, forced: bool)
    requires s.Inv() && s.spec.Contains(a) && a !in s.using
    ensures s.Assign(pod, a, forced).1.Some? && s.Assign(pod, a, forced).0.Release(a) == s
  {
    var t := s.Assign(pod, a, forced).0;
    assert a !in s.spec.reserved;
    assert t.using - {a} == s.using;
  }

  /** A reserved address is retained for its pod: the pod gets it back, exactly as it was, and until then no other
      pod gets it without force. */
  lemma RetainedForOwner(s: Subnet, a: Addr, other: Pod)
    requires s.Inv() && a in s.using && s.using[a].status == Allocated && other != s.using[a].pod
    ensures var (r, owner) := (s.Reserve(a), s.using[a].pod);
      && r.Assign(owner, a, false) == (s, Some(s.using[a]))
      && r.Assign(other, a, false) == (r, None)
      && r.Assign(other, a, true).1.Some?
  {
    assert s.Reserve(a).using[a := s.using[a]] == s.using;
  }

  /** Nor does any search hand it out. */
  lemma ReservedNotHandedOut(s: Subnet, a: Addr, pod: Pod)
    requires s.Inv() && a in s.using
    ensures var ip := s.Reserve(a).AllocateNext(pod).1; ip.Some? ==> ip.value.addr != a
  {
    ReserveKeepsInv(s, a);
    AllocateNextOutcome(s.Reserve(a), pod);
  }

  // ---- fairness -------------------------------------------------------------------------------------

  datatype SubnetOp =
    | DoAllocate(pod: Pod)
    | DoAssign(pod: Pod, ip: Addr, forced: bool)
    | DoRelease(ip: Addr)
    | DoReserve(ip: Addr)

  function SubnetStep(s: Subnet, op: SubnetOp): (t: Subnet)
    requires s.avail.Valid()
  {
    match op
    case DoAllocate(pod) => s.AllocateNext(pod).0
    case DoAssign(pod, a, forced) => s.Assign(pod, a, forced).0
    case DoRelease(a) => s.Release(a)
    case DoReserve(a) => s.Reserve(a)
  }

  /** Every operation keeps the invariant that Sync establishes. */
  lemma SubnetStepKeepsInv(s: Subnet, op: SubnetOp)
    requires s.Inv()
    ensures SubnetStep(s, op).Inv()
  {
    match op
    case DoAllocate(pod) => AllocateNextOutcome(s, pod);
    case DoAssign(pod, a, forced) => AssignKeepsInv(s, pod, a, forced);
    case DoRelease(a) => ReleaseKeepsInv(s, a);
    case DoReserve(a) => ReserveKeepsInv(s, a);
  }

  /** No operation changes the list, and only allocations move the cursor. */
  lemma SubnetStepKeepsList(s: Subnet, op: SubnetOp)
    requires s.avail.Valid()
    ensures SubnetStep(s, op).avail.Valid() && SubnetStep(s, op).avail.ips == s.avail.ips
    ensures !op.DoAllocate? ==> SubnetStep(s, op).avail == s.avail
  {
    if op.DoAllocate? {
      TryOutcome(s, |s.avail.ips|, op.pod);
    }
  }

  /** The state in which operation `k` of a run finds the subnet. */
  function StateAt(s: Subnet, ops: seq<SubnetOp>, k: nat): (t: Subnet)
    requires s.avail.Valid() && k <= |ops|
    ensures t.avail.Valid() && t.avail.ips == s.avail.ips
  {
    if k == 0 then s
    else
      SubnetStepKeepsList(StateAt(s, ops, k - 1), ops[k - 1]);
      SubnetStep(StateAt(s, ops, k - 1), ops[k - 1])
  }

  /** The address that an operation hands out, if it is an allocation and finds one. */
  function HandsOut(s: Subnet, op: SubnetOp): (a: Option<Addr>)
    requires s.avail.Valid()
  {
    if op.DoAllocate? && s.AllocateNext(op.pod).1.Some? then Some(s.AllocateNext(op.pod).1.value.addr) else None
  }

  function Returned(s: Subnet, ops: seq<SubnetOp>, k: nat): (a: Option<Addr>)
    requires s.avail.Valid() && k < |ops|
  {
    HandsOut(StateAt(s, ops, k), ops[k])
  }

  /** How many steps the cursor takes from one index to another, going forward; a full turn from an index to itself. */
  function Steps(from: int, to: nat, n: nat): (d: nat)
    requires -1 <= from < n && to < n
    ensures 1 <= d <= n && Ahead(from, n, d) == to
  {
    if from < to then to - from else to - from + n
  }

  /** The operation is an allocation whose search comes to the address: the cursor is left there or behind. */
  ghost predicate Tries(s: Subnet, op: SubnetOp, i: nat)
    requires s.avail.Valid() && i < |s.avail.ips|
  {
    op.DoAllocate? &&
    var t := s.AllocateNext(op.pod).0;
    0 <= t.avail.index < |s.avail.ips| &&
    Steps(s.avail.index, i, |s.avail.ips|) <= Steps(s.avail.index, t.avail.index, |s.avail.ips|)
  }

  /** Where a search ends: every address it passed over was in use, and it hands out the one it stops at, if any. */
  lemma {:induction false} TryEnds(s: Subnet, n: nat, pod: Pod)
    requires s.avail.Valid() && 1 <= n <= |s.avail.ips|
    ensures var (t, ip) := s.Try(n, pod);
      && t.avail.ips == s.avail.ips && 0 <= t.avail.index < |s.avail.ips|
      && Steps(s.avail.index, t.avail.index, |s.avail.ips|) <= n
      && (ip.None? ==> Steps(s.avail.index, t.avail.index, |s.avail.ips|) == n)
      && (ip.Some? ==> ip.value.addr == s.avail.ips[t.avail.index])
      && forall d :: 1 <= d <= Steps(s.avail.index, t.avail.index, |s.avail.ips|) ==>
           s.avail.ips[Ahead(s.avail.index, |s.avail.ips|, d)] in s.using
           || (ip.Some? && d == Steps(s.avail.index, t.avail.index, |s.avail.ips|))
    decreases n
  {
    var next := s.avail.Advance();
    if next.ips[next.index] in s.using && n > 1 {
      TryEnds(s.(avail := next), n - 1, pod);
      assert forall d :: 1 < d <= n ==> Ahead(s.avail.index, |s.avail.ips|, d) == Ahead(next.index, |next.ips|, d - 1);
    }
  }

  /** An address that a search comes to is found in use or handed out. */
  lemma TriedIsServed(s: Subnet, op: SubnetOp, i: nat)
    requires s.avail.Valid() && i < |s.avail.ips| && Tries(s, op, i)
    ensures s.avail.ips[i] in s.using || HandsOut(s, op) == Some(s.avail.ips[i])
  {
    TryEnds(s, |s.avail.ips|, op.pod);
    var d := Steps(s.avail.index, i, |s.avail.ips|);
    assert s.avail.ips[Ahead(s.avail.index, |s.avail.ips|, d)] == s.avail.ips[i];
  }

  /** With `b` still ahead of `a`, an operation comes to `b`, or hands out another address than `a` and leaves `b`
      ahead of `a`. */
  lemma StaysAhead(s: Subnet, op: SubnetOp, a: nat, b: nat)
    requires s.avail.Valid() && Distinct(s.avail.ips) && a < |s.avail.ips| && b < |s.avail.ips|
    requires Steps(s.avail.index, b, |s.avail.ips|) < Steps(s.avail.index, a, |s.avail.ips|) && !Tries(s, op, b)
    ensures var t := SubnetStep(s, op).avail;
      && t.ips == s.avail.ips && t.Valid() && HandsOut(s, op) != Some(s.avail.ips[a])
      && Steps(t.index, b, |t.ips|) < Steps(t.index, a, |t.ips|)
  {
    SubnetStepKeepsList(s, op);
    if op.DoAllocate? {
      TryEnds(s, |s.avail.ips|, op.pod);
    }
  }

  /** A run that hands out `a` after it left the cursor there comes to every `b` in between. */
  lemma {:induction false} ComesBy(s: Subnet, ops: seq<SubnetOp>, i: nat, j: nat, a: nat, b: nat) returns (k: nat)
    requires s.avail.Valid() && Distinct(s.avail.ips) && a < |s.avail.ips| && b < |s.avail.ips| && i <= j < |ops|
    requires var x := StateAt(s, ops, i).avail.index; Steps(x, b, |s.avail.ips|) < Steps(x, a, |s.avail.ips|)
    requires Returned(s, ops, j) == Some(s.avail.ips[a])
    ensures i <= k <= j && Tries(StateAt(s, ops, k), ops[k], b)
    decreases j - i
  {
    if Tries(StateAt(s, ops, i), ops[i], b) {
      return i;
    }
    StaysAhead(StateAt(s, ops, i), ops[i], a, b);
    assert i < j;
    assert StateAt(s, ops, i + 1) == SubnetStep(StateAt(s, ops, i), ops[i]);
    k := ComesBy(s, ops, i + 1, j, a, b);
  }

  /** After an allocation the cursor is at the address handed out. */
  lemma CursorAtReturned(s: Subnet, op: SubnetOp)
    requires s.avail.Valid() && HandsOut(s, op).Some?
    ensures var t := SubnetStep(s, op).avail;
      t.ips == s.avail.ips && 0 <= t.index < |t.ips| && t.ips[t.index] == HandsOut(s, op).value
  {
    TryEnds(s, |s.avail.ips|, op.pod);
  }

  /** Between two allocations that hand out the same address, some allocation comes to every other available address
      and finds it in use or hands it out. */
  lemma Fairness(s: Subnet, ops: seq<SubnetOp>, i: nat, j: nat, b: nat) returns (k: nat)
    requires s.avail.Valid() && Distinct(s.avail.ips)
    requires i < j < |ops| && Returned(s, ops, i).Some? && Returned(s, ops, j) == Returned(s, ops, i)
    requires b < |s.avail.ips| && Returned(s, ops, i) != Some(s.avail.ips[b])
    ensures i < k <= j && Tries(StateAt(s, ops, k), ops[k], b)
    ensures s.avail.ips[b] in StateAt(s, ops, k).using || Returned(s, ops, k) == Some(s.avail.ips[b])
  {
    CursorAtReturned(StateAt(s, ops, i), ops[i]);
    assert StateAt(s, ops, i + 1) == SubnetStep(StateAt(s, ops, i), ops[i]);
    k := ComesBy(s, ops, i + 1, j, StateAt(s, ops, i + 1).avail.index, b);
    TriedIsServed(StateAt(s, ops, k), ops[k], b);
  }
}
