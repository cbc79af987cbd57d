/**
The usage figures of subnets and networks (pkg/ipam/types/usage.go, pkg/ipam/types/network.go), in
32-bit arithmetic, and what the figure for dual-stack allocation promises.
*/
module IpamUsage {
  import opened Addresses
  import opened Ipam
  import opened IpamNetwork
  import IpamRuns
  import Powers

  const U32: nat := 0x1_0000_0000

  /** Conversion to an unsigned 32-bit number. */
  function Wrap(x: int): (r: nat) {
    x % U32
  }

  datatype Usage = Usage(total: nat, used: nat, available: nat)
  {
    function Add(u: Usage): (r: Usage) {
      Usage(Wrap(total + u.total), Wrap(used + u.used), Wrap(available + u.available))
    }
  }

  /** The figures of one subnet, converted to 32 bits. */
  function SubnetUsage(s: Subnet): (u: Usage) {
    Usage(Wrap(|s.avail.ips|), Wrap(s.UsingIPCount()), Wrap(|s.avail.ips| - s.UsingIPCount()))
  }

  /** The figures of the subnets added up. */
  function SumUsage(s: seq<Subnet>): (u: Usage) {
    if s == [] then Usage(0, 0, 0) else SumUsage(s[..|s| - 1]).Add(SubnetUsage(s[|s| - 1]))
  }

  function Min(a: nat, b: nat): (m: nat) {
    if a > b then b else a
  }

  /** The figure reported for dual-stack allocation. */
  function DualStackAvailable(n: Network): (m: nat) {
    Min(SumUsage(n.v4.subnets).available, SumUsage(n.v6.subnets).available)
  }

  // ---- the true numbers -------------------------------------------------------------------------

  /** The number of addresses listed, and of those that are free, over all subnets. */
  ghost function Listed(s: seq<Subnet>): nat {
    if s == [] then 0 else Listed(s[..|s| - 1]) + |s[|s| - 1].avail.ips|
  }

  ghost function FreeTotal(s: seq<Subnet>): nat {
    if s == [] then 0 else FreeTotal(s[..|s| - 1]) + |s[|s| - 1].Free()|
  }

  ghost predicate AllInv(s: seq<Subnet>) {
    forall i :: 0 <= i < |s| ==> s[i].Inv()
  }

  lemma WrapSum(a: nat, b: nat)
    ensures Wrap(Wrap(a) + Wrap(b)) == Wrap(a + b)
  {
    var p, q := a / U32, b / U32;
    assert a == p * U32 + a % U32 && b == q * U32 + b % U32;
  }

  function Wrapped(total: nat, used: nat, available: nat): (u: Usage) {
    Usage(Wrap(total), Wrap(used), Wrap(available))
  }

  lemma AddWrapped(t: nat, u: nat, v: nat, t': nat, u': nat, v': nat)
    ensures Wrapped(t, u, v).Add(Wrapped(t', u', v')) == Wrapped(t + t', u + u', v + v')
  {
    WrapSum(t, t');
    WrapSum(u, u');
    WrapSum(v, v');
  }

  /** The counters of the subnet are the true numbers. */
  ghost predicate Counted(s: Subnet) {
    0 <= s.UsingIPCount() <= |s.avail.ips| && |s.Free()| == |s.avail.ips| - s.UsingIPCount()
  }

  ghost predicate AllCounted(s: seq<Subnet>) {
    forall i :: 0 <= i < |s| ==> Counted(s[i])
  }

  lemma {:induction false} UsageWrapped(s: seq<Subnet>)
    requires AllCounted(s)
    ensures FreeTotal(s) <= Listed(s)
    ensures SumUsage(s) == Wrapped(Listed(s), Listed(s) - FreeTotal(s), FreeTotal(s))
  {
    if s != [] {
      var init, last := s[..|s| - 1], s[|s| - 1];
      assert Counted(last);
      UsageWrapped(init);
      AddWrapped(Listed(init), Listed(init) - FreeTotal(init), FreeTotal(init),
                 |last.avail.ips|, last.UsingIPCount(), |last.Free()|);
    }
  }

  lemma InvCounted(s: seq<Subnet>)
    requires AllInv(s)
    ensures AllCounted(s)
  {
    forall i | 0 <= i < |s|
      ensures Counted(s[i])
    {
      FreeCount(s[i]);
    }
  }

  lemma WrapSmall(t: nat, u: nat, v: nat)
    ensures t < U32 && u < U32 && v < U32 ==> Wrapped(t, u, v) == Usage(t, u, v)
  {
  }

  /** The reported figures are the true ones modulo 2^32. Below 2^32 listed addresses they are exact, and used
      and available add up to the total, for one subnet as for the sum of all. */
  lemma UsageExact(s: seq<Subnet>)
    requires AllInv(s)
    ensures FreeTotal(s) <= Listed(s)
    ensures SumUsage(s) == Wrapped(Listed(s), Listed(s) - FreeTotal(s), FreeTotal(s))
    ensures Listed(s) < U32 ==> SumUsage(s) == Usage(Listed(s), Listed(s) - FreeTotal(s), FreeTotal(s))
  {
    InvCounted(s);
    UsageWrapped(s);
    WrapSmall(Listed(s), Listed(s) - FreeTotal(s), FreeTotal(s));
  }

  // ---- dual-stack allocations ---------------------------------------------------------------------

  /** The free addresses that an allocation without a named subnet can reach: private subnets are passed over. */
  ghost function Open(s: Subnet): (n: nat) {
    if s.spec.private then 0 else |s.Free()|
  }

  ghost function OpenTotal(s: seq<Subnet>): (n: nat)
    ensures n <= FreeTotal(s)
  {
    if s == [] then 0 else OpenTotal(s[..|s| - 1]) + Open(s[|s| - 1])
  }

  lemma {:induction false} OpenTotalPut(s: seq<Subnet>, i: nat, t: Subnet)
    requires i < |s|
    ensures OpenTotal(s[i := t]) == OpenTotal(s) - Open(s[i]) + Open(t)
    decreases |s|
  {
    var n := |s| - 1;
    var u := s[i := t];
    if i < n {
      OpenTotalPut(s[..n], i, t);
      assert u[..n] == s[..n][i := t];
    } else {
      assert u[..n] == s[..n];
    }
  }

  lemma {:induction false} OpenTotalPositive(s: seq<Subnet>)
    ensures OpenTotal(s) > 0 <==> exists i :: 0 <= i < |s| && Open(s[i]) > 0
  {
    if s != [] {
      var n := |s| - 1;
      OpenTotalPositive(s[..n]);
      if i :| 0 <= i < |s| && Open(s[i]) > 0 {
        assert i < n ==> s[..n][i] == s[i];
      }
      if OpenTotal(s[..n]) > 0 {
        var i :| 0 <= i < n && Open(s[..n][i]) > 0;
        assert Open(s[i]) > 0;
      }
    }
  }

  /** Everything free is open exactly if no private subnet has a free address. */
  lemma {:induction false} OpenIsFree(s: seq<Subnet>)
    ensures OpenTotal(s) == FreeTotal(s) <==> forall i :: 0 <= i < |s| ==> Open(s[i]) == |s[i].Free()|
  {
    if s != [] {
      var n := |s| - 1;
      OpenIsFree(s[..n]);
      assert forall i :: 0 <= i < n ==> s[..n][i] == s[i];
    }
  }

  /** A subnet is found exactly if some address is open. */
  lemma SelectFree(s: Slice, six: bool)
    requires s.Inv()
    ensures s.Select("", six).Some? <==> OpenTotal(s.subnets) > 0
    ensures s.Select("", six).Some? ==> Open(s.subnets[s.Select("", six).value]) > 0
  {
    SelectAvailable(s, six);
    OpenTotalPositive(s.subnets);
    forall i | 0 <= i < |s.subnets|
      ensures s.subnets[i].IsAvailable() <==> Open(s.subnets[i]) > 0
    {
      FreeCount(s.subnets[i]);
    }
  }

  lemma TakeOne(s: Slice, i: nat, pod: Pod)
    requires s.Inv() && i < |s.subnets| && Open(s.subnets[i]) > 0
    ensures var (t, ip) := s.subnets[i].AllocateNext(pod); var r := s.Point("", i).Put(i, t);
      ip.Some? && r.Inv() && OpenTotal(r.subnets) == OpenTotal(s.subnets) - 1
  {
    var u := s.subnets[i];
    FreeCount(u);
    AllocateNextOutcome(u, pod);
    FreeCount(u.AllocateNext(pod).0);
    OpenTotalPut(s.subnets, i, u.AllocateNext(pod).0);
  }

  /** One default dual-stack allocation: it succeeds exactly if both families have an open address, and takes one of
      each; a failed one leaves every subnet as it was. */
  lemma DualStep(n: Network, pod: Pod)
    requires n.Inv()
    ensures var (m, ips) := AllocateDual(n, [], pod);
      && m.Inv()
      && (ips.Some? <==> OpenTotal(n.v4.subnets) > 0 && OpenTotal(n.v6.subnets) > 0)
      && (ips.None? ==> m.v4.subnets == n.v4.subnets && m.v6.subnets == n.v6.subnets)
      && (ips.Some? ==>
            && OpenTotal(m.v4.subnets) == OpenTotal(n.v4.subnets) - 1
            && OpenTotal(m.v6.subnets) == OpenTotal(n.v6.subnets) - 1)
  {
    SelectFree(n.v4, false);
    SelectFree(n.v6, true);
    if n.v4.Select("", false).Some? && n.v6.Select("", true).Some? {
      TakeOne(n.v4, n.v4.Select("", false).value, pod);
      TakeOne(n.v6, n.v6.Select("", true).value, pod);
    }
  }

  /** The outcomes of a run of default dual-stack allocations. */
  ghost function DualRun(n: Network, pods: seq<Pod>): (r: seq<bool>)
    requires n.Inv()
    ensures |r| == |pods|
    decreases |pods|
  {
    if pods == [] then []
    else
      DualStep(n, pods[0]);
      [AllocateDual(n, [], pods[0]).1.Some?] + DualRun(AllocateDual(n, [], pods[0]).0, pods[1..])
  }

  /** How many of them can succeed. */
  ghost function DualOpen(n: Network): (m: nat) {
    Min(OpenTotal(n.v4.subnets), OpenTotal(n.v6.subnets))
  }

  /** A run goes on from the network that its first allocation leaves. */
  lemma DualRunHead(n: Network, pods: seq<Pod>) returns (m: Network, ok: bool, rest: seq<bool>)
    requires n.Inv() && pods != []
    ensures m.Inv() && rest == DualRun(m, pods[1..]) && DualRun(n, pods) == [ok] + rest
    ensures (ok <==> DualOpen(n) > 0) && DualOpen(m) == if DualOpen(n) > 0 then DualOpen(n) - 1 else 0
  {
    m, ok := AllocateDual(n, [], pods[0]).0, AllocateDual(n, [], pods[0]).1.Some?;
    DualStep(n, pods[0]);
    rest := DualRun(m, pods[1..]);
  }

  lemma {:induction false} DualRunOutcomes(n: Network, pods: seq<Pod>, k: nat)
    requires n.Inv() && k < |pods|
    ensures DualRun(n, pods)[k] <==> k < DualOpen(n)
    decreases |pods|
  {
    var m, ok, rest := DualRunHead(n, pods);
    assert DualRun(n, pods)[k] == if k == 0 then ok else rest[k - 1];
    if k > 0 {
      DualRunOutcomes(m, pods[1..], k - 1);
    }
  }

  /** In every run exactly as many default dual-stack allocations succeed as the reported figure says. */
  ghost predicate FigureHolds(n: Network)
    requires n.Inv()
  {
    forall pods, k :: 0 <= k < |pods| ==> (DualRun(n, pods)[k] <==> k < DualStackAvailable(n))
  }

  lemma FigureIsOpen(n: Network)
    requires n.Inv()
    ensures FigureHolds(n) <==> DualStackAvailable(n) == DualOpen(n)
  {
    if DualStackAvailable(n) == DualOpen(n) {
      forall pods, k | 0 <= k < |pods|
        ensures DualRun(n, pods)[k] <==> k < DualStackAvailable(n)
      {
        DualRunOutcomes(n, pods, k);
      }
    } else {
      var k := Min(DualStackAvailable(n), DualOpen(n));
      var pods := seq(k + 1, _ => NO_POD);
      DualRunOutcomes(n, pods, k);
      assert !(DualRun(n, pods)[k] <==> k < DualStackAvailable(n));
    }
  }

  lemma AvailableOf(s: seq<Subnet>)
    requires AllInv(s)
    ensures SumUsage(s).available == Wrap(FreeTotal(s))
    ensures Listed(s) < U32 ==> SumUsage(s).available == FreeTotal(s)
  {
    UsageExact(s);
  }

  /** From any state the figure tells how many allocations succeed if and only if it survives two things: the
      reduction to 32 bits, and the free addresses of private subnets, which it counts and the allocator passes over. */
  lemma DualStackFigure(n: Network)
    requires n.Inv()
    ensures FigureHolds(n) <==>
            Min(Wrap(FreeTotal(n.v4.subnets)), Wrap(FreeTotal(n.v6.subnets))) == DualOpen(n)
  {
    FigureIsOpen(n);
    AvailableOf(n.v4.subnets);
    AvailableOf(n.v6.subnets);
  }

  /** So it does where fewer than 2^32 addresses are listed and no private subnet has a free one. */
  lemma FigureWithoutPrivate(n: Network)
    requires n.Inv() && Listed(n.v4.subnets) < U32 && Listed(n.v6.subnets) < U32
    requires OpenTotal(n.v4.subnets) == FreeTotal(n.v4.subnets) && OpenTotal(n.v6.subnets) == FreeTotal(n.v6.subnets)
    ensures FigureHolds(n)
  {
    FigureIsOpen(n);
    AvailableOf(n.v4.subnets);
    AvailableOf(n.v6.subnets);
  }

  /** The same addresses are in use, subnet by subnet. */
  ghost predicate SameUse(s: seq<Subnet>, t: seq<Subnet>) {
    |s| == |t| && forall i :: 0 <= i < |s| ==> t[i].using == s[i].using
  }

  lemma SameUsePut(s: seq<Subnet>, i: nat, t: Subnet)
    requires i < |s| && t.using == s[i].using
    ensures SameUse(s, s[i := t])
  {
  }

  lemma TakeBothFailure(n: Network, i: nat, j: nat, pod: Pod)
    requires i < |n.v4.subnets| && n.v4.subnets[i].Inv() && j < |n.v6.subnets| && n.v6.subnets[j].Inv()
    requires TakeBoth(n, i, j, pod).1.None?
    ensures SameUse(n.v4.subnets, TakeBoth(n, i, j, pod).0.v4.subnets)
    ensures SameUse(n.v6.subnets, TakeBoth(n, i, j, pod).0.v6.subnets)
  {
    var r4, r6 := n.v4.subnets[i].AllocateNext(pod), n.v6.subnets[j].AllocateNext(pod);
    AllocateNextOutcome(n.v4.subnets[i], pod);
    AllocateNextOutcome(n.v6.subnets[j], pod);
    if r4.1.None? {
      SameUsePut(n.v4.subnets, i, r4.0);
    } else {
      ReleaseUndoesTake(n.v4.subnets[i], r4.0, r4.1.value, pod);
      SameUsePut(n.v4.subnets, i, r4.0.Release(r4.1.value.addr));
      SameUsePut(n.v6.subnets, j, r6.0);
    }
  }

  /** A failed dual-stack allocation, with subnets named or not, leaves all addresses in use as they were. */
  lemma DualFailureRestores(n: Network, names: seq<string>, pod: Pod)
    requires n.Inv() && AllocateDual(n, names, pod).1.None?
    ensures SameUse(n.v4.subnets, AllocateDual(n, names, pod).0.v4.subnets)
    ensures SameUse(n.v6.subnets, AllocateDual(n, names, pod).0.v6.subnets)
  {
    var name4, name6 := if names == [] then "" else names[0], if |names| < 2 then "" else names[1];
    var found4, found6 := n.v4.Select(name4, false), n.v6.Select(name6, true);
    if (|names| == 0 || |names| == 2) && found4.Some? && found6.Some? {
      var m := Network(n.v4.Point(name4, found4.value), n.v6.Point(name6, found6.value));
      TakeBothFailure(m, found4.value, found6.value, pod);
    }
  }

  // ---- assigning two addresses is not all or nothing ----------------------------------------------------

  /** The pod can have the address, and does not hold it yet. */
  predicate NewlyGranted(s: Subnet, pod: Pod, a: Addr, forced: bool) {
    && s.spec.Contains(a)
    && (a in s.using ==> s.using[a].pod == pod || (forced && s.using[a].status == Reserved))
    && !(a in s.using && s.using[a].pod == pod && s.using[a].status == Allocated)
  }

  /** Both suites are well formed and name known subnets, and the first address is newly granted. */
  predicate FirstSticks(n: Network, suites: seq<Suite>, pod: Pod, forced: bool)
    requires n.Valid()
  {
    && |suites| == 2 && suites[0].ip.fam != IPv6 && suites[1].ip.fam == IPv6
    && n.ByNameOrIP(suites[1].subnet, suites[1].ip).Some?
    && match n.ByNameOrIP(suites[0].subnet, suites[0].ip)
       case None => false
       case Some(p) => NewlyGranted(n.Side(p.0).subnets[p.1], pod, suites[0].ip, forced)
  }

  lemma SubnetPut(n: Network, six: bool, i: nat, t: Subnet)
    requires i < |n.Side(six).subnets|
    ensures n.PutAt(six, i, t) == n <==> t == n.Side(six).subnets[i]
  {
    assert n.PutAt(six, i, t).Side(six).subnets[i] == t;
    assert n.Side(six).subnets[i := n.Side(six).subnets[i]] == n.Side(six).subnets;
  }

  lemma AssignAtChanges(n: Network, s: Suite, pod: Pod, forced: bool)
    requires n.Inv()
    ensures AssignAt(n, s, pod, forced).1.None? ==> AssignAt(n, s, pod, forced).0 == n
    ensures AssignAt(n, s, pod, forced).0 == n <==>
            var p := n.ByNameOrIP(s.subnet, s.ip);
            p.None? || !NewlyGranted(n.Side(p.value.0).subnets[p.value.1], pod, s.ip, forced)
  {
    var p := n.ByNameOrIP(s.subnet, s.ip);
    if p.Some? {
      var (six, i) := p.value;
      var u := n.Side(six).subnets[i];
      var (t, ip) := u.Assign(pod, s.ip, forced);
      AssignOutcome(u, pod, s.ip, forced);
      SubnetPut(n, six, i, t);
      if ip.Some? && !NewlyGranted(u, pod, s.ip, forced) {
        assert t.using == u.using;
      }
    }
  }

  /** A failed dual-stack assignment leaves the network as it was if and only if its first address was not newly
      granted: otherwise that address stays with the pod. */
  lemma AssignDualFailure(n: Network, suites: seq<Suite>, pod: Pod, forced: bool)
    requires n.Inv() && AssignDual(n, suites, pod, forced).1.None?
    ensures AssignDual(n, suites, pod, forced).0 == n <==> !FirstSticks(n, suites, pod, forced)
  {
    if |suites| == 2 {
      AssignAtChanges(n, suites[0], pod, forced);
      var (m, ip4) := AssignAt(n, suites[0], pod, forced);
      if ip4.Some? {
        IpamRuns.AssignAtKeeps(n, suites[0], pod, forced);
        IpamRuns.NetKeepsInv(n, m, {});
        AssignAtChanges(m, suites[1], pod, forced);
      }
    }
  }

  /** A subnet of four addresses with a single one to hand out, which is free. */
  function OneAddress(name: string, cidr: Net, a: Addr, six: bool): (s: Subnet) {
    Subnet(Spec(name, "net", None, Some(a), Some(a), cidr, None, {}, {}, None, false, six), IPSlice([a], -1), map[], 0)
  }

  lemma FourAddresses(f: Family, base: nat)
    requires base % 4 == 0
    ensures var c := Net(f, base, Width(f) - 2);
      Powers.Aligned(base, c.HostBits()) && c.Contains(Addr(f, base + 1)) && c.plen + 2 == Width(f)
  {
    assert Powers.Mask(base, 2) == 2 * Powers.Mask(base / 2, 1);
    assert Powers.Mask(base + 1, 2) == 2 * Powers.Mask((base + 1) / 2, 1);
  }

  lemma OneAddressInv(name: string, cidr: Net, a: Addr, six: bool)
    requires cidr.Contains(a)
    ensures OneAddress(name, cidr, a, six).Inv()
    ensures forall b :: OneAddress(name, cidr, a, six).spec.Contains(b) <==> b == a
  {
  }

  function PrivateAddress(name: string, a: Addr, base: nat, six: bool): (s: Subnet) {
    var s := OneAddress(name, Net(a.fam, base, Width(a.fam) - 2), a, six);
    s.(spec := s.spec.(private := true))
  }

  lemma PrivateAddressFree(name: string, a: Addr, base: nat, six: bool)
    requires base % 4 == 0 && a.val == base + 1
    ensures var s := PrivateAddress(name, a, base, six);
      s.Inv() && SubnetUsage(s) == Usage(1, 0, 1) && Open(s) == 0
  {
    FourAddresses(a.fam, base);
    var cidr := Net(a.fam, base, Width(a.fam) - 2);
    OneAddressInv(name, cidr, a, six);
    var s := PrivateAddress(name, a, base, six);
    assert forall b :: s.spec.Contains(b) <==> OneAddress(name, cidr, a, six).spec.Contains(b);
  }

  /** Two private subnets with a free address each: the figure is 1, and no allocation succeeds. */
  lemma PrivateOverstates()
    ensures exists n: Network :: n.Inv() && DualStackAvailable(n) == 1 && DualOpen(n) == 0 && !FigureHolds(n)
  {
    var a, b := Addr(IPv4, 9), Addr(IPv6, V6_FLOOR + 9);
    var s4, s6 := PrivateAddress("x", a, 8, false), PrivateAddress("y", b, V6_FLOOR + 8, true);
    PrivateAddressFree("x", a, 8, false);
    PrivateAddressFree("y", b, V6_FLOOR + 8, true);
    var n := Network(Slice([s4], 0, map["x" := 0]), Slice([s6], 0, map["y" := 0]));
    assert n.Inv();
    assert SumUsage([s4]) == SumUsage([]).Add(SubnetUsage(s4)) by { assert [s4][..0] == []; }
    assert SumUsage([s6]) == SumUsage([]).Add(SubnetUsage(s6)) by { assert [s6][..0] == []; }
    assert OpenTotal([s4]) == 0 by { assert [s4][..0] == []; }
    FigureIsOpen(n);
  }

  /** In 0.0.0.8/30 and an IPv6 block of the same size, both acceptable: the IPv6 address is taken, and the IPv4 one
      is not given back. */
  lemma AssignDualNotAtomic()
    ensures exists n: Network, suites, pod ::
              && n.Inv() && |n.v4.subnets| == |n.v6.subnets| == 1
              && n.v4.subnets[0].spec.Acceptable() && n.v6.subnets[0].spec.Acceptable()
              && AssignDual(n, suites, pod, false).1.None? && AssignDual(n, suites, pod, false).0 != n
  {
    var pod, other := Pod("a", "ns"), Pod("b", "ns");
    var a, b := Addr(IPv4, 9), Addr(IPv6, V6_FLOOR + 9);
    var c4, c6 := Net(IPv4, 8, Width(IPv4) - 2), Net(IPv6, V6_FLOOR + 8, Width(IPv6) - 2);
    FourAddresses(IPv4, 8);
    FourAddresses(IPv6, V6_FLOOR + 8);
    var s4, s6 := OneAddress("x", c4, a, false), OneAddress("y", c6, b, true);
    var held := s6.(using := map[b := s6.spec.Record(b, other, Allocated)]);
    OneAddressInv("x", c4, a, false);
    OneAddressInv("y", c6, b, true);
    var n := Network(Slice([s4], 0, map["x" := 0]), Slice([held], 0, map["y" := 0]));
    var suites := [Suite("x", a), Suite("y", b)];
    assert held.spec == s6.spec && held.Inv();
    assert n.Inv();
    assert FirstSticks(n, suites, pod, false);
    assert AssignDual(n, suites, pod, false).1.None?;
    AssignDualFailure(n, suites, pod, false);
  }
}
