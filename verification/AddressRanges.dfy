/**
The address range of a subnet object: its capacity and the intersection test
(pkg/apis/networking/v1/utils.go). The texts of the API object are taken as parsed.
*/
module AddressRanges {
  import opened Powers
  import opened Addresses
  import opened Finite
  import Ipam

  datatype AddressRange = AddressRange(
    version: string, cidr: Net, start: Option<Addr>, end: Option<Addr>, gateway: Option<Addr>,
    reservedIPs: seq<Addr>, excludeIPs: seq<Addr>)
  {
    /** ValidateAddressRange: the bounds are compared only where both are given. */
    predicate Accepted() {
      && (version == "4" || version == "6")
      && Aligned(cidr.base, cidr.HostBits()) && cidr.plen != Width(cidr.fam)
      && (start.Some? ==> cidr.Contains(start.value))
      && (end.Some? ==> cidr.Contains(end.value))
      && (start.Some? && end.Some? ==> !(Cmp(start.value, end.value) > 0))
      && (gateway.Some? ==> (gateway.value.fam == IPv6) == (version == "6") && cidr.Contains(gateway.value))
      && (forall i :: 0 <= i < |reservedIPs| ==> cidr.Contains(reservedIPs[i]))
      && (forall i :: 0 <= i < |excludeIPs| ==> cidr.Contains(excludeIPs[i]))
    }

    /** A block of two addresses or more with the bounds inside, as every accepted range has it; the block stays away
        from the ends of its family, where the loops would run out of it. */
    ghost predicate Valid() {
      && cidr.Valid() && cidr.plen < Width(cidr.fam)
      && Regular(cidr.First()) && cidr.Last() < Max(cidr.fam)
      && (start.Some? ==> cidr.Contains(start.value))
      && (end.Some? ==> cidr.Contains(end.value))
    }

    /** The first address: given, or the second one of the block. */
    function First(): (a: Addr) {
      if start.Some? then start.value else Addr(cidr.fam, cidr.base + 1)
    }

    function Last(): (a: Addr) {
      if end.Some? then end.value else LastUsable(cidr)
    }

    /** The address is in the range and not excluded. */
    ghost predicate Holds(a: Addr) {
      a.fam == cidr.fam && First().val <= a.val <= Last().val && a !in excludeIPs
    }
  }

  /** Accepted ranges are valid, but for those at the ends of a family. */
  lemma AcceptedValid(r: AddressRange)
    requires r.Accepted() && r.cidr.plen <= Width(r.cidr.fam)
    requires Regular(r.cidr.First()) && r.cidr.Last() < Max(r.cidr.fam)
    ensures r.Valid()
  {
  }

  lemma BoundsInside(r: AddressRange)
    requires r.Valid()
    ensures r.First().fam == r.cidr.fam && r.cidr.base <= r.First().val <= r.cidr.Last()
    ensures r.Last().fam == r.cidr.fam && r.cidr.base <= r.Last().val <= r.cidr.Last()
  {
    LastUsableInside(r.cidr);
    assert Pow2(r.cidr.HostBits()) == 2 * Pow2(r.cidr.HostBits() - 1);
    ContainsInterval(r.cidr, r.First());
    ContainsInterval(r.cidr, r.Last());
  }

  /** Without bounds, a range has every address of its block that is not excluded, but for the first and, in IPv4, the
      last: the network and broadcast addresses. */
  lemma DefaultRange(r: AddressRange, a: Addr)
    requires r.Valid() && r.start.None? && r.end.None?
    ensures r.Holds(a) <==>
            && r.cidr.Contains(a) && a !in r.excludeIPs
            && a.val != r.cidr.base && (r.cidr.fam == IPv4 ==> a.val != r.cidr.Last())
  {
    LastUsableInside(r.cidr);
    ContainsInterval(r.cidr, a);
  }

  // ---- intersection -----------------------------------------------------------------------------

  /** Two ranges share an address that neither excludes. */
  ghost predicate Overlap(a: AddressRange, b: AddressRange) {
    exists x :: a.Holds(x) && b.Holds(x)
  }

  lemma HoldsInside(r: AddressRange, x: Addr)
    requires r.Valid() && r.Holds(x)
    ensures r.cidr.Contains(x)
  {
    BoundsInside(r);
    ContainsInterval(r.cidr, x);
  }

  /** The test on the blocks alone never rejects ranges that overlap: blocks are nested or disjoint. */
  lemma PrecheckSound(a: AddressRange, b: AddressRange)
    requires a.Valid() && b.Valid() && Overlap(a, b)
    ensures a.cidr.Contains(b.cidr.First()) || b.cidr.Contains(a.cidr.First())
  {
    var x :| a.Holds(x) && b.Holds(x);
    HoldsInside(a, x);
    HoldsInside(b, x);
    ContainsInterval(a.cidr, a.cidr.First());
    ContainsInterval(b.cidr, b.cidr.First());
    if a.cidr.plen <= b.cidr.plen {
      Laminar(b.cidr, a.cidr, x);
    } else {
      Laminar(a.cidr, b.cidr, x);
    }
  }

  /** The first loop: the addresses of a range that it does not exclude. */
  method ListRange(first: Addr, last: Addr, exclude: seq<Addr>) returns (listed: set<Addr>)
    requires first.fam == last.fam && Regular(first) && last.val < Max(last.fam)
    ensures forall x :: x in listed <==> x.fam == first.fam && first.val <= x.val <= last.val && x !in exclude
  {
    var i := first;
    listed := {};
    while Cmp(i, last) <= 0
      invariant i.fam == first.fam && first.val <= i.val && (i == first || i.val <= last.val + 1)
      invariant forall x :: x in listed <==> x.fam == first.fam && first.val <= x.val < i.val && x !in exclude
      decreases last.val + 1 - i.val
    {
      if i !in exclude {
        listed := listed + {i};
      }
      i := NextIP(i);
    }
  }

  /** The second loop: stops at the first address of a range that is listed. */
  method AnyListed(first: Addr, last: Addr, exclude: seq<Addr>, listed: set<Addr>) returns (r: bool)
    requires first.fam == last.fam && Regular(first) && last.val < Max(last.fam)
    ensures r <==> exists x :: x in listed && x.fam == first.fam && first.val <= x.val <= last.val && x !in exclude
  {
    var i := first;
    while Cmp(i, last) <= 0
      invariant i.fam == first.fam && first.val <= i.val && (i == first || i.val <= last.val + 1)
      invariant forall x :: x in listed && x.fam == first.fam && first.val <= x.val < i.val ==> x in exclude
      decreases last.val + 1 - i.val
    {
      if i !in exclude && i in listed {
        return true;
      }
      i := NextIP(i);
    }
    return false;
  }

  /** True exactly for ranges of the same version that share an address neither excludes. */
  method Intersect(a: AddressRange, b: AddressRange) returns (r: bool)
    requires a.Valid() && b.Valid()
    ensures r <==> a.version == b.version && Overlap(a, b)
  {
    if a.version != b.version {
      return false;
    }
    if !a.cidr.Contains(b.cidr.First()) && !b.cidr.Contains(a.cidr.First()) {
      if Overlap(a, b) {
        PrecheckSound(a, b);
      }
      return false;
    }
    BoundsInside(a);
    BoundsInside(b);
    var rangeA := ListRange(a.First(), a.Last(), a.excludeIPs);
    r := AnyListed(b.First(), b.Last(), b.excludeIPs, rangeA);
    assert forall x :: x in rangeA <==> a.Holds(x);
  }

  // ---- capacity -----------------------------------------------------------------------------------

  /** The number of addresses from the lower to the higher of two, both included; 0 across families. */
  function Capacity(a: Addr, b: Addr): (n: nat) {
    if a.fam != b.fam then 0
    else if a.val <= b.val then b.val - a.val + 1
    else a.val - b.val + 1
  }

  function CalculateCapacity(r: AddressRange): (n: int) {
    Capacity(r.First(), r.Last()) - |r.excludeIPs|
  }

  /** The addresses from `lo` to `hi`. */
  ghost function AddressInterval(f: Family, lo: nat, hi: int): (r: set<Addr>)
    requires lo <= hi + 1
    ensures forall a :: a in r <==> a.fam == f && lo <= a.val <= hi
    ensures |r| == hi + 1 - lo
    decreases hi + 1 - lo
  {
    if lo == hi + 1 then {} else AddressInterval(f, lo, hi - 1) + {Addr(f, hi)}
  }

  lemma {:induction false} ElementsSize<T>(s: seq<T>)
    ensures |Elements(s)| <= |s|
    ensures |Elements(s)| == |s| <==> Distinct(s)
  {
    if s != [] {
      var t, x := s[..|s| - 1], s[|s| - 1];
      ElementsSize(t);
      assert Elements(s) == Elements(t) + {x};
      if x in t {
        var i :| 0 <= i < |t| && t[i] == x;
        assert s[i] == s[|s| - 1];
      } else {
        assert Distinct(s) <==> Distinct(t);
      }
    }
  }

  /** The list is duplicate-free and inside exactly if none of it is lost in the intersection. */
  lemma ExcludedInside(s: seq<Addr>, all: set<Addr>)
    ensures |Elements(s) * all| == |s| <==> Distinct(s) && forall i :: 0 <= i < |s| ==> s[i] in all
  {
    ElementsSize(s);
    SubsetSize(Elements(s) * all, Elements(s));
    if Distinct(s) && forall i :: 0 <= i < |s| ==> s[i] in all {
      assert Elements(s) * all == Elements(s);
    } else if |Elements(s) * all| == |s| {
      assert forall i :: 0 <= i < |s| ==> s[i] in Elements(s);
    }
  }

  /** The synchronised subnet comes from this range. */
  ghost predicate BuiltFrom(s: Ipam.Subnet, r: AddressRange) {
    && s.Inv() && s.spec.cidr == r.cidr && s.spec.black == Elements(r.excludeIPs) && s.spec.gateway == r.gateway
    && s.spec.start == Some(r.First()) && s.spec.end == Some(r.Last())
  }

  ghost function Allocatable(s: Ipam.Subnet): (r: set<Addr>) {
    Elements(s.avail.ips) + s.spec.reserved
  }

  lemma SpecContains(s: Ipam.Spec, r: AddressRange, a: Addr)
    requires r.Valid() && s.cidr == r.cidr && s.start == Some(r.First()) && s.end == Some(r.Last())
    ensures s.Contains(a) <==>
            a.fam == r.cidr.fam && r.First().val <= a.val <= r.Last().val && a !in s.black && s.gateway != Some(a)
  {
    BoundsInside(r);
    ContainsInterval(r.cidr, a);
  }

  lemma AllocatableSize(s: Ipam.Subnet)
    requires s.Inv()
    ensures |Allocatable(s)| == |s.avail.ips| + |s.spec.reserved|
    ensures forall a :: a in Allocatable(s) <==> s.spec.Contains(a)
  {
    DistinctSize(s.avail.ips);
    assert Elements(s.avail.ips) !! s.spec.reserved;
  }

  ghost function GatewaySet(s: Ipam.Spec): (g: set<Addr>) {
    if s.gateway.Some? then {s.gateway.value} else {}
  }

  lemma AllocatableSet(s: Ipam.Subnet, r: AddressRange, all: set<Addr>)
    requires r.Valid() && BuiltFrom(s, r)
    requires forall a :: a in all <==> a.fam == r.cidr.fam && r.First().val <= a.val <= r.Last().val
    ensures Allocatable(s) == all - s.spec.black - GatewaySet(s.spec)
  {
    AllocatableSize(s);
    forall a
      ensures a in Allocatable(s) <==> a in all - s.spec.black - GatewaySet(s.spec)
    {
      SpecContains(s.spec, r, a);
    }
  }

  lemma SplitRange<T>(all: set<T>, black: set<T>, gw: set<T>)
    ensures |all| == |all - black - gw| + |gw * (all - black)| + |black * all|
  {
    assert all == (all - black) + black * all;
    assert all - black == (all - black - gw) + gw * (all - black);
  }

  /** 1 if the gateway lies in the range and is not excluded, as the capacity counts it. */
  function GatewayInRange(s: Ipam.Spec, r: AddressRange): (n: nat) {
    if && s.gateway.Some? && s.gateway.value.fam == r.cidr.fam
       && r.First().val <= s.gateway.value.val <= r.Last().val && s.gateway.value !in r.excludeIPs then 1 else 0
  }

  lemma AllocatableCount(s: Ipam.Subnet, r: AddressRange, all: set<Addr>)
    requires r.Valid() && BuiltFrom(s, r)
    requires forall a :: a in all <==> a.fam == r.cidr.fam && r.First().val <= a.val <= r.Last().val
    ensures |s.avail.ips| + |s.spec.reserved| + GatewayInRange(s.spec, r) == |all| - |Elements(r.excludeIPs) * all|
  {
    var black, gw := Elements(r.excludeIPs), GatewaySet(s.spec);
    AllocatableSize(s);
    AllocatableSet(s, r, all);
    SplitRange(all, black, gw);
    if s.spec.gateway.Some? {
      var g := s.spec.gateway.value;
      assert gw * (all - black) == if g in all && g !in black then {g} else {};
    }
  }

  /** The addresses that the allocator has for the range, the gateway counted in. */
  function Counted(s: Ipam.Subnet, r: AddressRange): (n: nat) {
    |s.avail.ips| + |s.spec.reserved| + GatewayInRange(s.spec, r)
  }

  /** A range whose first address lies behind its last has no addresses. */
  lemma BackwardsEmpty(s: Ipam.Subnet, r: AddressRange)
    requires r.Valid() && BuiltFrom(s, r) && r.Last().val < r.First().val
    ensures Counted(s, r) == 0
  {
    AllocatableCount(s, r, {});
  }

  /** The excluded addresses are distinct and in the range; or, where the first address lies behind the last, they are
      as many as the addresses from the one to the other. */
  ghost predicate ExcludesFit(r: AddressRange) {
    if r.First().val <= r.Last().val then
      && Distinct(r.excludeIPs)
      && forall i :: 0 <= i < |r.excludeIPs| ==>
           r.excludeIPs[i].fam == r.cidr.fam && r.First().val <= r.excludeIPs[i].val <= r.Last().val
    else |r.excludeIPs| == r.First().val - r.Last().val + 1
  }

  /** The capacity of a range counts the addresses of its synchronised subnet, the gateway included if it lies in the
      range and is not excluded, exactly if the excluded addresses fit. */
  lemma CapacityExact(s: Ipam.Subnet, r: AddressRange)
    requires r.Valid() && BuiltFrom(s, r)
    ensures Counted(s, r) == CalculateCapacity(r) <==> ExcludesFit(r)
  {
    BoundsInside(r);
    if r.First().val <= r.Last().val {
      var all := AddressInterval(r.cidr.fam, r.First().val, r.Last().val);
      AllocatableCount(s, r, all);
      ExcludedInside(r.excludeIPs, all);
    } else {
      BackwardsEmpty(s, r);
    }
  }

  /** 10.0.0.0/24 from 10.0.0.255 on, without an end: accepted, with a capacity of 2, and nothing to allocate. */
  lemma BackwardsRange(s: Ipam.Subnet)
    ensures var r := AddressRange("4", TEN, Some(Addr(IPv4, 0x0a00_00ff)), None, None, [], []);
      r.Accepted() && r.Valid() && CalculateCapacity(r) == 2 && (BuiltFrom(s, r) ==> Counted(s, r) == 0)
  {
    var r := AddressRange("4", TEN, Some(Addr(IPv4, 0x0a00_00ff)), None, None, [], []);
    TenValid();
    if BuiltFrom(s, r) {
      BackwardsEmpty(s, r);
    }
  }

  /** 10.0.0.0/24 with 10.0.0.9 excluded twice: accepted, and not counted right. */
  lemma ExcludedTwice(s: Ipam.Subnet)
    ensures var x := Addr(IPv4, 0x0a00_0009); var r := AddressRange("4", TEN, None, None, None, [], [x, x]);
      r.Accepted() && r.Valid() && (BuiltFrom(s, r) ==> Counted(s, r) != CalculateCapacity(r))
  {
    var x := Addr(IPv4, 0x0a00_0009);
    var r := AddressRange("4", TEN, None, None, None, [], [x, x]);
    TenValid();
    if BuiltFrom(s, r) {
      CapacityExact(s, r);
      assert r.excludeIPs[0] == r.excludeIPs[1];
    }
  }

  // ---- the subnet of a range ------------------------------------------------------------------------

  /** TransferSubnetForIPAM: the allocator's configuration of a subnet object. */
  function Transfer(name: string, network: string, netID: Option<nat>, r: AddressRange, lastAllocated: Option<Addr>,
                    private: bool): (s: Ipam.Spec)
  {
    Ipam.Spec(name, network, netID, r.start, r.end, r.cidr, r.gateway, (set a | a in r.reservedIPs),
      (set a | a in r.excludeIPs), lastAllocated, private, r.version == "6" || r.cidr.fam == IPv6)
  }

  /** What the allocator makes of that configuration is built from the range. */
  lemma PreparedIsBuilt(s: Ipam.Subnet, name: string, network: string, netID: Option<nat>, r: AddressRange,
                        lastAllocated: Option<Addr>, private: bool, parentNetID: Option<nat>)
    requires s.Inv() && s.spec == Transfer(name, network, netID, r, lastAllocated, private).Prepared(parentNetID)
    ensures BuiltFrom(s, r)
  {
  }
}
