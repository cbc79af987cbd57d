/**
From a subnet object's address range to the allocator's subnet (pkg/utils/transform/ipam.go,
pkg/ipam/types/subnet.go): the objects that the allocator prepares are the ones the capacity is compared with.
*/
module RangeSubnets {
  import opened Addresses
  import opened AddressRanges
  import Ipam
  import IpamObjects
  import IPRanges
  import Powers

  lemma AcceptableIsValid(name: string, network: string, netID: Option<nat>, r: AddressRange,
                          lastAllocated: Option<Addr>, private: bool)
    requires Transfer(name, network, netID, r, lastAllocated, private).Acceptable()
    requires Regular(r.cidr.First()) && r.cidr.Last() < Max(r.cidr.fam)
    ensures r.Valid()
  {
    IPRanges.BlockFits(r.cidr.fam, r.cidr.base, r.cidr.HostBits());
  }

  /** Of the ranges that the API validation accepts, the allocator takes exactly those with at least four addresses in
      their block; a block of two is accepted and then refused. */
  lemma AcceptedIsAcceptable(name: string, network: string, netID: Option<nat>, r: AddressRange,
                             lastAllocated: Option<Addr>, private: bool)
    requires r.Accepted() && r.cidr.plen <= Width(r.cidr.fam)
    ensures Transfer(name, network, netID, r, lastAllocated, private).Acceptable() <==>
            name != "" && network != "" && r.cidr.base + 3 <= r.cidr.Last()
  {
    var k := r.cidr.HostBits();
    assert Powers.Pow2(1) == 2;
    if k >= 2 {
      Powers.Pow2Monotonic(2, k);
    }
  }

  /** For example 10.0.0.0/31. */
  lemma TwoAddresses()
    ensures var r := AddressRange("4", Net(IPv4, 0x0a00_0000, 31), None, None, None, [], []);
      r.Accepted() && !Transfer("s", "n", None, r, None, false).Acceptable()
  {
    assert Powers.Mask(0x0500_0000, 0) == 0x0500_0000;
  }

  /** The allocator may give exactly the addresses of the range, but for the gateway. */
  lemma SameAddresses(name: string, network: string, netID: Option<nat>, r: AddressRange, lastAllocated: Option<Addr>,
                      private: bool, parentNetID: Option<nat>, a: Addr)
    requires r.Valid()
    ensures Transfer(name, network, netID, r, lastAllocated, private).Prepared(parentNetID).Contains(a) <==>
            r.Holds(a) && r.gateway != Some(a)
  {
    SpecContains(Transfer(name, network, netID, r, lastAllocated, private).Prepared(parentNetID), r, a);
  }

  /** A subnet is made from a range and prepared as AddSubnet prepares it: exactly the acceptable ones get through,
      and then the capacity of the range says how many addresses there are exactly where `CapacityExact` says so. */
  method PrepareRange(name: string, network: string, netID: Option<nat>, r: AddressRange, lastAllocated: Option<Addr>,
                      private: bool, parentNetID: Option<nat>, ipSet: map<Addr, Ipam.IP>)
    returns (subnet: IpamObjects.SubnetObject, ok: bool)
    requires Regular(r.cidr.First()) && r.cidr.Last() < Max(r.cidr.fam)
    requires forall a :: a in ipSet ==> ipSet[a].addr == a
    ensures fresh(subnet) && ok == Transfer(name, network, netID, r, lastAllocated, private).Acceptable()
    ensures ok ==> r.Valid() && BuiltFrom(subnet.State(), r) && Ipam.InUseFrom(subnet.State(), ipSet)
    ensures ok ==> forall a :: a in subnet.spec.reserved <==> a in r.reservedIPs && subnet.spec.Contains(a)
    ensures ok ==> subnet.spec.name == name && subnet.spec.network == network && subnet.spec.private == private
    ensures ok ==> subnet.spec.netID == if netID.Some? then netID else parentNetID
    ensures ok ==> (subnet.spec.ipv6 <==> r.version == "6" || r.cidr.fam == IPv6)
    ensures ok ==> IpamObjects.Listing(subnet.spec, subnet.avail) && subnet.spec.lastAllocated == lastAllocated
    ensures ok ==> (Counted(subnet.State(), r) == CalculateCapacity(r) <==> ExcludesFit(r))
  {
    subnet := new IpamObjects.SubnetObject(Transfer(name, network, netID, r, lastAllocated, private));
    ok := subnet.Prepare(parentNetID, ipSet);
    if ok {
      AcceptableIsValid(name, network, netID, r, lastAllocated, private);
      PreparedIsBuilt(subnet.State(), name, network, netID, r, lastAllocated, private, parentNetID);
      CapacityExact(subnet.State(), r);
    }
  }
}
