/**
The allocator's objects, updated in place (pkg/ipam/types/subnet.go, pkg/ipam/types/network.go,
pkg/ipam/manager/manager.go). Every method is proved to make the state change that the functions of
`Ipam` and `IpamNetwork` describe.
*/
module IpamObjects {
  import opened Addresses
  import opened Finite
  import opened Ipam
  import opened IpamNetwork
  import opened IpamUsage
  import Powers
  import IPRanges

  /** Addresses in strictly ascending order, the cursor on the last one handed out if it is listed. */
  ghost predicate Listing(spec: Spec, s: IPSlice) {
    && s.Valid()
    && (forall i, j :: 0 <= i < j < |s.ips| ==> s.ips[i].val < s.ips[j].val)
    && s.Current() == if spec.lastAllocated.Some? && spec.lastAllocated.value in s.ips then spec.lastAllocated else None
  }

  ghost predicate ListedUpTo(spec: Spec, s: IPSlice, bound: nat) {
    && Listing(spec, s)
    && (forall i :: 0 <= i < |s.ips| ==> s.ips[i].val < bound)
    && (forall a :: a in s.ips <==> spec.Contains(a) && a !in spec.reserved && a.val < bound)
  }

  lemma ListStep(spec: Spec, s: IPSlice, a: Addr)
    requires ListedUpTo(spec, s, a.val) && a.fam == spec.cidr.fam
    ensures var lists := spec.Contains(a) && a !in spec.reserved;
      ListedUpTo(spec, if lists then s.Add(a, spec.lastAllocated == Some(a)) else s, a.val + 1)
  {
    assert forall b :: spec.Contains(b) && b.val == a.val ==> b == a;
    var t := s.Add(a, spec.lastAllocated == Some(a));
    assert forall b :: b in t.ips <==> b in s.ips || b == a;
  }

  lemma BoundsInside(s: Spec)
    requires s.cidr.Valid() && s.cidr.plen < Width(s.cidr.fam)
    requires Regular(s.cidr.First()) && s.cidr.Last() < Max(s.cidr.fam)
    requires s.start.Some? && s.end.Some?
    requires s.start.value == Addr(s.cidr.fam, s.cidr.base + 1) || s.cidr.Contains(s.start.value)
    requires s.end.value == LastUsable(s.cidr) || s.cidr.Contains(s.end.value)
    ensures Regular(s.start.value) && InFamily(s.end.value) && s.end.value.val < Max(s.end.value.fam)
    ensures s.start.value.fam == s.end.value.fam == s.cidr.fam
  {
    LastUsableInside(s.cidr);
    ContainsInterval(s.cidr, s.start.value);
    ContainsInterval(s.cidr, s.end.value);
  }

  class SubnetObject {
    var spec: Spec
    var avail: IPSlice
    var using: map<Addr, IP>
    var reservedCount: int

    constructor (spec: Spec)
      ensures this.spec == spec
    {
      this.spec, avail, using, reservedCount := spec, IPSlice([], -1), map[], 0;
    }

    function State(): (s: Subnet)
      reads this
    {
      Subnet(spec, avail, using, reservedCount)
    }

    method AllocateNext(pod: Pod) returns (ip: Option<IP>)
      requires avail.Valid()
      modifies this
      ensures (State(), ip) == old(State()).AllocateNext(pod)
    {
      var count := |avail.ips|;
      for i := 0 to count
        invariant avail.Valid() && |avail.ips| == count
        invariant State().Try(count - i, pod) == old(State()).Try(count, pod)
      {
        avail := avail.Advance();
        var candidate := avail.ips[avail.index];
        if candidate in using {
          continue;
        }
        var record := spec.Record(candidate, pod, Allocated);
        using := using[candidate := record];
        return Some(record);
      }
      return None;
    }

    method Release(a: Addr)
      modifies this
      ensures State() == old(State()).Release(a)
    {
      if a in spec.reserved {
        if a in using {
          using := using[a := using[a].(pod := NO_POD, status := Reserved)];
        }
      } else {
        using := using - {a};
      }
    }

    method Reserve(a: Addr)
      modifies this
      ensures State() == old(State()).Reserve(a)
    {
      if a in using {
        using := using[a := using[a].(status := Reserved)];
      }
    }

    method Assign(pod: Pod, a: Addr, forced: bool) returns (ip: Option<IP>)
      modifies this
      ensures (State(), ip) == old(State()).Assign(pod, a, forced)
    {
      if !spec.Contains(a) {
        return None;
      }
      if a !in using {
        using := using[a := spec.Record(a, pod, Allocated)];
      } else if using[a].pod == pod {
        using := using[a := using[a].(pod := pod, status := Allocated)];
      } else if forced && using[a].status == Reserved {
        using := using[a := using[a].(pod := pod, status := Allocated)];
      } else {
        return None;
      }
      return Some(using[a]);
    }

    // ---- building the state -----------------------------------------------------------------------

    /** The reserved addresses that the subnet may allocate at all. */
    method FilterReserved()
      modifies this`spec, this`reservedCount
      ensures spec == old(spec).(reserved := set a | a in old(spec).reserved && old(spec).Contains(a))
      ensures reservedCount == |spec.reserved|
    {
      var todo, filtered := spec.reserved, {};
      while todo != {}
        invariant todo <= spec.reserved
        invariant filtered == set a | a in spec.reserved && a !in todo && spec.Contains(a)
      {
        var a :| a in todo;
        if spec.Contains(a) {
          filtered := filtered + {a};
        }
        todo := todo - {a};
      }
      spec := spec.(reserved := filtered);
      reservedCount := |spec.reserved|;
    }

    /** The given records of this subnet, and a record for every reserved address that has none. */
    method CollectUsing(ipSet: map<Addr, IP>)
      modifies this`using
      ensures InUseFrom(State(), ipSet)
    {
      using := map[];
      var todo := ipSet.Keys;
      while todo != {}
        invariant todo <= ipSet.Keys
        invariant forall a :: a in using <==> a !in todo && spec.Given(ipSet, a)
        invariant forall a :: a in using ==> using[a] == ipSet[a]
      {
        var a :| a in todo;
        if ipSet[a].subnet == spec.name && spec.Contains(ipSet[a].addr) {
          using := using[a := ipSet[a]];
        }
        todo := todo - {a};
      }
      todo := spec.reserved;
      ghost var given := using;
      while todo != {}
        invariant todo <= spec.reserved
        invariant forall a :: a in using <==> a in given || (a in spec.reserved && a !in todo)
        invariant forall a :: a in using ==>
                    using[a] == if a in given then given[a] else spec.Record(a, NO_POD, Reserved)
      {
        var a :| a in todo;
        if a !in using {
          using := using[a := spec.Record(a, NO_POD, Reserved)];
        }
        todo := todo - {a};
      }
    }

    /** Lists, in ascending order, the allocatable addresses that are not reserved; the cursor is put on the
        last one handed out, if it is among them. */
    method ListAvailable()
      requires spec.start.Some? && spec.end.Some?
      requires Regular(spec.start.value) && InFamily(spec.end.value) && spec.end.value.val < Max(spec.end.value.fam)
      requires spec.start.value.fam == spec.end.value.fam == spec.cidr.fam
      modifies this`avail
      ensures Listing(spec, avail)
      ensures forall a :: a in avail.ips <==> spec.Contains(a) && a !in spec.reserved
    {
      avail := IPSlice([], -1);
      var i, end := spec.start.value, spec.end.value;
      ghost var start := i;
      while Cmp(i, end) <= 0
        invariant i.fam == end.fam && start.val <= i.val && (i.val <= end.val + 1 || i == start)
        invariant ListedUpTo(spec, avail, i.val)
        decreases end.val + 1 - i.val
      {
        ListStep(spec, avail, i);
        if spec.Contains(i) && i !in spec.reserved {
          avail := avail.Add(i, spec.lastAllocated == Some(i));
        }
        i := NextIP(i);
      }
    }

    /** Sync: from any configuration with bounds and any records under their own address, the invariant holds. */
    method Sync(parentNetID: Option<nat>, ipSet: map<Addr, IP>)
      requires spec.start.Some? && spec.end.Some?
      requires Regular(spec.start.value) && InFamily(spec.end.value) && spec.end.value.val < Max(spec.end.value.fam)
      requires spec.start.value.fam == spec.end.value.fam == spec.cidr.fam
      requires forall a :: a in ipSet ==> ipSet[a].addr == a
      modifies this
      ensures State().Inv() && Listing(spec, avail)
      ensures spec == old(spec).(
                netID := if old(spec).netID.None? then parentNetID else old(spec).netID,
                reserved := set a | a in old(spec).reserved && old(spec).Contains(a))
      ensures InUseFrom(State(), ipSet)
    {
      if spec.netID.None? {
        spec := spec.(netID := parentNetID);
      }
      FilterReserved();
      CollectUsing(ipSet);
      ListAvailable();
    }

    /** Checks the configuration and fills in missing bounds: all but the first address of the block and, for
        IPv4, the last. */
    method Canonicalize() returns (ok: bool)
      requires Regular(spec.cidr.First())
      modifies this`spec
      ensures ok == old(spec).Acceptable()
      ensures spec == if ok then old(spec).Bounded() else old(spec)
    {
      ok := spec.Acceptable();
      if !ok {
        return;
      }
      Powers.Pow2Monotonic(2, spec.cidr.HostBits());
      IPRanges.BlockFits(spec.cidr.fam, spec.cidr.base, spec.cidr.HostBits());
      if spec.start.None? {
        spec := spec.(start := Some(NextIP(spec.cidr.First())));
      }
      if spec.end.None? {
        spec := spec.(end := Some(LastUsable(spec.cidr)));
      }
    }

    /** Canonicalize and Sync, as AddSubnet calls them. */
    method Prepare(parentNetID: Option<nat>, ipSet: map<Addr, IP>) returns (ok: bool)
      requires Regular(spec.cidr.First()) && spec.cidr.Last() < Max(spec.cidr.fam)
      requires forall a :: a in ipSet ==> ipSet[a].addr == a
      modifies this
      ensures ok == old(spec).Acceptable()
      ensures spec == if ok then old(spec).Prepared(parentNetID) else old(spec)
      ensures ok ==> State().Inv() && Listing(spec, avail) && InUseFrom(State(), ipSet)
    {
      ok := Canonicalize();
      if ok {
        Powers.Pow2Monotonic(2, spec.cidr.HostBits());
        IPRanges.BlockFits(spec.cidr.fam, spec.cidr.base, spec.cidr.HostBits());
        BoundsInside(spec);
        Sync(parentNetID, ipSet);
      }
    }
  }

  // ---- the subnets of one family -------------------------------------------------------------------

  class SliceObject {
    var subnets: seq<SubnetObject>
    var index: nat
    var names: map<string, nat>
    var lastAllocated: string

    constructor (lastAllocated: string)
      ensures this.lastAllocated == lastAllocated && subnets == [] && index == 0 && names == map[]
    {
      this.lastAllocated, subnets, index, names := lastAllocated, [], 0, map[];
    }

    ghost function States(n: nat): (s: seq<Subnet>)
      requires n <= |subnets|
      reads this`subnets, subnets
      ensures |s| == n && forall i :: 0 <= i < n ==> s[i] == subnets[i].State()
    {
      if n == 0 then [] else States(n - 1) + [subnets[n - 1].State()]
    }

    ghost function State(): (s: Slice)
      reads this, subnets
    {
      Slice(States(|subnets|), index, names)
    }

    ghost predicate Valid()
      reads this, subnets
    {
      Distinct(subnets) && State().Valid()
    }

    /** The cyclic search: it stops at the first available subnet, or back where it started. */
    method GetAvailableSubnet() returns (found: Option<nat>)
      requires Valid()
      modifies this`index
      ensures found == old(State()).Select("", false)
      ensures State() == if found.Some? then old(State()).Point("", found.value) else old(State())
    {
      if subnets == [] {
        return None;
      }
      ghost var s := State();
      var lastIndex := index;
      ghost var left := |subnets|;
      while true
        invariant 0 < left <= |subnets| && index < |subnets|
        invariant s.Search(index, left) == s.Search(lastIndex, |subnets|)
        invariant index == if lastIndex + (|subnets| - left) < |subnets| then lastIndex + (|subnets| - left)
                           else lastIndex - left
        decreases left
      {
        assert subnets[index].State() == s.subnets[index];
        if subnets[index].State().IsAvailable() {
          return Some(index);
        }
        index := NextIndex(index, |subnets|);
        left := left - 1;
        if index == lastIndex {
          return None;
        }
      }
    }

    /** A named subnet of the right family, or with an empty name an available one. */
    method SelectSubnet(name: string, six: bool) returns (found: Option<nat>)
      requires Valid()
      modifies this`index
      ensures found == old(State()).Select(name, six)
      ensures State() == if found.Some? then old(State()).Point(name, found.value) else old(State())
      ensures Valid()
    {
      if name == "" {
        found := GetAvailableSubnet();
        return;
      }
      if name in names && subnets[names[name]].spec.ipv6 == six {
        return Some(names[name]);
      }
      return None;
    }

    method GetSubnetByIP(a: Addr) returns (found: Option<nat>)
      ensures found == State().ByIP(a)
    {
      for i := 0 to |subnets|
        invariant State().ByIP(a, i) == State().ByIP(a)
      {
        if subnets[i].spec.Contains(a) {
          return Some(i);
        }
      }
      return None;
    }

    /** The figures of all subnets added up, and the name of the subnet at the cursor. */
    method TotalUsage() returns (u: Usage, lastAllocation: string)
      requires Valid()
      ensures u == SumUsage(State().subnets)
      ensures lastAllocation == if subnets == [] then "" else State().subnets[index].spec.name
    {
      lastAllocation := if subnets == [] then "" else subnets[index].spec.name;
      u := Usage.Usage(0, 0, 0);
      for i := 0 to |subnets|
        invariant u == SumUsage(State().subnets[..i])
      {
        assert State().subnets[..i + 1][..i] == State().subnets[..i];
        u := u.Add(SubnetUsage(subnets[i].State()));
      }
      assert State().subnets[..|subnets|] == State().subnets;
    }

    /** One subnet object has changed, the others have not. */
    twostate lemma PutState(i: nat)
      requires old(Valid()) && i < |subnets|
      requires subnets == old(subnets) && index == old(index) && names == old(names)
      requires forall j :: 0 <= j < |subnets| && j != i ==> subnets[j].State() == old(subnets[j].State())
      requires subnets[i].spec == old(subnets[i].spec)
      ensures State() == old(State()).Put(i, subnets[i].State()) && Valid()
    {
      assert State().subnets == old(State()).subnets[i := subnets[i].State()];
    }

    method AllocateAt(i: nat, pod: Pod) returns (ip: Option<IP>)
      requires Valid() && i < |subnets| && subnets[i].avail.Valid()
      modifies subnets[i]
      ensures (subnets[i].State(), ip) == old(State()).subnets[i].AllocateNext(pod)
      ensures State() == old(State()).Put(i, subnets[i].State()) && Valid()
    {
      TryOutcome(subnets[i].State(), |subnets[i].avail.ips|, pod);
      ip := subnets[i].AllocateNext(pod);
      PutState(i);
    }

    method ReleaseAt(i: nat, a: Addr)
      requires Valid() && i < |subnets|
      modifies subnets[i]
      ensures State() == old(State()).Put(i, old(State()).subnets[i].Release(a)) && Valid()
    {
      subnets[i].Release(a);
      PutState(i);
    }

    method ReserveAt(i: nat, a: Addr)
      requires Valid() && i < |subnets|
      modifies subnets[i]
      ensures State() == old(State()).Put(i, old(State()).subnets[i].Reserve(a)) && Valid()
    {
      subnets[i].Reserve(a);
      PutState(i);
    }

    method AssignAt(i: nat, pod: Pod, a: Addr, forced: bool) returns (ip: Option<IP>)
      requires Valid() && i < |subnets|
      modifies subnets[i]
      ensures (subnets[i].State(), ip) == old(State()).subnets[i].Assign(pod, a, forced)
      ensures State() == old(State()).Put(i, subnets[i].State()) && Valid()
    {
      ip := subnets[i].Assign(pod, a, forced);
      PutState(i);
    }

    /** A subnet object has been appended, the others have not changed. */
    twostate lemma JoinState(subnet: SubnetObject)
      requires old(Valid()) && subnet !in old(subnets) && subnets == old(subnets) + [subnet]
      requires forall j :: 0 <= j < |old(subnets)| ==> subnets[j].State() == old(subnets[j].State())
      requires names == old(names)[subnet.spec.name := |old(subnets)|]
      requires index == if subnet.spec.name == lastAllocated then |old(subnets)| else old(index)
      ensures State() == old(State()).Join(subnet.State(), lastAllocated) && Valid()
    {
      assert State().subnets == old(State()).subnets + [subnet.State()];
    }

    /** A subnet joins the slice in the state that Sync gives it; it gets the cursor if it was the last one used. */
    method AddSubnet(subnet: SubnetObject, parentNetID: Option<nat>, ipSet: map<Addr, IP>) returns (ok: bool)
      requires Valid() && subnet !in subnets
      requires Regular(subnet.spec.cidr.First()) && subnet.spec.cidr.Last() < Max(subnet.spec.cidr.fam)
      requires forall a :: a in ipSet ==> ipSet[a].addr == a
      modifies this, subnet
      ensures ok == old(subnet.spec).Acceptable() && Valid()
      ensures subnets == if ok then old(subnets) + [subnet] else old(subnets)
      ensures subnet.spec == if ok then old(subnet.spec).Prepared(parentNetID) else old(subnet.spec)
      ensures ok ==> subnet.State().Inv() && Listing(subnet.spec, subnet.avail) && InUseFrom(subnet.State(), ipSet)
      ensures State() == if ok then old(State()).Join(subnet.State(), lastAllocated) else old(State())
    {
      ok := subnet.Prepare(parentNetID, ipSet);
      if !ok {
        assert State().subnets == old(State()).subnets;
        return;
      }
      subnets := subnets + [subnet];
      names := names[subnet.spec.name := |subnets| - 1];
      if subnet.spec.name == lastAllocated {
        index := names[subnet.spec.name];
      }
      JoinState(subnet);
    }
  }

  lemma PutAgain(n: Network, i: nat, s: Subnet, t: Subnet, j: nat, u: Subnet)
    requires i < |n.v4.subnets| && j < |n.v6.subnets|
    ensures n.PutAt(false, i, s).PutAt(true, j, u).PutAt(false, i, t) == n.PutAt(false, i, t).PutAt(true, j, u)
  {
    assert n.v4.subnets[i := s][i := t] == n.v4.subnets[i := t];
  }

  // ---- a network -----------------------------------------------------------------------------------

  class NetworkObject {
    const v4: SliceObject
    const v6: SliceObject

    constructor (lastAllocatedSubnet: string, lastAllocatedIPv6Subnet: string)
      ensures Valid() && State().Inv()
    {
      v4 := new SliceObject(lastAllocatedSubnet);
      v6 := new SliceObject(lastAllocatedIPv6Subnet);
    }

    ghost predicate Valid()
      reads v4, v6, v4.subnets, v6.subnets
    {
      && v4 != v6 && v4.Valid() && v6.Valid()
      && forall i, j :: 0 <= i < |v4.subnets| && 0 <= j < |v6.subnets| ==> v4.subnets[i] != v6.subnets[j]
    }

    ghost function State(): (n: Network)
      reads v4, v6, v4.subnets, v6.subnets
    {
      Network(v4.State(), v6.State())
    }

    function Side(six: bool): (s: SliceObject) {
      if six then v6 else v4
    }

    function Other(six: bool): (s: SliceObject) {
      if six then v4 else v6
    }

    /** Only objects of one family have changed. */
    twostate lemma SideState(six: bool)
      requires old(Valid()) && Side(six).Valid()
      requires v4.subnets == old(v4.subnets) && v6.subnets == old(v6.subnets)
      requires Other(six).index == old(Other(six).index) && Other(six).names == old(Other(six).names)
      requires forall j :: 0 <= j < |Other(six).subnets| ==>
                 Other(six).subnets[j].State() == old(Other(six).subnets[j].State())
      ensures Valid() && State() == old(State()).WithSide(six, Side(six).State())
    {
      assert Other(six).State().subnets == old(Other(six).State()).subnets;
    }

    // One object at a time: the methods below change a cursor or one subnet.

    method SelectSubnet(six: bool, name: string) returns (found: Option<nat>)
      requires Valid()
      modifies v4`index, v6`index
      ensures Valid() && found == old(State()).Side(six).Select(name, six)
      ensures State() ==
              if found.Some? then old(State()).WithSide(six, old(State()).Side(six).Point(name, found.value))
              else old(State())
    {
      found := Side(six).SelectSubnet(name, six);
      SideState(six);
    }

    method AllocateAt(six: bool, i: nat, pod: Pod) returns (ip: Option<IP>)
      requires Valid() && i < |State().Side(six).subnets| && State().Side(six).subnets[i].avail.Valid()
      modifies v4.subnets, v6.subnets
      ensures Valid()
      ensures ip == old(State()).Side(six).subnets[i].AllocateNext(pod).1
      ensures State() == old(State()).PutAt(six, i, old(State()).Side(six).subnets[i].AllocateNext(pod).0)
    {
      ip := Side(six).AllocateAt(i, pod);
      SideState(six);
    }

    method ReleaseAt(six: bool, i: nat, a: Addr)
      requires Valid() && i < |State().Side(six).subnets|
      modifies v4.subnets, v6.subnets
      ensures Valid()
      ensures State() == old(State()).PutAt(six, i, old(State()).Side(six).subnets[i].Release(a))
    {
      Side(six).ReleaseAt(i, a);
      SideState(six);
    }

    method ReserveAt(six: bool, i: nat, a: Addr)
      requires Valid() && i < |State().Side(six).subnets|
      modifies v4.subnets, v6.subnets
      ensures Valid()
      ensures State() == old(State()).PutAt(six, i, old(State()).Side(six).subnets[i].Reserve(a))
    {
      Side(six).ReserveAt(i, a);
      SideState(six);
    }

    method GetSubnetByName(name: string) returns (p: Option<(bool, nat)>)
      requires Valid()
      ensures p == State().ByName(name)
    {
      if name == "" {
        return None;
      }
      if name in v4.names {
        return Some((false, v4.names[name]));
      }
      if name in v6.names {
        return Some((true, v6.names[name]));
      }
      return None;
    }

    method GetSubnetByNameOrIP(name: string, a: Addr) returns (p: Option<(bool, nat)>)
      requires Valid()
      ensures p == State().ByNameOrIP(name, a)
    {
      if name != "" {
        p := GetSubnetByName(name);
        return;
      }
      var six := a.fam == IPv6;
      var found := Side(six).GetSubnetByIP(a);
      return if found.Some? then Some((six, found.value)) else None;
    }

    method AssignSuite(s: Suite, pod: Pod, forced: bool) returns (ips: Option<seq<IP>>)
      requires Valid()
      modifies v4.subnets, v6.subnets
      ensures (State(), ips) == IpamNetwork.AssignAt(old(State()), s, pod, forced)
      ensures Valid()
    {
      var p := GetSubnetByNameOrIP(s.subnet, s.ip);
      if p.None? {
        return None;
      }
      var ip := Side(p.value.0).AssignAt(p.value.1, pod, s.ip, forced);
      SideState(p.value.0);
      if ip.None? {
        return None;
      }
      return Some([ip.value]);
    }

    /** A subnet joins the side of its family; refreshNetwork builds every network this way. */
    method AddSubnet(subnet: SubnetObject, netID: Option<nat>, ipSet: map<Addr, IP>) returns (ok: bool)
      requires Valid() && State().Inv() && subnet !in v4.subnets && subnet !in v6.subnets
      requires Regular(subnet.spec.cidr.First()) && subnet.spec.cidr.Last() < Max(subnet.spec.cidr.fam)
      requires forall a :: a in ipSet ==> ipSet[a].addr == a
      modifies v4, v6, subnet
      ensures Valid() && State().Inv()
      ensures ok == old(subnet.spec).Acceptable()
      ensures subnet.spec == if ok then old(subnet.spec).Prepared(netID) else old(subnet.spec)
      ensures ok ==> subnet.State().Inv() && Listing(subnet.spec, subnet.avail) && InUseFrom(subnet.State(), ipSet)
      ensures var six := old(subnet.spec.ipv6);
        State() ==
          if ok then old(State()).WithSide(six, old(State()).Side(six).Join(subnet.State(), Side(six).lastAllocated))
          else old(State())
    {
      var six := subnet.spec.ipv6;
      ok := Side(six).AddSubnet(subnet, netID, ipSet);
      OtherSide(six);
      if ok {
        JoinKeepsInv(old(Side(six).State()), subnet.State(), Side(six).lastAllocated);
        assert Side(six).State().Inv();
      }
      assert State().Inv();
    }

    twostate lemma OtherSide(six: bool)
      requires old(Valid()) && Other(six).subnets == old(Other(six).subnets)
      requires Other(six).index == old(Other(six).index) && Other(six).names == old(Other(six).names)
      requires forall j :: 0 <= j < |Other(six).subnets| ==>
                 Other(six).subnets[j].State() == old(Other(six).subnets[j].State())
      ensures Other(six).State() == old(Other(six).State()) && Other(six).Valid()
    {
      assert Other(six).State().subnets == old(Other(six).State()).subnets;
    }

    // The operations of the manager.

    /** allocateIPv4 and allocateIPv6. */
    method AllocateOne(six: bool, names: seq<string>, pod: Pod) returns (ips: Option<seq<IP>>)
      requires Valid() && State().Ready()
      modifies v4`index, v6`index, v4.subnets, v6.subnets
      ensures (State(), ips) == IpamNetwork.AllocateOne(old(State()), six, names, pod)
      ensures Valid()
    {
      if |names| > 1 {
        return None;
      }
      var name := if names == [] then "" else names[0];
      var found := SelectSubnet(six, name);
      if found.None? {
        return None;
      }
      var ip := AllocateAt(six, found.value, pod);
      if ip.None? {
        return None;
      }
      return Some([ip.value]);
    }

    /** allocateDualStack, with the IPv4 address given back if no IPv6 address is found. */
    method AllocateDual(names: seq<string>, pod: Pod) returns (ips: Option<seq<IP>>)
      requires Valid() && State().Ready()
      modifies v4`index, v6`index, v4.subnets, v6.subnets
      ensures (State(), ips) == IpamNetwork.AllocateDual(old(State()), names, pod)
      ensures Valid()
    {
      if |names| != 0 && |names| != 2 {
        return None;
      }
      var name4, name6 := if names == [] then "" else names[0], if names == [] then "" else names[1];
      var i := SelectSubnet(false, name4);
      if i.None? {
        return None;
      }
      var j := SelectSubnet(true, name6);
      if j.None? {
        return None;
      }
      ips := TakeBoth(i.value, j.value, pod);
    }

    method TakeBoth(i: nat, j: nat, pod: Pod) returns (ips: Option<seq<IP>>)
      requires Valid() && i < |State().v4.subnets| && j < |State().v6.subnets|
      requires State().v4.subnets[i].avail.Valid() && State().v6.subnets[j].avail.Valid()
      modifies v4.subnets, v6.subnets
      ensures (State(), ips) == IpamNetwork.TakeBoth(old(State()), i, j, pod)
      ensures Valid()
    {
      var ip4 := AllocateAt(false, i, pod);
      if ip4.None? {
        return None;
      }
      var ip6 := AllocateAt(true, j, pod);
      if ip6.None? {
        ReleaseAt(false, i, ip4.value.addr);
        PutAgain(old(State()), i, old(State()).v4.subnets[i].AllocateNext(pod).0, State().v4.subnets[i],
                 j, State().v6.subnets[j]);
        return None;
      }
      return Some([ip4.value, ip6.value]);
    }

    /** assignIPv4 and assignIPv6. */
    method AssignOne(six: bool, suites: seq<Suite>, pod: Pod, forced: bool) returns (ips: Option<seq<IP>>)
      requires Valid()
      modifies v4.subnets, v6.subnets
      ensures (State(), ips) == IpamNetwork.AssignOne(old(State()), six, suites, pod, forced)
      ensures Valid()
    {
      if |suites| != 1 || (suites[0].ip.fam == IPv6) != six {
        return None;
      }
      ips := AssignSuite(suites[0], pod, forced);
    }

    /** assignDualStack: an assigned IPv4 address is not given back if the IPv6 one fails. */
    method AssignDual(suites: seq<Suite>, pod: Pod, forced: bool) returns (ips: Option<seq<IP>>)
      requires Valid()
      modifies v4.subnets, v6.subnets
      ensures (State(), ips) == IpamNetwork.AssignDual(old(State()), suites, pod, forced)
      ensures Valid()
    {
      if |suites| != 2 || suites[0].ip.fam == IPv6 || suites[1].ip.fam != IPv6 {
        return None;
      }
      var p := GetSubnetByNameOrIP(suites[0].subnet, suites[0].ip);
      var q := GetSubnetByNameOrIP(suites[1].subnet, suites[1].ip);
      if p.None? || q.None? {
        return None;
      }
      ips := AssignBoth(suites[0], suites[1], pod, forced);
    }

    method AssignBoth(s: Suite, t: Suite, pod: Pod, forced: bool) returns (ips: Option<seq<IP>>)
      requires Valid()
      modifies v4.subnets, v6.subnets
      ensures (State(), ips) == IpamNetwork.AssignBoth(old(State()), s, t, pod, forced)
      ensures Valid()
    {
      var ip4 := AssignSuite(s, pod, forced);
      if ip4.None? {
        return None;
      }
      var ip6 := AssignSuite(t, pod, forced);
      if ip6.None? {
        return None;
      }
      return Some(ip4.value + ip6.value);
    }

    method Release(suites: seq<Suite>) returns (ok: bool)
      requires Valid()
      modifies v4.subnets, v6.subnets
      ensures (State(), ok) == ReleaseAll(old(State()), suites)
      ensures Valid()
    {
      for k := 0 to |suites|
        invariant Valid()
        invariant ReleaseAll(State(), suites[k..]) == ReleaseAll(old(State()), suites)
      {
        assert suites[k..][0] == suites[k] && suites[k..][1..] == suites[k + 1..];
        var p := GetSubnetByName(suites[k].subnet);
        if p.None? {
          return false;
        }
        ReleaseAt(p.value.0, p.value.1, suites[k].ip);
      }
      return true;
    }

    method Reserve(suites: seq<Suite>) returns (ok: bool)
      requires Valid()
      modifies v4.subnets, v6.subnets
      ensures (State(), ok) == ReserveAll(old(State()), suites)
      ensures Valid()
    {
      for k := 0 to |suites|
        invariant Valid()
        invariant ReserveAll(State(), suites[k..]) == ReserveAll(old(State()), suites)
      {
        assert suites[k..][0] == suites[k] && suites[k..][1..] == suites[k + 1..];
        var p := GetSubnetByName(suites[k].subnet);
        if p.None? {
          return false;
        }
        ReserveAt(p.value.0, p.value.1, suites[k].ip);
      }
      return true;
    }
  }
}
