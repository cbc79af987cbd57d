/**
The subnets of a network, the choice among them and the allocator's operations on a whole network
(pkg/ipam/types/subnet.go, pkg/ipam/types/network.go, pkg/ipam/manager/manager.go), on values.
*/
module IpamNetwork {
  import opened Addresses
  import opened Ipam

  /** The subnets of one family, a cursor over them and their positions by name. */
  datatype Slice = Slice(subnets: seq<Subnet>, index: nat, names: map<string, nat>)
  {
    ghost predicate Inv() {
      && (forall i :: 0 <= i < |subnets| ==> subnets[i].Inv())
      && Valid()
    }

    /** All that the operations need: cursors in range, names known. */
    ghost predicate Ready() {
      Valid() && forall i :: 0 <= i < |subnets| ==> subnets[i].avail.Valid()
    }

    predicate Valid() {
      && (index == 0 || index < |subnets|)
      && (forall n :: n in names ==> names[n] < |subnets| && subnets[names[n]].spec.name == n)
    }

    /** The first available subnet among the next `n`, starting at `i`. */
    function Search(i: nat, n: nat): (r: Option<nat>)
      requires i < |subnets|
      ensures r.Some? ==> r.value < |subnets| && subnets[r.value].IsAvailable()
      decreases n
    {
      if n == 0 then None
      else if subnets[i].IsAvailable() then Some(i)
      else Search(NextIndex(i, |subnets|), n - 1)
    }

    /** A named subnet, or with an empty name the first available one from the cursor on. */
    function Select(name: string, v6: bool): (r: Option<nat>)
      requires Valid()
      ensures r.Some? ==> r.value < |subnets|
    {
      if name != "" then
        if name in names && subnets[names[name]].spec.ipv6 == v6 then Some(names[name]) else None
      else if subnets == [] then None
      else Search(index, |subnets|)
    }

    /** The cursor stays at a subnet found by availability. */
    function Point(name: string, i: nat): (s: Slice) {
      if name == "" then this.(index := i) else this
    }

    function Put(i: nat, s: Subnet): (r: Slice)
      requires i < |subnets|
    {
      this.(subnets := subnets[i := s])
    }

    /** One more subnet, known by its name; it gets the cursor if it was the last one used. */
    function Join(t: Subnet, lastAllocated: string): (s: Slice) {
      Slice(subnets + [t], if t.spec.name == lastAllocated then |subnets| else index, names[t.spec.name := |subnets|])
    }

    /** The first subnet that may hold the address. */
    function ByIP(a: Addr, i: nat := 0): (r: Option<nat>)
      requires i <= |subnets|
      ensures r.Some? ==> r.value < |subnets| && subnets[r.value].spec.Contains(a)
      decreases |subnets| - i
    {
      if i == |subnets| then None
      else if subnets[i].spec.Contains(a) then Some(i)
      else ByIP(a, i + 1)
    }
  }

  lemma JoinKeepsInv(s: Slice, t: Subnet, lastAllocated: string)
    requires s.Inv() && t.Inv()
    ensures s.Join(t, lastAllocated).Inv()
  {
  }

  /** A subnet that has joined is found by its name, every other name leads where it led, and the cursor is at the new
      subnet exactly if it was the last one used. */
  lemma JoinOutcome(s: Slice, t: Subnet, lastAllocated: string, name: string, six: bool)
    requires s.Valid() && t.spec.name != "" && name != ""
    ensures var r := s.Join(t, lastAllocated);
      && r.Valid() && r.subnets[|s.subnets|] == t && r.subnets[..|s.subnets|] == s.subnets
      && r.Select(name, six) ==
           (if name != t.spec.name then s.Select(name, six)
            else if t.spec.ipv6 == six then Some(|r.subnets| - 1) else None)
      && r.index == if t.spec.name == lastAllocated then |r.subnets| - 1 else s.index
  {
  }

  datatype Network = Network(v4: Slice, v6: Slice)
  {
    ghost predicate Inv() {
      v4.Inv() && v6.Inv()
    }

    ghost predicate Ready() {
      v4.Ready() && v6.Ready()
    }

    predicate Valid() {
      v4.Valid() && v6.Valid()
    }

    function Side(six: bool): (s: Slice) {
      if six then v6 else v4
    }

    function WithSide(six: bool, s: Slice): (n: Network) {
      if six then this.(v6 := s) else this.(v4 := s)
    }

    /** The position of a subnet by its name, IPv4 subnets first. */
    function ByName(name: string): (r: Option<(bool, nat)>)
      requires Valid()
      ensures r.Some? ==> r.value.1 < |Side(r.value.0).subnets|
    {
      if name == "" then None
      else if name in v4.names then Some((false, v4.names[name]))
      else if name in v6.names then Some((true, v6.names[name]))
      else None
    }

    function ByNameOrIP(name: string, a: Addr): (r: Option<(bool, nat)>)
      requires Valid()
      ensures r.Some? ==> r.value.1 < |Side(r.value.0).subnets|
    {
      if name != "" then ByName(name)
      else
        var six := a.fam == IPv6;
        match Side(six).ByIP(a)
        case None => None
        case Some(i) => Some((six, i))
    }

    function PutAt(six: bool, i: nat, s: Subnet): (n: Network)
      requires i < |Side(six).subnets|
    {
      WithSide(six, Side(six).Put(i, s))
    }
  }

  // ---- the operations ------------------------------------------------------------------------------

  type Outcome = (Network, Option<seq<IP>>)

  /** allocateIPv4 and allocateIPv6: at most one subnet may be named. */
  function AllocateOne(n: Network, six: bool, names: seq<string>, pod: Pod): (r: Outcome)
    requires n.Ready()
  {
    if |names| > 1 then (n, None)
    else
      var name := if names == [] then "" else names[0];
      match n.Side(six).Select(name, six)
      case None => (n, None)
      case Some(i) =>
        var (t, ip) := n.Side(six).subnets[i].AllocateNext(pod);
        var m := n.WithSide(six, n.Side(six).Point(name, i).Put(i, t));
        (m, if ip.Some? then Some([ip.value]) else None)
  }

  /** The two allocations of allocateDualStack: the IPv4 address is given back if no IPv6 one is found. */
  function TakeBoth(n: Network, i: nat, j: nat, pod: Pod): (r: Outcome)
    requires i < |n.v4.subnets| && n.v4.subnets[i].avail.Valid()
    requires j < |n.v6.subnets| && n.v6.subnets[j].avail.Valid()
  {
    var (t4, ip4) := n.v4.subnets[i].AllocateNext(pod);
    if ip4.None? then (n.PutAt(false, i, t4), None)
    else
      var (t6, ip6) := n.v6.subnets[j].AllocateNext(pod);
      if ip6.None? then (n.PutAt(false, i, t4.Release(ip4.value.addr)).PutAt(true, j, t6), None)
      else (n.PutAt(false, i, t4).PutAt(true, j, t6), Some([ip4.value, ip6.value]))
  }

  /** allocateDualStack: none or two subnets are named, both are found before anything is allocated. */
  function AllocateDual(n: Network, names: seq<string>, pod: Pod): (r: Outcome)
    requires n.Ready()
  {
    if |names| != 0 && |names| != 2 then (n, None)
    else
      var name4, name6 := if names == [] then "" else names[0], if names == [] then "" else names[1];
      match n.v4.Select(name4, false)
      case None => (n, None)
      case Some(i) =>
        match n.v6.Select(name6, true)
        case None => (n.(v4 := n.v4.Point(name4, i)), None)
        case Some(j) => TakeBoth(Network(n.v4.Point(name4, i), n.v6.Point(name6, j)), i, j, pod)
  }

  datatype Suite = Suite(subnet: string, ip: Addr)

  /** assignIPv4 and assignIPv6 without the checks on the number and family of the addresses. */
  function AssignAt(n: Network, s: Suite, pod: Pod, forced: bool): (r: Outcome)
    requires n.Valid()
  {
    match n.ByNameOrIP(s.subnet, s.ip)
    case None => (n, None)
    case Some(p) =>
      var (t, ip) := n.Side(p.0).subnets[p.1].Assign(pod, s.ip, forced);
      (n.PutAt(p.0, p.1, t), if ip.Some? then Some([ip.value]) else None)
  }

  function AssignOne(n: Network, six: bool, suites: seq<Suite>, pod: Pod, forced: bool): (r: Outcome)
    requires n.Valid()
  {
    if |suites| != 1 || (suites[0].ip.fam == IPv6) != six then (n, None)
    else AssignAt(n, suites[0], pod, forced)
  }

  /** The two assignments of assignDualStack: the first address stays assigned if the second fails. */
  function AssignBoth(n: Network, s: Suite, t: Suite, pod: Pod, forced: bool): (r: Outcome)
    requires n.Valid()
  {
    var (m, ip4) := AssignAt(n, s, pod, forced);
    if ip4.None? then (m, None)
    else
      assert m.Valid();
      var (m2, ip6) := AssignAt(m, t, pod, forced);
      (m2, if ip6.None? then None else Some(ip4.value + ip6.value))
  }

  /** assignDualStack: both subnets are found before anything is assigned. */
  function AssignDual(n: Network, suites: seq<Suite>, pod: Pod, forced: bool): (r: Outcome)
    requires n.Valid()
  {
    if |suites| != 2 || suites[0].ip.fam == IPv6 || suites[1].ip.fam != IPv6 then (n, None)
    else if n.ByNameOrIP(suites[0].subnet, suites[0].ip).None? then (n, None)
    else if n.ByNameOrIP(suites[1].subnet, suites[1].ip).None? then (n, None)
    else AssignBoth(n, suites[0], suites[1], pod, forced)
  }

  /** Release and Reserve work through the list and stop at the first suite without a known subnet. */
  function ReleaseAll(n: Network, suites: seq<Suite>): (r: (Network, bool))
    requires n.Valid()
    decreases |suites|
  {
    if suites == [] then (n, true)
    else
      match n.ByName(suites[0].subnet)
      case None => (n, false)
      case Some(p) =>
        var m := n.PutAt(p.0, p.1, n.Side(p.0).subnets[p.1].Release(suites[0].ip));
        assert m.Valid();
        ReleaseAll(m, suites[1..])
  }

  function ReserveAll(n: Network, suites: seq<Suite>): (r: (Network, bool))
    requires n.Valid()
    decreases |suites|
  {
    if suites == [] then (n, true)
    else
      match n.ByName(suites[0].subnet)
      case None => (n, false)
      case Some(p) =>
        var m := n.PutAt(p.0, p.1, n.Side(p.0).subnets[p.1].Reserve(suites[0].ip));
        assert m.Valid();
        ReserveAll(m, suites[1..])
  }

  // ---- the choice of a subnet -------------------------------------------------------------------------

  /** The cyclic search over the subnets misses none. */
  lemma {:induction false} SearchMisses(s: Slice, i: nat, n: nat, k: nat)
    requires i < |s.subnets| && n <= |s.subnets| && s.Search(i, n).None? && 1 <= k <= n
    ensures !s.subnets[Ahead(i - 1, |s.subnets|, k)].IsAvailable()
    decreases n
  {
    if k > 1 {
      SearchMisses(s, NextIndex(i, |s.subnets|), n - 1, k - 1);
    }
  }

  lemma SelectAvailable(s: Slice, six: bool)
    requires s.Valid()
    ensures s.Select("", six).Some? <==> exists i :: 0 <= i < |s.subnets| && s.subnets[i].IsAvailable()
    ensures s.Select("", six).Some? ==> s.subnets[s.Select("", six).value].IsAvailable()
  {
    if i: nat :| i < |s.subnets| && s.subnets[i].IsAvailable() && s.Select("", six).None? {
      var k := FullTurn(s.index - 1, |s.subnets|, i);
      SearchMisses(s, s.index, |s.subnets|, k);
    }
  }

  /** Allocation of one address without a named subnet succeeds exactly if some subnet of the family that
      is not private has a free address. */
  lemma AllocateOneComplete(n: Network, six: bool, pod: Pod)
    requires n.Inv()
    ensures AllocateOne(n, six, [], pod).1.Some? <==>
            exists i ::
              && 0 <= i < |n.Side(six).subnets|
              && !n.Side(six).subnets[i].spec.private && n.Side(six).subnets[i].Free() != {}
  {
    var s := n.Side(six);
    SelectAvailable(s, six);
    forall i | 0 <= i < |s.subnets|
      ensures s.subnets[i].IsAvailable() <==> !s.subnets[i].spec.private && s.subnets[i].Free() != {}
    {
      FreeCount(s.subnets[i]);
    }
    if s.Select("", six).Some? {
      AllocateNextOutcome(s.subnets[s.Select("", six).value], pod);
    }
  }
}
